/** The arithmetic encoder (jcarith.c) and the arithmetic decoder (jdarith.c) put together. */
module CodecRoundTrip {
  import opened ProbabilityTable
  import opened ByteStream
  import opened CodingInterval
  import opened ArithEncoder
  import opened ArithDecoder

  function AsDecisions(ds: seq<Decision>): Decisions {
    if ds == [] then Done else Then(ds[0], AsDecisions(ds[1..]))
  }

  lemma {:induction false} AfterAll(log: seq<Decision>, ds: seq<Decision>)
    ensures After(log, AsDecisions(ds)) == log + ds
    decreases |ds|
  {
    if ds == [] {
      assert log + ds == log;
    } else {
      AfterAll(log + [ds[0]], ds[1..]);
      assert log + [ds[0]] + ds[1..] == log + ds;
    }
  }

  /** Encode a segment of any decisions. */
  method EncodeSegment(enc: Encoder, ds: seq<Decision>)
    requires InBins(ds, enc.bins.Length)
    modifies enc, enc.bins
    ensures enc.out == old(enc.out) + Stuff(enc.data)
    ensures SegmentFor(enc.t, old(enc.bins[..]), ds, enc.data)
    ensures enc.bins[..] == Run(enc.t, Start(old(enc.bins[..])), ds).bins
  {
    hide Encoder.Written;
    enc.StartSegment();
    for i := 0 to |ds|
      invariant enc.Valid() && enc.log == ds[..i] && enc.head == old(enc.out) && enc.first == old(enc.bins[..])
    {
      enc.ArithEncode(ds[i].bin, ds[i].bit, Done);
    }
    assert ds[..|ds|] == ds;
    ghost var bins := enc.bins[..];
    enc.FinishPass();
    assert enc.bins[..] == bins;
    assert enc.Written();
  }

  lemma {:induction false} SegmentOpens(dec: Decoder, ds: seq<Decision>, data: seq<byte>, marker: byte,
                                        behind: seq<byte>)
    requires SegmentFor(dec.t, dec.bins[..], ds, data) && marker != 0 && marker != 0xFF
    requires dec.c == 0 && dec.a == 0 && dec.ct == -16 && dec.unreadMarker == 0
    requires dec.input == Stuff(data) + [0xFF, marker] + behind
    ensures dec.Tracks(AsDecisions(ds), Run(dec.t, Start(dec.bins[..]), ds).bins)
    ensures dec.Ahead() == Upcoming(marker, behind)
  {
    hide SegmentFor, Run, Stuff, Data, NextMarker, Codes, AsDecisions, After;
    AfterAll([], ds);
    assert [] + ds == ds;
    DataOfStuffed(data, marker, behind);
    MarkerBehindStuffed(data, marker, behind);
    SegmentDecodes(dec.t, dec.bins[..], AsDecisions(ds), data);
    assert dec.R().Seen() == Opening(data, dec.bins[..]);
  }

  /** Any decisions, through the encoder and the decoder, in the contexts of any bins: the same decisions come out, both
      sides leave the bins in the same state, and the decoder stops at the marker behind the segment. */
  method SendDecisions(enc: Encoder, dec: Decoder, ds: seq<Decision>, marker: byte, behind: seq<byte>)
      returns (vals: seq<bit>)
    requires enc.t == dec.t && enc.bins != dec.bins && enc.bins[..] == dec.bins[..] && InBins(ds, enc.bins.Length)
    requires marker != 0 && marker != 0xFF
    modifies enc, enc.bins, dec, dec.bins
    ensures |vals| == |ds| && forall i :: 0 <= i < |ds| ==> vals[i] == ds[i].bit
    ensures enc.bins[..] == dec.bins[..]
    ensures dec.Ahead() == Upcoming(marker, behind)
  {
    hide Decoder.Tracks, Decoder.Ahead, Run, SegmentFor, Decoder.Valid;
    var n := |enc.out|;
    EncodeSegment(enc, ds);
    dec.input, dec.unreadMarker := enc.out[n..] + [0xFF, marker] + behind, 0;
    dec.c, dec.a, dec.ct := 0, 0, -16;
    assert enc.out[n..] == Stuff(enc.data);
    SegmentOpens(dec, ds, enc.data, marker, behind);
    ghost var final := enc.bins[..];
    vals := [];
    for i := 0 to |ds|
      invariant |vals| == i && forall q :: 0 <= q < i ==> vals[q] == ds[q].bit
      invariant enc.bins[..] == final
      invariant dec.Tracks(AsDecisions(ds[i..]), final) && dec.Ahead() == Upcoming(marker, behind)
    {
      TracksValid(dec, AsDecisions(ds[i..]), final);
      assert AsDecisions(ds[i..]) == Then(ds[i], AsDecisions(ds[i + 1..]));
      var val := dec.ArithDecode(ds[i].bin, AsDecisions(ds[i..]), final);
      vals := vals + [val];
    }
    assert ds[|ds|..] == [];
    TracksValid(dec, Done, final);
  }

  lemma {:induction false} TracksValid(dec: Decoder, ds: Decisions, final: seq<Bin>)
    requires dec.Tracks(ds, final)
    ensures dec.Valid() && (ds.Done? ==> dec.bins[..] == final)
  {
  }
}
