/** Restart markers on the decoder's side (jdmarker.c). */
module MarkerReader {
  import opened ProbabilityTable
  import opened ByteStream
  import opened CodingInterval
  import opened ArithDecoder

  const M_SOF0 := 0xC0
  const M_RST0 := 0xD0
  const M_RST7 := 0xD7

  datatype Action = Discard | Advance | Leave

  /** How to go on when another marker is found than the restart marker desired. */
  function RecoveryAction(marker: byte, desired: nat): Action {
    if marker < M_SOF0 then Advance  // invalid marker
    else if marker < M_RST0 || marker > M_RST7 then Leave  // valid non-restart marker
    else if marker == M_RST0 + (desired + 1) % 8 || marker == M_RST0 + (desired + 2) % 8 then Leave
    else if marker == M_RST0 + (desired + 7) % 8 || marker == M_RST0 + (desired + 6) % 8 then Advance
    else Discard
  }

  /** The marker that is left unread and the input behind it, after recovery. */
  function Resynced(u: Upcoming, desired: nat): (r: Upcoming)
    ensures r.marker != 0 ==> RecoveryAction(r.marker, desired) == Leave
    decreases |u.rest| + if RecoveryAction(u.marker, desired) == Leave then 0 else 1
  {
    match RecoveryAction(u.marker, desired)
    case Discard => Upcoming(0, u.rest)
    case Leave => u
    case Advance =>
      MarkerConsumes(u.rest);
      Resynced(NextMarker(u.rest), desired)
  }

  /** What is left unread, and the input behind it, when a restart marker has been read. */
  function AfterRestart(u: Upcoming, desired: nat): Upcoming {
    if u.marker == M_RST0 + desired then Upcoming(0, u.rest) else Resynced(u, desired)
  }

  /** The action depends on how far ahead of the marker desired the marker found is, counting modulo 8. */
  lemma {:induction false} ActionByDistance(desired: nat, ahead: nat)
    requires desired < 8 && ahead < 8
    ensures RecoveryAction(M_RST0 + (desired + ahead) % 8, desired)
         == if 1 <= ahead <= 2 then Leave else if ahead >= 6 then Advance else Discard
    ensures M_RST0 == 0xD0
  {
  }

  /** When one or two restart intervals have been lost, their markers with them, then the next marker stays unread, and
      nothing of the input is used, until it is the one desired; then it is taken. */
  lemma {:induction false} LostIntervals(u: Upcoming, desired: nat, lost: nat, i: nat)
    requires desired < 8 && 1 <= lost <= 2 && u.marker == M_RST0 + (desired + lost) % 8 && i <= lost
    ensures AfterRestart(u, (desired + i) % 8) == if i < lost then u else Upcoming(0, u.rest)
  {
    hide RecoveryAction, Resynced;
    if i < lost {
      var d := (desired + i) % 8;
      assert (d + (lost - i)) % 8 == (desired + lost) % 8;
      LeftUnread(u, d, lost - i);
    }
  }

  lemma {:induction false} LeftUnread(u: Upcoming, desired: nat, ahead: nat)
    requires desired < 8 && 1 <= ahead <= 2 && u.marker == M_RST0 + (desired + ahead) % 8
    ensures AfterRestart(u, desired) == u
  {
    ActionByDistance(desired, ahead);
  }

  /** A marker of one of the two intervals before is passed, with all data up to the next marker. */
  lemma {:induction false} OldMarker(u: Upcoming, desired: nat, behind: nat)
    requires desired < 8 && 1 <= behind <= 2 && u.marker == M_RST0 + (desired + 8 - behind) % 8
    ensures AfterRestart(u, desired) == Resynced(NextMarker(u.rest), desired)
    ensures NextMarker(u.rest).marker == M_RST0 + desired ==>
              AfterRestart(u, desired) == Upcoming(0, NextMarker(u.rest).rest)
  {
    ActionByDistance(desired, 8 - behind);
    ActionByDistance(desired, 0);
  }

  /** A marker that ends the scan, as EOI does, is never passed. */
  lemma {:induction false} NeverPassed(u: Upcoming, desired: nat)
    requires desired < 8 && u.marker >= 0xC0 && !(0xD0 <= u.marker <= 0xD7)
    ensures AfterRestart(u, desired) == u
  {
  }

  /** What is no legal marker code is passed. */
  lemma {:induction false} IllegalPassed(u: Upcoming, desired: nat)
    requires desired < 8 && u.marker < 0xC0
    ensures AfterRestart(u, desired) == Resynced(NextMarker(u.rest), desired)
  {
    MarkerConsumes(u.rest);
  }

  /** A marker takes at least one byte of the input; a source that has run dry supplies EOI. */
  lemma {:induction false} MarkerConsumes(input: seq<byte>)
    ensures var u := NextMarker(input); u.marker != 0 && u.marker != 0xFF && |u.rest| <= |input|
    ensures input != [] ==> |NextMarker(input).rest| < |input|
    ensures input == [] ==> NextMarker(input) == Upcoming(0xD9, [])
    decreases |input|, 0
  {
    if input != [] {
      if input[0] != 0xFF {
        MarkerConsumes(input[1..]);
      } else {
        MarkerConsumesFF(input[1..]);
      }
    }
  }

  lemma {:induction false} MarkerConsumesFF(input: seq<byte>)
    ensures var u := MarkerAfterFF(input); u.marker != 0 && u.marker != 0xFF && |u.rest| <= |input|
    decreases |input|, 1
  {
    if input != [] {
      if input[0] == 0xFF {
        MarkerConsumesFF(input[1..]);
      } else if input[0] == 0 {
        MarkerConsumes(input[1..]);
      }
    }
  }

  /** Find the next marker. */
  method FindMarker(d: Decoder)
    modifies d`input, d`unreadMarker
    ensures Upcoming(d.unreadMarker, d.input) == NextMarker(old(d.input))
  {
    var c := 0;
    MarkerConsumes(d.input);
    while c == 0
      invariant if c == 0 then NextMarker(d.input) == NextMarker(old(d.input))
                else Upcoming(c, d.input) == NextMarker(old(d.input))
      decreases c == 0, |d.input|
    {
      ghost var before := d.input;
      c := d.GetByte();
      // Skip any non-FF bytes.
      while c != 0xFF
        invariant NextMarker([c] + d.input) == NextMarker(old(d.input))
        invariant |d.input| < |before| || [c] + d.input == [0xFF, 0xD9]
        decreases c != 0xFF, |d.input|
      {
        assert ([c] + d.input)[1..] == d.input;
        c := d.GetByte();
      }
      assert ([c] + d.input)[1..] == d.input;
      c := d.SkipFF();
    }
    d.unreadMarker := c;
  }

  /** The default recovery: scan forward, discard the marker or leave it unread. */
  method ResyncToRestart(d: Decoder, desired: nat)
    modifies d`input, d`unreadMarker
    ensures Upcoming(d.unreadMarker, d.input) == Resynced(old(Upcoming(d.unreadMarker, d.input)), desired)
  {
    ghost var goal := Resynced(Upcoming(d.unreadMarker, d.input), desired);
    var action := RecoveryAction(d.unreadMarker, desired);
    while action == Advance
      invariant action == RecoveryAction(d.unreadMarker, desired)
      invariant Resynced(Upcoming(d.unreadMarker, d.input), desired) == goal
      decreases |d.input| + if action == Leave then 0 else 1
    {
      MarkerConsumes(d.input);
      FindMarker(d);
      action := RecoveryAction(d.unreadMarker, desired);
    }
    if action == Discard {
      d.unreadMarker := 0;
    }
  }

  /** Read a restart marker; if another marker is found, take the recovery action. */
  method ReadRestartMarker(d: Decoder, desired: nat)
    requires desired < 8
    modifies d`input, d`unreadMarker
    ensures Upcoming(d.unreadMarker, d.input) == AfterRestart(old(d.Ahead()), desired)
  {
    if d.unreadMarker == 0 {
      FindMarker(d);
    }
    if d.unreadMarker == M_RST0 + desired {
      d.unreadMarker := 0;
    } else {
      ResyncToRestart(d, desired);
    }
  }
}
