/** What callers of the encoder rely on: sizes, bounds, and output in pieces. */
module Utf7EncoderLaws {
  import opened Transducer
  import opened Utf7Scheme
  import opened Utf7Encoding

  lemma EncodeFirst(s: Scheme, st: EncState, us: seq<Unit>)
    requires us != []
    ensures var st1 := NextState(s, st, us[0]);
            && EncodeAll(s, st, us) == EncodeUnit(s, st, us[0]) + EncodeAll(s, st1, us[1..])
            && StateAfter(s, st, us) == StateAfter(s, st1, us[1..])
            && Finished(s, st, us) == EncodeUnit(s, st, us[0]) + Finished(s, st1, us[1..])
  {
    hide EncodeUnit, NextState;
  }

  lemma CallFirst(s: Scheme, st: EncState, us: seq<Unit>, room: int)
    requires us != []
    ensures var r := EncodeStep(s, st, us[0], room);
            EncodeCall(s, st, us, room) ==
            if r.status != Ok then r else Then(r, EncodeCall(s, r.st, us[1..], room - |r.out|))
  {
    hide EncodeStep;
  }

  lemma FinishedNothing(s: Scheme, st: EncState)
    ensures Finished(s, st, []) == CloseBytes(s, st)
  {
  }

  // ---- Splitting ----

  /** Any split of the input: when the first call gets through its part, then whatever the room and
      the result of the second, the two do what one call on the whole does with the room they had. */
  lemma CallsJoin(s: Scheme, st: EncState, a: seq<Unit>, b: seq<Unit>, room: nat, room': nat)
    requires EncValid(st) && EncodeCall(s, st, a, room).status == Ok
    ensures var r1 := EncodeCall(s, st, a, room);
            var r2 := EncodeCall(s, r1.st, b, room');
            EncodeCall(s, st, a + b, |r1.out| + room') == Then(r1, r2)
  {
    hide Feed, Output, After, EncValid;
    var r1 := EncodeCall(s, st, a, room);
    CompletesIffFits(s, st, a, room);
    CompletesIffFits(s, st, a, |r1.out| + room');
    SplitCall(s, st, a, b, |r1.out| + room');
  }

  lemma SplitCall(s: Scheme, st: EncState, a: seq<Unit>, b: seq<Unit>, room: int)
    ensures var r := EncodeCall(s, st, a, room);
            EncodeCall(s, st, a + b, room) == if r.status != Ok then r else Then(r, EncodeCall(s, r.st, b, room - |r.out|))
  {
    hide Feed, EncodeStep, EncodeUnit, NextState, EncValid;
    FeedSplit(Encoder(s), st, a, b, room);
  }

  // ---- Finishing ----

  /** With room for two bytes FinishNoBuff closes the run and is back in the reset state. */
  lemma FinishResets(s: Scheme, st: EncState, room: int)
    requires EncValid(st) && 2 <= room
    ensures Shift(s, st, false, room) == Run(ENC_RESET, 0, CloseBytes(s, st), Ok)
  {
  }

  /** Finishing into small buffers: what an interrupted FinishNoBuff has not written comes out of
      the next one. */
  lemma FinishResumes(s: Scheme, st: EncState, room: int)
    requires EncValid(st)
    ensures var r := Shift(s, st, false, room);
            && CloseBytes(s, st) == r.out + CloseBytes(s, r.st) && EncValid(r.st)
            && (r.status == Ok <==> |CloseBytes(s, st)| <= room || !st.base64)
            && (r.status == Ok ==> r.st == ENC_RESET)
            && |r.out| == Fitting(CloseBytes(s, st), room)
  {
  }

  /** How many of the bytes fit into the room. */
  function Fitting(bs: seq<Byte>, room: int): (n: nat)
    ensures n <= |bs|
  {
    if room < 0 then 0 else if room < |bs| then room else |bs|
  }

  // ---- Bounds ----

  /** An escape pair whose first byte would be the last one of the buffer: the caller can tell
      from the units and the room. */
  predicate PairAtEnd(s: Scheme, st: EncState, us: seq<Unit>, room: int)
    decreases us
  {
    us != [] &&
    ((us[0] == s.escChar && Direct(s, us[0]) && |OpenBytes(s, st, us[0])| == room - 1)
     || PairAtEnd(s, NextState(s, st, us[0]), us[1..], room - |EncodeUnit(s, st, us[0])|))
  }

  lemma {:induction false} NoPairWithoutRoom(s: Scheme, st: EncState, us: seq<Unit>, room: int)
    requires room <= 0
    ensures !PairAtEnd(s, st, us, room)
    decreases us
  {
    hide EncodeUnit, OpenBytes, NextState;
    if us != [] {
      NoPairWithoutRoom(s, NextState(s, st, us[0]), us[1..], room - |EncodeUnit(s, st, us[0])|);
    }
  }

  lemma StepBounds(s: Scheme, st: EncState, u: Unit, room: int)
    requires EncValid(st)
    ensures var r := EncodeStep(s, st, u, room);
            && (r.status != Ok ==> r.out == [] || |r.out| <= room)
            && (r.status == Ok ==> 0 < room)
            && (r.status == Ok ==>
                  if u == s.escChar && Direct(s, u) && |OpenBytes(s, st, u)| == room - 1
                  then |r.out| == room + 1 && r.out[room] == DASH else |r.out| <= room)
            && (r.status != Ok ==> !(u == s.escChar && Direct(s, u) && |OpenBytes(s, st, u)| == room - 1))
  {
    hide ValueToChar;
    ShiftResumes(s, st, u, room);
    StepParts(s, st, u, room);
  }

  /** A call passes the end of its buffer exactly when an escape pair falls on it, and then by one
      byte, the '-' of the pair: the guard before it asks for one byte and two are written. */
  lemma {:induction false} OverrunIffPairAtEnd(s: Scheme, st: EncState, us: seq<Unit>, room: nat)
    requires EncValid(st)
    ensures var out := EncodeCall(s, st, us, room).out;
            if PairAtEnd(s, st, us, room) then |out| == room + 1 && out[room] == DASH else |out| <= room
    decreases us
  {
    hide EncodeUnit, OpenBytes, NextState, EncodeStep, EncodeCall, EncValid;
    if us != [] {
      CallFirst(s, st, us, room);
      StepBounds(s, st, us[0], room);
      StepParts(s, st, us[0], room);
      var r := EncodeStep(s, st, us[0], room);
      var room' := room - |EncodeUnit(s, st, us[0])|;
      if r.status == Ok && |r.out| <= room {
        OverrunIffPairAtEnd(s, r.st, us[1..], room');
        NoPairElsewhere(s, st, us, room);
      } else if r.status == Ok {
        NothingPastEnd(s, r.st, us[1..], room');
      } else {
        NoPairWithoutRoom(s, NextState(s, st, us[0]), us[1..], room');
      }
    } else {
      CallOfNothing(s, st, room);
    }
  }

  /** Once a unit has been written inside the buffer, the pair in question is a later one. */
  lemma NoPairElsewhere(s: Scheme, st: EncState, us: seq<Unit>, room: int)
    requires EncValid(st) && us != [] && |EncodeUnit(s, st, us[0])| <= room
    ensures PairAtEnd(s, st, us, room) == PairAtEnd(s, NextState(s, st, us[0]), us[1..], room - |EncodeUnit(s, st, us[0])|)
  {
  }

  lemma NothingPastEnd(s: Scheme, st: EncState, us: seq<Unit>, room: int)
    requires EncValid(st) && room < 0
    ensures EncodeCall(s, st, us, room).out == []
  {
    hide EncodeStep, EncodeCall;
    if us != [] {
      CallFirst(s, st, us, room);
      StepBounds(s, st, us[0], room);
    } else {
      CallOfNothing(s, st, room);
    }
  }

  /** With room for the whole output a call completes, in bounds; with less it does not. */
  lemma CompletesIffFits(s: Scheme, st: EncState, us: seq<Unit>, room: nat)
    requires EncValid(st)
    ensures var r := EncodeCall(s, st, us, room);
            && ((r.status == Ok && |r.out| <= room) <==> |EncodeAll(s, st, us)| <= room)
            && (r.status == Ok ==> r == Run(StateAfter(s, st, us), |us|, EncodeAll(s, st, us), Ok))
  {
    hide Feed, Output, After;
    EncoderLawful(s);
    FeedFits(Encoder(s), st, us, room);
  }

  // ---- Output in pieces ----

  /** The room without which a call does not take the first unit. */
  function Need(s: Scheme, st: EncState, u: Unit): (need: nat)
    ensures need <= 3
  {
    |OpenBytes(s, st, u)| + Guard(s, Opened(s, st, u), u)
  }

  /** A call with input left takes a unit exactly when it has this room, which is never more than
      three bytes; and a unit taken is at least one byte written. */
  lemma CallTakes(s: Scheme, st: EncState, us: seq<Unit>, room: int)
    requires EncValid(st) && us != []
    ensures var r := EncodeCall(s, st, us, room);
            && (1 <= r.read <==> Need(s, st, us[0]) <= room)
            && (1 <= r.read ==> r.out != [])
  {
    hide Feed, ValueToChar;
    CallFirst(s, st, us, room);
    ShiftResumes(s, st, us[0], room);
    UnitFacts(s, Opened(s, st, us[0]), us[0]);
  }

  lemma StepStops(s: Scheme, st: EncState, u: Unit, room: int)
    requires EncValid(st)
    ensures var r := EncodeStep(s, st, u, room);
            r.status != Ok ==>
              && room < |EncodeUnit(s, st, u)| - (if u == s.escChar && Direct(s, u) then 1 else 0)
              && |r.out| == Fitting(OpenBytes(s, st, u), room) && r.out <= OpenBytes(s, st, u)
  {
    hide ValueToChar, Shift, OpenBytes, UnitBytes, EncValid, UnitState, Opened;
    ShiftResumes(s, st, u, room);
    ShiftFills(s, st, u, room);
    GuardIsLength(s, Opened(s, st, u), u);
  }

  lemma ShiftFills(s: Scheme, st: EncState, u: Unit, room: int)
    requires EncValid(st)
    ensures var sh := Shift(s, st, !Direct(s, u), room);
            && |sh.out| == Fitting(OpenBytes(s, st, u), room)
            && (sh.status != Ok ==> room < |OpenBytes(s, st, u)|)
  {
    hide ValueToChar, Direct;
  }

  lemma GuardIsLength(s: Scheme, st: EncState, u: Unit)
    ensures Guard(s, st, u) == |UnitBytes(s, st, u)| - (if u == s.escChar && Direct(s, u) then 1 else 0)
  {
    hide ValueToChar, Direct;
  }

  /** Where a call stops, and that it fills the buffer as far as it goes: it has written all the units
      it took, and of the next one as much of the mode change as fits; and the rest of that one does
      not fit, but for the second byte of an escape pair. */
  lemma {:induction false} StopsWhenFull(s: Scheme, st: EncState, us: seq<Unit>, room: int)
    requires EncValid(st)
    ensures var r := EncodeCall(s, st, us, room);
            r.status != Ok ==>
              && r.read < |us|
              && var taken, u := us[..r.read], us[r.read];
                 var st', left := StateAfter(s, st, taken), room - |EncodeAll(s, st, taken)|;
                 && left < |EncodeUnit(s, st', u)| - (if u == s.escChar && Direct(s, u) then 1 else 0)
                 && |r.out| == |EncodeAll(s, st, taken)| + Fitting(OpenBytes(s, st', u), left)
                 && r.out <= EncodeAll(s, st, taken) + OpenBytes(s, st', u)
    decreases us
  {
    hide EncodeStep, EncodeUnit, OpenBytes, NextState, EncValid, EncodeCall, EncodeAll, StateAfter, Fitting;
    if us == [] {
      CallOfNothing(s, st, room);
    } else {
      CallFirst(s, st, us, room);
      StepStops(s, st, us[0], room);
      StepParts(s, st, us[0], room);
      var r := EncodeStep(s, st, us[0], room);
      if r.status != Ok {
        NothingEncoded(s, st);
        assert us[..0] == [];
      } else {
        StopsWhenFull(s, r.st, us[1..], room - |r.out|);
        var r' := EncodeCall(s, r.st, us[1..], room - |r.out|);
        if r'.status != Ok {
          var taken := us[..1 + r'.read];
          assert taken[1..] == us[1..][..r'.read] && us[1..][r'.read] == us[1 + r'.read];
          EncodeFirst(s, st, taken);
        }
      }
    }
  }

  lemma NothingEncoded(s: Scheme, st: EncState)
    ensures EncodeAll(s, st, []) == [] && StateAfter(s, st, []) == st
  {
  }

  /** Feeding what was not taken again, buffer after buffer: with any buffers the pieces are a
      beginning of the one-shot output and the rest is still to come; with buffers of at least
      three bytes, one for each unit is always enough. */
  lemma {:induction false} OutputResumes(s: Scheme, st: EncState, us: seq<Unit>, rooms: seq<int>)
    requires EncValid(st)
    ensures var r := Session(Encoder(s), st, us, rooms);
            && r.read <= |us| && EncValid(r.st)
            && EncodeAll(s, st, us) == r.out + EncodeAll(s, r.st, us[r.read..])
            && StateAfter(s, st, us) == StateAfter(s, r.st, us[r.read..])
            && (r.status == Ok ==> r == Run(StateAfter(s, st, us), |us|, EncodeAll(s, st, us), Ok))
            && (|us| <= |rooms| && (forall room :: room in rooms ==> 3 <= room) ==> r.status == Ok)
  {
    hide Feed, Output, After, Session;
    EncoderLawful(s);
    SessionResumes(Encoder(s), st, us, rooms);
    if |us| <= |rooms| && (forall room :: room in rooms ==> 3 <= room) {
      SessionDrains(s, st, us, rooms);
    }
  }

  lemma {:induction false} SessionDrains(s: Scheme, st: EncState, us: seq<Unit>, rooms: seq<int>)
    requires EncValid(st) && |us| <= |rooms| && forall room :: room in rooms ==> 3 <= room
    ensures Session(Encoder(s), st, us, rooms).status == Ok
    decreases rooms
  {
    hide Feed;
    if rooms != [] {
      var r := EncodeCall(s, st, us, rooms[0]);
      EncoderLawful(s);
      FeedResumes(Encoder(s), st, us, rooms[0]);
      if us == [] {
        CallOfNothing(s, st, rooms[0]);
      } else if r.status != Ok {
        assert rooms[0] in rooms && forall room :: room in rooms[1..] ==> room in rooms;
        CallTakes(s, st, us, rooms[0]);
        SessionDrains(s, r.st, us[r.read..], rooms[1..]);
      }
    }
  }

  // ---- Sizes ----

  /** Twice what a state may still cost, chosen so that no unit costs more than 3.5 bytes. */
  function Charge(st: EncState): nat {
    if !st.base64 then 3 else if st.step == 0 then 2 else 4
  }

  lemma UnitCharge(s: Scheme, st: EncState, u: Unit)
    requires EncValid(st)
    ensures 2 * |EncodeUnit(s, st, u)| + Charge(NextState(s, st, u)) <= Charge(st) + 7
  {
    hide ValueToChar;
  }

  lemma {:induction false} FinishedSize(s: Scheme, st: EncState, us: seq<Unit>)
    requires EncValid(st)
    ensures 2 * |Finished(s, st, us)| <= 7 * |us| + Charge(st)
    decreases us
  {
    hide EncodeUnit;
    if us == [] {
    } else {
      UnitCharge(s, st, us[0]);
      StepParts(s, st, us[0], |EncodeUnit(s, st, us[0])|);
      EncodeFirst(s, st, us);
      FinishedSize(s, NextState(s, st, us[0]), us[1..]);
    }
  }

  /** From reset, n units cost at most (7n + 3) / 2 bytes including the finish; in particular
      5n bytes of room are always enough. */
  lemma EncodedSize(s: Scheme, us: seq<Unit>)
    ensures |Encoded(s, us)| <= (7 * |us| + 3) / 2
    ensures |Encoded(s, us)| <= 5 * |us|
  {
    FinishedSize(s, ENC_RESET, us);
    if us == [] {
      assert EncodeAll(s, ENC_RESET, us) == [];
    }
  }

  /** With 5n bytes of room neither the conversion nor the finish asks for more, and both stay in
      bounds. */
  lemma FiveBytesSuffice(s: Scheme, us: seq<Unit>, room: nat)
    requires 5 * |us| <= room
    ensures var r := EncodeCall(s, ENC_RESET, us, room);
            && r == Run(StateAfter(s, ENC_RESET, us), |us|, EncodeAll(s, ENC_RESET, us), Ok)
            && |r.out| <= room
            && Shift(s, r.st, false, room - |r.out|) == Run(ENC_RESET, 0, CloseBytes(s, r.st), Ok)
            && |r.out| + |CloseBytes(s, r.st)| <= room
  {
    hide Feed, Output, After;
    EncodedSize(s, us);
    CompletesIffFits(s, ENC_RESET, us, room);
    AfterValid(s, ENC_RESET, us);
    FinishResumes(s, StateAfter(s, ENC_RESET, us), room - |EncodeAll(s, ENC_RESET, us)|);
  }

  /** Units that reach the bounds: a base64 unit and a direct one in turn. */
  function Costly(direct: Unit, n: nat): seq<Unit> {
    if n == 0 then [] else if n == 1 then [0] else if n == 2 then [0, 0]
    else [0, direct] + Costly(direct, n - 2)
  }

  /** The bound is tight for every positive n when the escape is direct and NUL is not, as in
      modified UTF-7. */
  lemma {:induction false} SizeIsTight(s: Scheme, n: nat)
    requires 0 < n && Direct(s, s.escChar) && !Direct(s, 0)
    ensures |Costly(s.escChar, n)| == n && |Encoded(s, Costly(s.escChar, n))| == (7 * n + 3) / 2
    decreases n
  {
    CostlySize(s, s.escChar, n);
    if n > 2 {
      SizeIsTight(s, n - 2);
    }
  }

  /** What the costly units cost: 5 bytes, 8 bytes, and for each pair more 5 and the direct unit. */
  lemma CostlySize(s: Scheme, direct: Unit, n: nat)
    requires 0 < n && Direct(s, direct) && !Direct(s, 0)
    ensures |Costly(direct, n)| == n
    ensures |Encoded(s, Costly(direct, n))| ==
            if n == 1 then 5 else if n == 2 then 8
            else (if direct == s.escChar then 7 else 6) + |Encoded(s, Costly(direct, n - 2))|
  {
    hide ValueToChar, Finished;
    var us, st1 := Costly(direct, n), EncState(true, 0, 1);
    CostlyLength(direct, n);
    EncodeFirst(s, ENC_RESET, us);
    assert NextState(s, ENC_RESET, 0) == st1 && |EncodeUnit(s, ENC_RESET, 0)| == 3;
    if n == 1 {
      assert us[1..] == [];
      FinishedNothing(s, st1);
    } else {
      EncodeFirst(s, st1, us[1..]);
      if n == 2 {
        assert us[1..][1..] == [];
        FinishedNothing(s, NextState(s, st1, 0));
      } else {
        assert us[1..][0] == direct && us[1..][1..] == Costly(direct, n - 2);
        assert NextState(s, st1, direct) == ENC_RESET;
      }
    }
  }

  lemma CostlyLength(direct: Unit, n: nat)
    ensures |Costly(direct, n)| == n
  {
  }

  // ---- Sizes when the escape is not direct, as in plain UTF-7 ----

  function PlainCharge(st: EncState): nat {
    if st.base64 && st.step == 0 then 1 else 2
  }

  lemma PlainUnitCharge(s: Scheme, st: EncState, u: Unit)
    requires EncValid(st) && !Direct(s, s.escChar)
    ensures |EncodeUnit(s, st, u)| + PlainCharge(NextState(s, st, u)) <= PlainCharge(st) + 3
  {
    hide ValueToChar;
  }

  lemma {:induction false} PlainFinishedSize(s: Scheme, st: EncState, us: seq<Unit>)
    requires EncValid(st) && !Direct(s, s.escChar)
    ensures |Finished(s, st, us)| <= 3 * |us| + PlainCharge(st)
    decreases us
  {
    hide EncodeUnit, NextState, Finished;
    if us == [] {
      FinishedNothing(s, st);
    } else {
      PlainUnitCharge(s, st, us[0]);
      StepParts(s, st, us[0], |EncodeUnit(s, st, us[0])|);
      EncodeFirst(s, st, us);
      PlainFinishedSize(s, NextState(s, st, us[0]), us[1..]);
    }
  }

  /** When the escape is not direct, n units cost at most 3n + 2 bytes including the finish; and if
      some unit is direct and NUL is not, there are n units that do, for every positive n. */
  lemma PlainSize(s: Scheme, us: seq<Unit>)
    requires !Direct(s, s.escChar)
    ensures |Encoded(s, us)| <= 3 * |us| + 2
  {
    hide Finished;
    PlainFinishedSize(s, ENC_RESET, us);
  }

  lemma {:induction false} PlainSizeIsTight(s: Scheme, direct: Unit, n: nat)
    requires 0 < n && !Direct(s, s.escChar) && Direct(s, direct) && !Direct(s, 0)
    ensures |Costly(direct, n)| == n && |Encoded(s, Costly(direct, n))| == 3 * n + 2
    decreases n
  {
    hide Encoded;
    CostlySize(s, direct, n);
    if n > 2 {
      PlainSizeIsTight(s, direct, n - 2);
    }
  }

  // ---- Known answers ----

  /** Two stretches of the string that the unit test of the encoder expects: "+LGI--" and
      "+ITIipSIp-". */
  lemma KnownAnswer(signedChar: bool)
    ensures Encoded(PlainUtf7(signedChar), [0x2c62, 45]) == [43, 76, 71, 73, 45, 45]
  {
    hide Finished;
    var s := PlainUtf7(signedChar);
    var us, st1 := [0x2c62, 45], EncState(true, 8, 1);
    EncodeFirst(s, ENC_RESET, us);
    assert NextState(s, ENC_RESET, 0x2c62) == st1 && us[1..] == [45] && [45][1..] == [];
    assert EncodeUnit(s, ENC_RESET, 0x2c62) == [43, 76, 71];
    EncodeFirst(s, st1, [45]);
    assert NextState(s, st1, 45) == ENC_RESET && EncodeUnit(s, st1, 45) == [73, 45, 45];
    FinishedNothing(s, ENC_RESET);
  }

  lemma KnownRun(signedChar: bool)
    ensures Encoded(PlainUtf7(signedChar), [0x2132, 0x22a5, 0x2229]) == [43, 73, 84, 73, 105, 112, 83, 73, 112, 45]
  {
    hide Finished, EncodeUnit, NextState, PlainUtf7;
    var s := PlainUtf7(signedChar);
    var us, tail := [0x2132, 0x22a5, 0x2229], [0x22a5, 0x2229];
    KnownUnits(signedChar);
    EncodeFirst(s, ENC_RESET, us);
    assert us[1..] == tail && tail[1..] == [0x2229] && [0x2229][1..] == [];
    EncodeFirst(s, EncState(true, 8, 1), tail);
    EncodeFirst(s, EncState(true, 16, 2), [0x2229]);
    FinishedNothing(s, EncState(true, 0, 0));
  }

  lemma KnownUnits(signedChar: bool)
    ensures var s, st1, st2 := PlainUtf7(signedChar), EncState(true, 8, 1), EncState(true, 16, 2);
            && NextState(s, ENC_RESET, 0x2132) == st1 && EncodeUnit(s, ENC_RESET, 0x2132) == [43, 73, 84]
            && NextState(s, st1, 0x22a5) == st2 && EncodeUnit(s, st1, 0x22a5) == [73, 105, 112]
            && NextState(s, st2, 0x2229) == EncState(true, 0, 0) && EncodeUnit(s, st2, 0x2229) == [83, 73, 112]
  {
  }
}
