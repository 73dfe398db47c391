/** What callers of the decoder rely on: it takes any bytes, in any pieces. */
module Utf7DecoderLaws {
  import opened Transducer
  import opened Utf7Scheme
  import opened Utf7Decoding
  import opened Utf7RoundTrip
  import E = Utf7Encoding

  lemma DecodeFirst(s: Scheme, st: DecState, bs: seq<Byte>)
    requires bs != []
    ensures var st1 := NextState(s, st, bs[0]);
            && DecodeAll(s, st, bs) == DecodeByte(s, st, bs[0]) + DecodeAll(s, st1, bs[1..])
            && StateAfter(s, st, bs) == StateAfter(s, st1, bs[1..])
  {
    hide DecodeByte, NextState;
  }

  lemma {:induction false} OneUnitPerByte(s: Scheme, st: DecState, bs: seq<Byte>)
    ensures |DecodeAll(s, st, bs)| <= |bs|
    decreases bs
  {
    hide NextState;
    if bs != [] {
      DecodeFirst(s, st, bs);
      OneUnitPerByte(s, NextState(s, st, bs[0]), bs[1..]);
    }
  }

  /** A call completes in bounds exactly when its whole output fits. */
  lemma CompletesIffFits(s: Scheme, st: DecState, bs: seq<Byte>, room: nat)
    requires WellFormed(s) && DecValid(st)
    ensures var r := DecodeCall(s, st, bs, room);
            && ((r.status == Ok && |r.out| <= room) <==> |DecodeAll(s, st, bs)| <= room)
            && (r.status == Ok ==> r == Run(StateAfter(s, st, bs), |bs|, DecodeAll(s, st, bs), Ok))
  {
    hide Feed, Output, After;
    DecoderLawful(s);
    FeedFits(Decoder(s), st, bs, room);
  }

  // ---- Past the end of the buffer ----

  /** How many literal escapes come when the room is gone and before anything that asks for room:
      the caller can tell from the bytes and the room. */
  function EscapesPastEnd(s: Scheme, st: DecState, bs: seq<Byte>, room: int): nat
    decreases bs
  {
    if bs == [] then 0
    else
      var escape := st.base64 && st.atStart && bs[0] == DASH;
      var n := |DecodeByte(s, st, bs[0])|;
      if !escape && room <= 0 && 0 < n then 0
      else (if escape && room <= 0 then 1 else 0) + EscapesPastEnd(s, NextState(s, st, bs[0]), bs[1..], room - n)
  }

  lemma CallFirst(s: Scheme, st: DecState, bs: seq<Byte>, room: int)
    requires bs != []
    ensures var r := DecodeStep(s, st, bs[0], room);
            DecodeCall(s, st, bs, room) ==
            if r.status != Ok then r else Then(r, DecodeCall(s, r.st, bs[1..], room - |r.out|))
  {
    hide DecodeStep;
  }

  /** When a byte is taken: only the literal escape is written without room. */
  lemma StepBounds(s: Scheme, st: DecState, b: Byte, room: int)
    requires WellFormed(s) && DecValid(st)
    ensures var r, escape, n := DecodeStep(s, st, b, room), st.base64 && st.atStart && b == DASH, |DecodeByte(s, st, b)|;
            && n <= 1 && (escape ==> n == 1)
            && (r.status == Ok <==> escape || 0 < room || n == 0)
            && (r.status != Ok ==> r.out == [])
  {
  }

  /** A call passes the end of its buffer exactly when literal escapes come once the room is gone,
      and by as many units as there are such escapes. */
  lemma OverrunIffEscapesPastEnd(s: Scheme, st: DecState, bs: seq<Byte>, room: nat)
    requires WellFormed(s) && DecValid(st)
    ensures room < |DecodeCall(s, st, bs, room).out| <==> 0 < EscapesPastEnd(s, st, bs, room)
    ensures room < |DecodeCall(s, st, bs, room).out| ==>
              |DecodeCall(s, st, bs, room).out| == room + EscapesPastEnd(s, st, bs, room)
  {
    OverrunIsEscapes(s, st, bs, room);
  }

  lemma {:induction false} OverrunIsEscapes(s: Scheme, st: DecState, bs: seq<Byte>, room: int)
    requires WellFormed(s) && DecValid(st)
    ensures var n, past := |DecodeCall(s, st, bs, room).out|, EscapesPastEnd(s, st, bs, room);
            if 0 < past then n == past + (if 0 < room then room else 0) else n <= if 0 < room then room else 0
    decreases bs
  {
    hide DecodeStep, DecodeByte, NextState, DecValid, DecodeCall;
    if bs == [] {
      CallOfNothing(s, st, room);
    } else {
      CallFirst(s, st, bs, room);
      StepBounds(s, st, bs[0], room);
      StepParts(s, st, bs[0], room);
      var r := DecodeStep(s, st, bs[0], room);
      if r.status == Ok {
        OverrunIsEscapes(s, r.st, bs[1..], room - |r.out|);
      }
    }
  }

  /** The literal escape written n times. */
  function Escapes(s: Scheme, n: nat): seq<Byte> {
    if n == 0 then [] else [s.escChar, DASH] + Escapes(s, n - 1)
  }

  /** There is no bound on how far: n escapes are decoded to n units and success, whatever the room. */
  lemma {:induction false} EscapesNeverStop(s: Scheme, st: DecState, n: nat, room: int)
    requires WellFormed(s) && DecValid(st) && !st.base64
    ensures var r := DecodeCall(s, st, Escapes(s, n), room);
            |r.out| == n && r.status == Ok && r.read == 2 * n
    decreases n
  {
    hide DecValid;
    if n == 0 {
      CallOfNothing(s, st, room);
    } else {
      var bs := Escapes(s, n);
      CallFirst(s, st, bs, room);
      assert bs[1..] == [DASH] + Escapes(s, n - 1) && bs[1..][1..] == Escapes(s, n - 1);
      CallFirst(s, Enter(st), bs[1..], room);
      StepParts(s, st, bs[0], room);
      StepParts(s, Enter(st), bs[1], room);
      EscapesNeverStop(s, Leave(Enter(st)), n - 1, room - 1);
    }
  }

  // ---- With room enough ----

  /** From every reachable state, for every byte string, with one unit of room for each byte the
      decoder takes everything, reports success and stays in bounds. */
  lemma Total(s: Scheme, st: DecState, bs: seq<Byte>, room: nat)
    requires WellFormed(s) && DecValid(st) && |bs| <= room
    ensures DecodeCall(s, st, bs, room) == Run(StateAfter(s, st, bs), |bs|, DecodeAll(s, st, bs), Ok)
    ensures |DecodeAll(s, st, bs)| <= |bs| && DecValid(StateAfter(s, st, bs))
  {
    hide Feed, Output, After;
    OneUnitPerByte(s, st, bs);
    CompletesIffFits(s, st, bs, room);
    DecoderLawful(s);
    FeedResumes(Decoder(s), st, bs, room);
  }

  /** Chunk independence: wherever the input is cut, also between the escape and '-' or inside a
      group of digits, two calls yield what one call on the whole yields. */
  lemma ChunksJoin(s: Scheme, st: DecState, a: seq<Byte>, b: seq<Byte>, room: nat, room': nat)
    requires WellFormed(s) && DecValid(st) && |a| <= room && |b| <= room'
    ensures var r1 := DecodeCall(s, st, a, room);
            var r2 := DecodeCall(s, r1.st, b, room');
            DecodeCall(s, st, a + b, room + room') == Then(r1, r2)
  {
    hide Feed, Output, After, DecValid;
    Total(s, st, a, room);
    Total(s, StateAfter(s, st, a), b, room');
    Total(s, st, a + b, room + room');
    OutputSplit(Decoder(s), st, a, b);
  }

  /** Output in pieces, buffer after buffer: with any buffers the pieces are a beginning of the whole
      output and the rest is still to come; with buffers of at least one unit, one for each byte is
      always enough. */
  lemma {:induction false} OutputResumes(s: Scheme, st: DecState, bs: seq<Byte>, rooms: seq<int>)
    requires WellFormed(s) && DecValid(st)
    ensures var r := Session(Decoder(s), st, bs, rooms);
            && r.read <= |bs| && DecValid(r.st)
            && DecodeAll(s, st, bs) == r.out + DecodeAll(s, r.st, bs[r.read..])
            && StateAfter(s, st, bs) == StateAfter(s, r.st, bs[r.read..])
            && (r.status == Ok ==> r == Run(StateAfter(s, st, bs), |bs|, DecodeAll(s, st, bs), Ok))
            && (|bs| <= |rooms| && (forall room :: room in rooms ==> 1 <= room) ==> r.status == Ok)
  {
    hide Feed, Output, After, Session, DecValid;
    DecoderLawful(s);
    assert Decoder(s).inv(st) by { ValidIsInv(s, st); }
    SessionResumes(Decoder(s), st, bs, rooms);
    ValidIsInv(s, Session(Decoder(s), st, bs, rooms).st);
    if |bs| <= |rooms| && (forall room :: room in rooms ==> 1 <= room) {
      SessionDrains(s, st, bs, rooms);
    }
  }

  lemma ValidIsInv(s: Scheme, st: DecState)
    ensures Decoder(s).inv(st) == DecValid(st)
  {
  }

  lemma {:induction false} SessionDrains(s: Scheme, st: DecState, bs: seq<Byte>, rooms: seq<int>)
    requires WellFormed(s) && DecValid(st) && |bs| <= |rooms| && forall room :: room in rooms ==> 1 <= room
    ensures Session(Decoder(s), st, bs, rooms).status == Ok
    decreases rooms
  {
    hide Feed, DecValid, DecodeStep;
    if rooms != [] {
      var r := DecodeCall(s, st, bs, rooms[0]);
      DecoderLawful(s);
      ValidIsInv(s, st);
      FeedResumes(Decoder(s), st, bs, rooms[0]);
      ValidIsInv(s, r.st);
      if bs == [] {
        CallOfNothing(s, st, rooms[0]);
      } else if r.status != Ok {
        assert rooms[0] in rooms && forall room :: room in rooms[1..] ==> room in rooms;
        CallFirst(s, st, bs, rooms[0]);
        StepBounds(s, st, bs[0], rooms[0]);
        StepParts(s, st, bs[0], rooms[0]);
        SessionDrains(s, r.st, bs[r.read..], rooms[1..]);
      }
    }
  }

  /** Stale bits, phase and flag do not matter in direct mode. */
  lemma {:induction false} StaleStateIsReset(s: Scheme, st: DecState, st': DecState, bs: seq<Byte>)
    requires !st.base64 && !st'.base64
    ensures DecodeAll(s, st, bs) == DecodeAll(s, st', bs)
    ensures var end, end' := StateAfter(s, st, bs), StateAfter(s, st', bs);
            end.base64 == end'.base64 && (end.base64 ==> end == end')
    decreases bs
  {
    if bs != [] {
      DecodeFirst(s, st, bs);
      DecodeFirst(s, st', bs);
      if bs[0] != s.escChar {
        StaleStateIsReset(s, st, st', bs[1..]);
      }
    }
  }

  // ---- Several messages ----

  function Joined<T>(xs: seq<seq<T>>): seq<T> {
    if xs == [] then [] else xs[0] + Joined(xs[1..])
  }

  function EncodedEach(s: Scheme, messages: seq<seq<Unit>>): seq<seq<Byte>> {
    if messages == [] then [] else [E.Encoded(s, messages[0])] + EncodedEach(s, messages[1..])
  }

  /** The concatenation of finished encodings decodes to the concatenation of the messages, on one
      decoder that is never reset. */
  lemma {:induction false} MessagesRoundTrip(s: Scheme, dst: DecState, messages: seq<seq<Unit>>)
    requires WellFormed(s) && !dst.base64
    ensures DecodeAll(s, dst, Joined(EncodedEach(s, messages))) == Joined(messages)
    ensures !StateAfter(s, dst, Joined(EncodedEach(s, messages))).base64
    decreases messages
  {
    hide E.Encoded;
    if messages != [] {
      var first, rest := E.Encoded(s, messages[0]), Joined(EncodedEach(s, messages[1..]));
      RoundTrip(s, dst, messages[0]);
      MessagesRoundTrip(s, StateAfter(s, dst, first), messages[1..]);
      OutputSplit(Decoder(s), dst, first, rest);
      assert EncodedEach(s, messages)[1..] == EncodedEach(s, messages[1..]);
    }
  }

  /** Different units never have the same encoding. */
  lemma EncodedInjective(s: Scheme, us: seq<Unit>, vs: seq<Unit>)
    requires WellFormed(s) && E.Encoded(s, us) == E.Encoded(s, vs)
    ensures us == vs
  {
    var dst := DecState(false, 0, 0, false);
    RoundTrip(s, dst, us);
    RoundTrip(s, dst, vs);
  }
}
