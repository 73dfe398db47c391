/** nsBasicUTF7Decoder: the run-by-run decoder that fills a caller's buffer, proved to do what the
    byte-at-a-time machine does. */
module Utf7Decoder {
  import opened Buffers
  import opened Transducer
  import opened Utf7Scheme
  import opened Utf7Decoding

  const ENC_DIRECT := 0
  const ENC_BASE64 := 1

  /** A stretch that ends before the input does is reported as illegal input. */
  function Stopped(r: DecRun, stopped: bool): DecRun {
    if r.status == Ok && stopped then r.(status := IllegalInput) else r
  }

  lemma DirectNext(s: Scheme, st: DecState, bs: seq<Byte>, i: nat, k: nat, out: seq<Unit>, room: int)
    requires i < k <= |bs| && !st.base64 && bs[i] != s.escChar
    requires DecodeCall(s, st, bs[..i], room) == Run(st, i, out, Ok)
    ensures var r := DecodeCall(s, st, bs[..k], room);
            if |out| >= room then r == Run(st, i, out, MoreOutput)
            else DecodeCall(s, st, bs[..i + 1], room) == Run(st, i + 1, out + [Widen(s, bs[i])], Ok)
                 && |out| < |r.out|
  {
    hide Feed;
    FeedOneMore(Decoder(s), st, bs, i, room);
    FeedGrows(Decoder(s), st, bs, i + 1, k, room);
    assert Decoder(s).step(st, bs[i], room - |out|) == DecodeStep(s, st, bs[i], room - |out|);
    assert out + [] == out;
  }

  lemma Base64Next(s: Scheme, st: DecState, st': DecState, bs: seq<Byte>, i: nat, k: nat, out: seq<Unit>, room: int)
    requires i < k <= |bs| && st'.base64 && !st'.atStart && IsDigit(s, bs[i]) && bs[i] != DASH
    requires DecodeCall(s, st, bs[..i], room) == Run(st', i, out, Ok)
    ensures var r, v := DecodeCall(s, st, bs[..k], room), CharToValue(s, bs[i]);
            if Completes(st'.step) && |out| >= room then r == Run(st', i, out, MoreOutput)
            else DecodeCall(s, st, bs[..i + 1], room) == Run(DigitState(st', v), i + 1, out + DigitOut(st', v), Ok)
                 && |out + DigitOut(st', v)| <= |r.out|
  {
    hide Feed, CharToValue, Accumulated, Tail;
    FeedOneMore(Decoder(s), st, bs, i, room);
    FeedGrows(Decoder(s), st, bs, i + 1, k, room);
    assert Decoder(s).step(st', bs[i], room - |out|) == DecodeStep(s, st', bs[i], room - |out|);
    assert out + [] == out;
  }

  // ---- What the rest of a call amounts to, phase by phase ----

  /** The call is what has been done so far and then the call on the rest. */
  predicate Continues(s: Scheme, all: DecRun, st: DecState, rest: seq<Byte>, read: nat, out: seq<Unit>, room: int) {
    all == Then(Run(st, read, out, Ok), DecodeCall(s, st, rest, room - |out|))
  }

  lemma DirectPhase(s: Scheme, all: DecRun, st: DecState, rest: seq<Byte>, read: nat, out: seq<Unit>, room: int)
    requires WellFormed(s) && DecValid(st) && !st.base64 && Continues(s, all, st, rest, read, out, room)
    ensures var k := PlainLength(s, rest);
            var r := DecodeCall(s, st, rest[..k], room - |out|);
            && |out + r.out| <= |all.out| && r.status != IllegalInput
            && (r.status != Ok ==> all == Run(r.st, read + r.read, out + r.out, r.status))
            && (r.status == Ok ==>
                  && r.read == k
                  && Continues(s, all, r.st, rest[k..], read + k, out + r.out, room)
                  && (k < |rest| ==> Continues(s, all, Enter(r.st), rest[k + 1..], read + k + 1, out + r.out, room)))
  {
    hide Feed, PlainLength;
    var k := PlainLength(s, rest);
    Segment(s, all, st, rest, k, read, out, room);
    var r := DecodeCall(s, st, rest[..k], room - |out|);
    if r.status == Ok && k < |rest| {
      DirectStays(s, st, rest[..k], room - |out|);
      OneByte(s, all, r.st, rest[k..], read + k, out + r.out, room);
      assert rest[k..][1..] == rest[k + 1..];
      assert out + r.out + [] == out + r.out;
    }
  }

  lemma {:induction false} DirectStays(s: Scheme, st: DecState, bs: seq<Byte>, room: int)
    requires !st.base64 && forall i :: 0 <= i < |bs| ==> bs[i] != s.escChar
    ensures DecodeCall(s, st, bs, room).st == st
    decreases bs
  {
    if bs != [] {
      var r := DecodeStep(s, st, bs[0], room);
      if r.status == Ok {
        DirectStays(s, st, bs[1..], room - |r.out|);
      }
    }
  }

  lemma {:induction false} Base64Stays(s: Scheme, st: DecState, bs: seq<Byte>, room: int)
    requires WellFormed(s) && st.base64 && !st.atStart && forall i :: 0 <= i < |bs| ==> IsDigit(s, bs[i])
    ensures DecodeCall(s, st, bs, room).st.base64 && !DecodeCall(s, st, bs, room).st.atStart
    decreases bs
  {
    hide CharToValue, Accumulated, Tail;
    if bs != [] {
      var r := DecodeStep(s, st, bs[0], room);
      if r.status == Ok {
        Base64Stays(s, r.st, bs[1..], room - |r.out|);
      }
    }
  }

  /** Doing the first `k` bytes of the rest moves the point up to which the call is done. */
  lemma Segment(s: Scheme, all: DecRun, st: DecState, rest: seq<Byte>, k: nat, read: nat, out: seq<Unit>, room: int)
    requires WellFormed(s) && DecValid(st) && k <= |rest| && Continues(s, all, st, rest, read, out, room)
    ensures var r := DecodeCall(s, st, rest[..k], room - |out|);
            && |out + r.out| <= |all.out| && DecValid(r.st) && r.status != IllegalInput
            && (r.status != Ok ==> all == Run(r.st, read + r.read, out + r.out, r.status))
            && (r.status == Ok ==> r.read == k && Continues(s, all, r.st, rest[k..], read + k, out + r.out, room))
  {
    hide Feed, DecValid;
    var r := DecodeCall(s, st, rest[..k], room - |out|);
    assert rest == rest[..k] + rest[k..];
    FeedSplit(Decoder(s), st, rest[..k], rest[k..], room - |out|);
    DecoderLawful(s);
    FeedResumes(Decoder(s), st, rest[..k], room - |out|);
    if r.status == Ok {
      ThenAssociates(Run(st, read, out, Ok), r, DecodeCall(s, r.st, rest[k..], room - |out + r.out|));
    }
  }

  /** One more byte, when the machine takes it. */
  lemma OneByte(s: Scheme, all: DecRun, st: DecState, rest: seq<Byte>, read: nat, out: seq<Unit>, room: int)
    requires rest != [] && Continues(s, all, st, rest, read, out, room)
    requires DecodeStep(s, st, rest[0], room - |out|).status == Ok
    ensures var r := DecodeStep(s, st, rest[0], room - |out|);
            && Continues(s, all, r.st, rest[1..], read + r.read, out + r.out, room)
            && |out + r.out| <= |all.out|
  {
    var r := DecodeStep(s, st, rest[0], room - |out|);
    assert Decoder(s).step(st, rest[0], room - |out|) == r;
    ThenAssociates(Run(st, read, out, Ok), r, DecodeCall(s, r.st, rest[1..], room - |out + r.out|));
  }

  /** A byte that ends a run without being '-' is looked at again in direct mode, and the "fresh"
      flag matters to '-' only. */
  lemma SameCall(s: Scheme, all: DecRun, st: DecState, st': DecState, rest: seq<Byte>, read: nat, out: seq<Unit>, room: int)
    requires rest != [] && Continues(s, all, st, rest, read, out, room)
    requires DecodeStep(s, st, rest[0], room - |out|) == DecodeStep(s, st', rest[0], room - |out|)
    ensures Continues(s, all, st', rest, read, out, room)
  {
    var m, room' := Decoder(s), room - |out|;
    assert m.step(st, rest[0], room') == DecodeStep(s, st, rest[0], room');
    assert m.step(st', rest[0], room') == DecodeStep(s, st', rest[0], room');
  }

  lemma Base64Phase(s: Scheme, all: DecRun, st: DecState, rest: seq<Byte>, read: nat, out: seq<Unit>, room: int)
    requires WellFormed(s) && DecValid(st) && st.base64 && !st.atStart && Continues(s, all, st, rest, read, out, room)
    ensures var k := DigitLength(s, rest);
            var r := DecodeCall(s, st, rest[..k], room - |out|);
            && |out + r.out| <= |all.out| && r.status != IllegalInput
            && (r.status != Ok ==> all == Run(r.st, read + r.read, out + r.out, r.status))
            && (r.status == Ok ==>
                  && r.read == k
                  && Continues(s, all, r.st, rest[k..], read + k, out + r.out, room)
                  && (k < |rest| && rest[k] == DASH ==>
                        Continues(s, all, Leave(r.st), rest[k + 1..], read + k + 1, out + r.out, room))
                  && (k < |rest| && rest[k] != DASH ==>
                        Continues(s, all, Leave(r.st), rest[k..], read + k, out + r.out, room)))
  {
    hide Feed, DigitLength, DecodeCall, Continues, DecValid;
    var k := DigitLength(s, rest);
    Segment(s, all, st, rest, k, read, out, room);
    var r := DecodeCall(s, st, rest[..k], room - |out|);
    if r.status == Ok && k < |rest| {
      Base64Stays(s, st, rest[..k], room - |out|);
      if rest[k] == DASH {
        OneByte(s, all, r.st, rest[k..], read + k, out + r.out, room);
        assert rest[k..][1..] == rest[k + 1..];
        assert out + r.out + [] == out + r.out;
      } else {
        SameCall(s, all, r.st, Leave(r.st), rest[k..], read + k, out + r.out, room);
      }
    }
  }

  lemma Tails<T>(xs: seq<T>, i: nat, j: nat)
    requires i <= |xs|
    ensures i + j <= |xs| ==> xs[i..][j..] == xs[i + j..]
    ensures i + j < |xs| ==> xs[i..][j] == xs[i + j] && xs[i..][j + 1..] == xs[i + j + 1..]
    ensures i + j == |xs| ==> xs[i + j..] == []
  {
  }

  lemma Begins(s: Scheme, all: DecRun, st: DecState, bs: seq<Byte>, room: int)
    requires all == DecodeCall(s, st, bs, room)
    ensures Continues(s, all, st, bs[0..], 0, [], room)
  {
    assert bs[0..] == bs && [] + all.out == all.out;
  }

  lemma Ends(s: Scheme, all: DecRun, st: DecState, bs: seq<Byte>, read: nat, out: seq<Unit>, room: int)
    requires read == |bs| && Continues(s, all, st, bs[read..], read, out, room)
    ensures all == Run(st, read, out, Ok)
  {
    assert out + [] == out;
  }

  /** "&-": the escape itself, written whatever the room. */
  lemma FreshDash(s: Scheme, all: DecRun, st: DecState, rest: seq<Byte>, read: nat, out: seq<Unit>, room: int)
    requires rest != [] && st.base64 && st.atStart && rest[0] == DASH && DecValid(st)
    requires Continues(s, all, st, rest, read, out, room)
    ensures Continues(s, all, Leave(st), rest[1..], read + 1, out + [Widen(s, s.escChar)], room)
    ensures |out| < |all.out| && DecValid(Leave(st))
  {
    OneByte(s, all, st, rest, read, out, room);
  }

  lemma NotFresh(s: Scheme, all: DecRun, st: DecState, rest: seq<Byte>, read: nat, out: seq<Unit>, room: int)
    requires rest != [] && st.base64 && !(st.atStart && rest[0] == DASH) && DecValid(st)
    requires Continues(s, all, st, rest, read, out, room)
    ensures Continues(s, all, st.(atStart := false), rest, read, out, room) && DecValid(st.(atStart := false))
  {
    hide Feed, Weight;
    SameCall(s, all, st, st.(atStart := false), rest, read, out, room);
  }

  // ---- One round of the conversion loop ----

  /** The first half of a round: decode in the current mode as far as it goes. */
  function InMode(s: Scheme, st: DecState, rest: seq<Byte>, room: int): DecRun {
    if !st.base64 then
      var k := PlainLength(s, rest);
      Stopped(DecodeCall(s, st, rest[..k], room), k < |rest|)
    else if st.atStart && rest != [] && rest[0] == DASH then
      Run(st, 0, [Widen(s, s.escChar)], IllegalInput)
    else
      var k := DigitLength(s, rest);
      Stopped(DecodeCall(s, st.(atStart := false), rest[..k], room), k < |rest|)
  }

  /** What the second half of the round has to do with the result of the first. In direct mode
      decoding stops at an escape only. */
  lemma RoundContinues(s: Scheme, all: DecRun, st: DecState, rest: seq<Byte>, read: nat, out: seq<Unit>, room: int)
    requires WellFormed(s) && DecValid(st) && rest != [] && Continues(s, all, st, rest, read, out, room)
    ensures var r := InMode(s, st, rest, room - |out|);
            var out' := out + r.out;
            && |out'| <= |all.out| && DecValid(r.st) && r.st.base64 == st.base64
            && (r.status == Ok ==> r.read == |rest| && Continues(s, all, r.st, [], read + r.read, out', room))
            && (r.status == MoreOutput ==> all == Run(r.st, read + r.read, out', MoreOutput))
            && (r.status == IllegalInput ==>
                  && r.read < |rest|
                  && if !r.st.base64 then
                       rest[r.read] == s.escChar && Continues(s, all, Enter(r.st), rest[r.read + 1..], read + r.read + 1, out', room)
                     else if rest[r.read] == DASH then
                       Continues(s, all, Leave(r.st), rest[r.read + 1..], read + r.read + 1, out', room)
                     else Continues(s, all, Leave(r.st), rest[r.read..], read + r.read, out', room))
  {
    hide Feed, DecodeCall, Continues, DecValid, Widen;
    if !st.base64 {
      var k := PlainLength(s, rest);
      DirectPhase(s, all, st, rest, read, out, room);
      Segment(s, all, st, rest, k, read, out, room);
      DirectStays(s, st, rest[..k], room - |out|);
      assert k == |rest| ==> rest[k..] == [];
    } else if st.atStart && rest[0] == DASH {
      FreshDash(s, all, st, rest, read, out, room);
      assert rest[0 + 1..] == rest[1..];
    } else {
      var k := DigitLength(s, rest);
      NotFresh(s, all, st, rest, read, out, room);
      Base64Phase(s, all, st.(atStart := false), rest, read, out, room);
      Segment(s, all, st.(atStart := false), rest, k, read, out, room);
      Base64Stays(s, st.(atStart := false), rest[..k], room - |out|);
      assert k == |rest| ==> rest[k..] == [];
    }
  }

  class BasicUTF7Decoder {
    const scheme: Scheme
    var mEncoding: int
    var mEncBits: nat
    var mEncStep: nat
    var mFreshBase64: bool

    ghost predicate Valid()
      reads this
    {
      && (mEncoding == ENC_DIRECT || mEncoding == ENC_BASE64)
      && DecValid(State()) && WellFormed(scheme)
    }

    function State(): DecState
      reads this
    {
      DecState(mEncoding == ENC_BASE64, mEncBits, mEncStep, mFreshBase64)
    }

    /** The original leaves mFreshBase64 as the memory has it. */
    constructor (scheme: Scheme, leftover: bool)
      requires WellFormed(scheme)
      ensures this.scheme == scheme && Valid() && State() == DecState(false, 0, 0, leftover)
    {
      this.scheme := scheme;
      mEncoding, mEncBits, mEncStep, mFreshBase64 := ENC_DIRECT, 0, 0, leftover;
    }

    method Reset()
      requires Valid()
      modifies this
      ensures Valid() && State() == DecState(false, 0, 0, old(mFreshBase64))
    {
      mEncoding := ENC_DIRECT;
      mEncBits := 0;
      mEncStep := 0;
    }

    method DecodeDirect(src: seq<Byte>, dest: array<Unit>, at: nat, room: int)
      returns (status: Status, read: nat, written: nat)
      requires Valid() && mEncoding == ENC_DIRECT
      requires at + |DecodeCall(scheme, State(), src[..PlainLength(scheme, src)], room).out| <= dest.Length
      modifies dest
      ensures var k := PlainLength(scheme, src);
              var r := DecodeCall(scheme, State(), src[..k], room);
              && Stopped(r, k < |src|) == Run(State(), read, r.out, status) && written == |r.out|
              && Wrote(old(dest[..]), dest[..], at, r.out)
    {
      hide Wrote, Feed, DecodeCall, Decoder, DecValid;
      status, read, written := Ok, 0, 0;
      ghost var k, st := PlainLength(scheme, src), State();
      ghost var before, out: seq<Unit> := dest[..], [];
      WroteNothing(before, at);
      CallOfNothing(scheme, st, room);
      assert src[..0] == [];
      while read < |src|
        invariant read <= k && written == |out| && at + |out| <= dest.Length
        invariant DecodeCall(scheme, st, src[..read], room) == Run(st, read, out, Ok)
        invariant Wrote(before, dest[..], at, out)
        invariant status == Ok
        decreases |src| - read
      {
        var ch := src[read];
        if ch == scheme.escChar {
          status := IllegalInput;
          break;
        }
        DirectNext(scheme, st, src, read, k, out, room);
        if written >= room {
          status := MoreOutput;
          break;
        } else {
          ghost var mid := dest[..];
          Write(dest, at + written, [Widen(scheme, ch)]);
          WroteMore(before, mid, dest[..], at, out, [Widen(scheme, ch)]);
          out := out + [Widen(scheme, ch)];
          written := written + 1;
          read := read + 1;
        }
      }
    }

    /** The switch over the eight phases: the digit goes into the accumulator, and a completed unit
        comes out of it. */
    method TakeDigit(value: nat, room: int) returns (status: Status, unit: seq<Unit>)
      requires Valid() && mEncoding == ENC_BASE64 && !mFreshBase64 && value < 64
      modifies this`mEncBits
      ensures if Completes(mEncStep) && room <= 0 then
                status == MoreOutput && mEncBits == old(mEncBits)
              else
                && status == Ok && unit == DigitOut(old(State()), value)
                && DigitState(old(State()), value) == DecState(true, mEncBits, (mEncStep + 1) % 8, false)
    {
      hide Weight;
      status, unit := Ok, [];
      DigitMerges(State(), value);
      match mEncStep {
        case 0 => mEncBits := value * 1024;
        case 1 => mEncBits := mEncBits + value * 16;
        case 2 =>
          if 0 >= room {
            return MoreOutput, [];
          }
          unit := [(mEncBits + value / 4) % 0x1_0000];
          mEncBits := value % 4 * 16384;
        case 3 => mEncBits := mEncBits + value * 256;
        case 4 => mEncBits := mEncBits + value * 4;
        case 5 =>
          if 0 >= room {
            return MoreOutput, [];
          }
          unit := [(mEncBits + value / 16) % 0x1_0000];
          mEncBits := value % 16 * 4096;
        case 6 => mEncBits := mEncBits + value * 64;
        case _ =>
          if 0 >= room {
            return MoreOutput, [];
          }
          unit := [(mEncBits + value) % 0x1_0000];
          mEncBits := 0;
      }
    }

    method DecodeBase64(src: seq<Byte>, dest: array<Unit>, at: nat, room: int)
      returns (status: Status, read: nat, written: nat)
      requires Valid() && mEncoding == ENC_BASE64 && !mFreshBase64
      requires at + |DecodeCall(scheme, State(), src[..DigitLength(scheme, src)], room).out| <= dest.Length
      modifies this`mEncBits, this`mEncStep, dest
      ensures Valid()
      ensures var k := DigitLength(scheme, src);
              var r := DecodeCall(scheme, old(State()), src[..k], room);
              && Stopped(r, k < |src|) == Run(State(), read, r.out, status) && written == |r.out|
              && Wrote(old(dest[..]), dest[..], at, r.out)
    {
      hide Wrote, Feed, DecodeCall, Decoder, CharToValue, Weight, WellFormed, DecValid, DigitLength, Completes, DigitState, DigitOut, Accumulated, Head, Tail;
      status, read, written := Ok, 0, 0;
      ghost var k, st, cur := DigitLength(scheme, src), State(), State();
      ghost var before, out: seq<Unit> := dest[..], [];
      WroteNothing(before, at);
      CallOfNothing(scheme, st, room);
      assert src[..0] == [];
      while read < |src|
        invariant State() == cur && DecValid(cur) && cur.base64 && !cur.atStart
        invariant read <= k && written == |out| && at + |out| <= dest.Length
        invariant DecodeCall(scheme, st, src[..read], room) == Run(cur, read, out, Ok)
        invariant Wrote(before, dest[..], at, out)
        invariant status == Ok
        decreases |src| - read
      {
        var value := CharToValue(scheme, src[read]);
        if value > 0xff {
          status := IllegalInput;
          break;
        }
        ValueOfChar(scheme, src[read]);
        DigitMerges(cur, value);
        Base64Next(scheme, st, cur, src, read, k, out, room);
        var unit;
        status, unit := TakeDigit(value, room - written);
        if status != Ok {
          break;
        }
        ghost var mid := dest[..];
        Write(dest, at + written, unit);
        WroteMore(before, mid, dest[..], at, out, unit);
        written := written + |unit|;
        read := read + 1;
        mEncStep := (mEncStep + 1) % 8;
        out, cur := out + unit, DigitState(cur, value);
      }
    }

    /** The first half of a round of the conversion loop. */
    method DecodeInMode(src: seq<Byte>, dest: array<Unit>, at: nat, room: int)
      returns (status: Status, read: nat, written: nat)
      requires Valid() && src != []
      requires at + |InMode(scheme, State(), src, room).out| <= dest.Length
      modifies this, dest
      ensures Valid()
      ensures var r := InMode(scheme, old(State()), src, room);
              && r == Run(State(), read, r.out, status) && written == |r.out|
              && Wrote(old(dest[..]), dest[..], at, r.out)
    {
      hide Wrote, Feed, DecodeCall, Decoder, WellFormed, CharToValue, Widen, Weight;
      if mEncoding == ENC_DIRECT {
        status, read, written := DecodeDirect(src, dest, at, room);
      } else if mFreshBase64 && src[0] == DASH {
        Write(dest, at, [Widen(scheme, scheme.escChar)]);
        status, read, written := IllegalInput, 0, 1;
      } else {
        mFreshBase64 := false;
        status, read, written := DecodeBase64(src, dest, at, room);
      }
    }

    method ConvertNoBuff(src: seq<Byte>, dest: array<Unit>, at: nat, room: int)
      returns (status: Status, read: nat, written: nat)
      requires Valid()
      requires at + |DecodeCall(scheme, State(), src, room).out| <= dest.Length
      modifies this, dest
      ensures Valid()
      ensures var r := DecodeCall(scheme, old(State()), src, room);
              && r == Run(State(), read, r.out, status) && written == |r.out|
              && Wrote(old(dest[..]), dest[..], at, r.out)
    {
      hide Wrote, DecodeCall, WellFormed, Continues, InMode, Weight;
      status, read, written := Ok, 0, 0;
      ghost var all, cur := DecodeCall(scheme, State(), src, room), State();
      ghost var before, out: seq<Unit> := dest[..], [];
      WroteNothing(before, at);
      Begins(scheme, all, cur, src, room);
      while read < |src|
        invariant Valid() && State() == cur && read <= |src|
        invariant written == |out| && at + |all.out| <= dest.Length && |out| <= |all.out|
        invariant Continues(scheme, all, cur, src[read..], read, out, room)
        invariant Wrote(before, dest[..], at, out)
        invariant status == Ok
        // a round may take nothing, but then it has left base64
        decreases 2 * (|src| - read) + if cur.base64 then 1 else 0
      {
        ghost var r, mid := InMode(scheme, cur, src[read..], room - |out|), dest[..];
        RoundContinues(scheme, all, cur, src[read..], read, out, room);
        Tails(src, read, r.read);
        var took: nat, wrote: nat;
        status, took, wrote := DecodeInMode(src[read..], dest, at + written, room - written);
        WroteMore(before, mid, dest[..], at, out, r.out);
        read := read + took;
        written := written + wrote;
        out := out + r.out;

        if status == IllegalInput {
          if mEncoding == ENC_DIRECT {
            if src[read] == scheme.escChar {
              mEncoding := ENC_BASE64;
              mFreshBase64 := true;
              mEncBits := 0;
              mEncStep := 0;
              read := read + 1;
              status := Ok;
            } else {
              assert false;
            }
          } else {
            mEncoding := ENC_DIRECT;
            status := Ok;
            if src[read] == DASH {
              read := read + 1;
            }
          }
        } else if status != Ok {
          return;
        }
        cur := State();
      }
      Ends(scheme, all, cur, src, read, out, room);
    }
  }
}
