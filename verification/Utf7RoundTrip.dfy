/** Encoder and decoder run in lockstep, hence decoding undoes encoding. */
module Utf7RoundTrip {
  import opened Transducer
  import opened Utf7Scheme
  import E = Utf7Encoding
  import D = Utf7Decoding
  import L = Utf7EncoderLaws

  /** The simulation. `pending` is the last unit while the encoder still holds some of its bits:
      encoder phases 0, 1, 2 meet decoder phases 0, 2, 5, and the two accumulators split the
      pending unit between them. */
  predicate Aligned(est: E.EncState, dst: D.DecState, pending: seq<Unit>) {
    && est.base64 == dst.base64
    && if !est.base64 || est.step == 0 then
         pending == [] && est.step == 0 && (est.base64 ==> dst.step == 0 && dst.bits == 0)
       else if est.step == 1 then
         |pending| == 1 && dst.step == 2 && dst.bits == pending[0] - pending[0] % 16 && est.bits == pending[0] % 16 * 4
       else
         est.step == 2 && |pending| == 1 && dst.step == 5 && dst.bits == pending[0] - pending[0] % 4 && est.bits == pending[0] % 4 * 16
  }

  predicate Lockstep(est: E.EncState, dst: D.DecState, pending: seq<Unit>) {
    Aligned(est, dst, pending) && (est.base64 ==> !dst.atStart)
  }

  /** What the encoder holds back after a unit. */
  function Held(est: E.EncState, u: Unit): seq<Unit> {
    if est.step == 0 then [] else [u]
  }

  // ---- The decoder on the pieces the encoder writes ----

  /** `bs` takes the decoder from `st` to `st'` and yields `us`. */
  predicate Decodes(s: Scheme, st: D.DecState, bs: seq<Byte>, us: seq<Unit>, st': D.DecState) {
    D.DecodeAll(s, st, bs) == us && D.StateAfter(s, st, bs) == st'
  }

  lemma DecodesNothing(s: Scheme, st: D.DecState)
    ensures Decodes(s, st, [], [], st)
  {
  }

  lemma DecodesOne(s: Scheme, st: D.DecState, b: Byte)
    ensures Decodes(s, st, [b], D.DecodeByte(s, st, b), D.NextState(s, st, b))
  {
    var m := D.Decoder(s);
    assert m.emit(st, b) == D.DecodeByte(s, st, b) && m.next(st, b) == D.NextState(s, st, b);
    assert Output(m, m.next(st, b), []) == [] && After(m, m.next(st, b), []) == m.next(st, b);
    assert [b][1..] == [] && D.DecodeByte(s, st, b) + [] == D.DecodeByte(s, st, b);
  }

  lemma DecodesMore(s: Scheme, a: D.DecState, bs: seq<Byte>, us: seq<Unit>, b: D.DecState,
                    cs: seq<Byte>, vs: seq<Unit>, c: D.DecState)
    requires Decodes(s, a, bs, us, b) && Decodes(s, b, cs, vs, c)
    ensures Decodes(s, a, bs + cs, us + vs, c)
  {
    OutputSplit(D.Decoder(s), a, bs, cs);
  }

  lemma DecodesDigit(s: Scheme, st: D.DecState, v: nat)
    requires WellFormed(s) && st.base64 && v < 64
    ensures Decodes(s, st, [ValueToChar(s, v)], D.DigitOut(st, v), D.DigitState(st, v))
  {
    hide ValueToChar, CharToValue;
    CharOfValue(s, v);
    DecodesOne(s, st, ValueToChar(s, v));
  }

  lemma DecodesDigits(s: Scheme, st: D.DecState, v0: nat, v1: nat)
    requires WellFormed(s) && st.base64 && v0 < 64 && v1 < 64
    ensures var st1 := D.DigitState(st, v0);
            Decodes(s, st, [ValueToChar(s, v0), ValueToChar(s, v1)],
                    D.DigitOut(st, v0) + D.DigitOut(st1, v1), D.DigitState(st1, v1))
  {
    hide Decodes, ValueToChar;
    var st1 := D.DigitState(st, v0);
    DecodesDigit(s, st, v0);
    DecodesDigit(s, st1, v1);
    DecodesMore(s, st, [ValueToChar(s, v0)], D.DigitOut(st, v0), st1, [ValueToChar(s, v1)], D.DigitOut(st1, v1), D.DigitState(st1, v1));
    assert [ValueToChar(s, v0)] + [ValueToChar(s, v1)] == [ValueToChar(s, v0), ValueToChar(s, v1)];
  }

  lemma DecodesThreeDigits(s: Scheme, st: D.DecState, v0: nat, v1: nat, v2: nat)
    requires WellFormed(s) && st.base64 && v0 < 64 && v1 < 64 && v2 < 64
    ensures var st1 := D.DigitState(st, v0);
            var st2 := D.DigitState(st1, v1);
            Decodes(s, st, [ValueToChar(s, v0), ValueToChar(s, v1), ValueToChar(s, v2)],
                    D.DigitOut(st, v0) + D.DigitOut(st1, v1) + D.DigitOut(st2, v2), D.DigitState(st2, v2))
  {
    hide Decodes, ValueToChar;
    var st1 := D.DigitState(st, v0);
    var st2 := D.DigitState(st1, v1);
    DecodesDigits(s, st, v0, v1);
    DecodesDigit(s, st2, v2);
    var c0, c1, c2 := ValueToChar(s, v0), ValueToChar(s, v1), ValueToChar(s, v2);
    DecodesMore(s, st, [c0, c1], D.DigitOut(st, v0) + D.DigitOut(st1, v1), st2, [c2], D.DigitOut(st2, v2), D.DigitState(st2, v2));
    assert [c0, c1] + [c2] == [c0, c1, c2];
  }

  // ---- One unit ----

  /** The 16 bits of a unit fall to the digits phase by phase. */
  lemma UnitSplits(u: Unit)
    ensures u / 1024 * 1024 + u / 16 % 64 * 16 == u - u % 16
    ensures u / 16384 * 16384 + u / 256 % 64 * 256 + u / 4 % 64 * 4 == u - u % 4
    ensures u / 4096 * 4096 + u / 64 % 64 * 64 + u % 64 == u
  {
    assert u / 16 / 64 == u / 1024;
    assert u / 4 / 64 == u / 256 && u / 256 / 64 == u / 16384;
    assert u / 64 / 64 == u / 4096;
  }

  /** A digit of held bits on top and new bits below comes apart again. */
  lemma HeldWithNext(held: nat, next: nat, w: nat)
    requires (w == 4 && held < 16 && next < 4) || (w == 16 && held < 4 && next < 16)
    ensures (held * w + next) / w == held && (held * w + next) % w == next && held * w + next < 64
  {
  }

  lemma UnitDecodes0(s: Scheme, est: E.EncState, dst: D.DecState, u: Unit)
    requires WellFormed(s) && !Direct(s, u) && est.step == 0 && dst.base64 && dst.step == 0
    ensures Decodes(s, dst, E.UnitBytes(s, est, u), [], D.DecState(true, u - u % 16, 2, false))
  {
    hide ValueToChar, Decodes;
    DecodesDigits(s, dst, u / 1024, u / 16 % 64);
    UnitSplits(u);
    var st1 := D.DigitState(dst, u / 1024);
    assert D.DigitOut(dst, u / 1024) + D.DigitOut(st1, u / 16 % 64) == [];
    assert D.DigitState(st1, u / 16 % 64) == D.DecState(true, u - u % 16, 2, false);
  }

  /** The digit that completes the pending unit and starts the next. */
  lemma Completing2(dst: D.DecState, p: Unit, top: nat)
    requires dst.base64 && dst.step == 2 && dst.bits == p - p % 16 && top < 4
    ensures D.DigitOut(dst, p % 16 * 4 + top) == [p]
    ensures D.DigitState(dst, p % 16 * 4 + top) == D.DecState(true, top * 16384, 3, false)
  {
    HeldWithNext(p % 16, top, 4);
  }

  lemma Completing5(dst: D.DecState, p: Unit, top: nat)
    requires dst.base64 && dst.step == 5 && dst.bits == p - p % 4 && top < 16
    ensures D.DigitOut(dst, p % 4 * 16 + top) == [p]
    ensures D.DigitState(dst, p % 4 * 16 + top) == D.DecState(true, top * 4096, 6, false)
  {
    HeldWithNext(p % 4, top, 16);
  }

  /** The two digits after it. */
  lemma Following(bits: nat, w: nat, x: nat)
    ensures var st := D.DigitState(D.DecState(true, bits, 3, false), w);
            && D.DigitOut(D.DecState(true, bits, 3, false), w) == [] && D.DigitOut(st, x) == []
            && D.DigitState(st, x) == D.DecState(true, bits + w * 256 + x * 4, 5, false)
    ensures var st := D.DigitState(D.DecState(true, bits, 6, false), w);
            && D.DigitOut(D.DecState(true, bits, 6, false), w) == []
            && D.DigitOut(st, x) == [(bits + w * 64 + x) % 0x1_0000]
            && D.DigitState(st, x) == D.DecState(true, 0, 0, false)
  {
  }

  /** The three digits of a unit at phases 2 and 5. */
  lemma Phase2(dst: D.DecState, p: Unit, u: Unit)
    requires dst.base64 && dst.step == 2 && dst.bits == p - p % 16
    ensures var v, w, x := p % 16 * 4 + u / 16384, u / 256 % 64, u / 4 % 64;
            var st1 := D.DigitState(dst, v);
            var st2 := D.DigitState(st1, w);
            && v < 64 && D.DigitOut(dst, v) == [p] && D.DigitOut(st1, w) == [] && D.DigitOut(st2, x) == []
            && D.DigitState(st2, x) == D.DecState(true, u - u % 4, 5, false)
  {
    hide D.DigitOut, D.DigitState;
    Completing2(dst, p, u / 16384);
    Following(u / 16384 * 16384, u / 256 % 64, u / 4 % 64);
    UnitSplits(u);
  }

  lemma Phase5(dst: D.DecState, p: Unit, u: Unit)
    requires dst.base64 && dst.step == 5 && dst.bits == p - p % 4
    ensures var v, w, x := p % 4 * 16 + u / 4096, u / 64 % 64, u % 64;
            var st1 := D.DigitState(dst, v);
            var st2 := D.DigitState(st1, w);
            && v < 64 && D.DigitOut(dst, v) == [p] && D.DigitOut(st1, w) == [] && D.DigitOut(st2, x) == [u]
            && D.DigitState(st2, x) == D.DecState(true, 0, 0, false)
  {
    hide D.DigitOut, D.DigitState;
    Completing5(dst, p, u / 4096);
    Following(u / 4096 * 4096, u / 64 % 64, u % 64);
    UnitSplits(u);
  }

  lemma UnitDecodes1(s: Scheme, est: E.EncState, dst: D.DecState, p: Unit, u: Unit)
    requires WellFormed(s) && !Direct(s, u) && est.step == 1 && dst.base64 && dst.step == 2
    requires dst.bits == p - p % 16 && est.bits == p % 16 * 4
    ensures Decodes(s, dst, E.UnitBytes(s, est, u), [p], D.DecState(true, u - u % 4, 5, false))
  {
    hide ValueToChar, Decodes, D.DigitState, D.DigitOut;
    Phase2(dst, p, u);
    DecodesThreeDigits(s, dst, est.bits + u / 16384, u / 256 % 64, u / 4 % 64);
    assert [p] + [] + [] == [p];
  }

  lemma UnitDecodes2(s: Scheme, est: E.EncState, dst: D.DecState, p: Unit, u: Unit)
    requires WellFormed(s) && !Direct(s, u) && est.step == 2 && dst.base64 && dst.step == 5
    requires dst.bits == p - p % 4 && est.bits == p % 4 * 16
    ensures Decodes(s, dst, E.UnitBytes(s, est, u), [p, u], D.DecState(true, 0, 0, false))
  {
    hide ValueToChar, Decodes, D.DigitState, D.DigitOut;
    Phase5(dst, p, u);
    DecodesThreeDigits(s, dst, est.bits + u / 4096, u / 64 % 64, u % 64);
    assert [p] + [] + [u] == [p, u];
  }

  /** A unit written in base64 lets the decoder complete the one that was pending. */
  lemma UnitDecodes(s: Scheme, est: E.EncState, dst: D.DecState, pending: seq<Unit>, u: Unit)
    requires WellFormed(s) && est.base64 && !Direct(s, u) && Aligned(est, dst, pending)
    ensures var est' := E.UnitState(s, est, u);
            exists d, dst' :: Decodes(s, dst, E.UnitBytes(s, est, u), d, dst')
                              && Lockstep(est', dst', Held(est', u)) && d + Held(est', u) == pending + [u]
  {
    hide ValueToChar, Decodes, E.UnitBytes;
    match est.step
    case 0 => UnitDecodes0(s, est, dst, u);
    case 1 => UnitDecodes1(s, est, dst, pending[0], u);
    case _ => UnitDecodes2(s, est, dst, pending[0], u);
  }

  /** Closing the run flushes the pending unit. */
  lemma CloseDecodes(s: Scheme, est: E.EncState, dst: D.DecState, pending: seq<Unit>)
    requires WellFormed(s) && Lockstep(est, dst, pending)
    ensures exists dst' :: Decodes(s, dst, E.CloseBytes(s, est), pending, dst') && !dst'.base64
  {
    hide ValueToChar, Decodes;
    if !est.base64 {
      DecodesNothing(s, dst);
    } else if est.step == 0 {
      DecodesOne(s, dst, DASH);
    } else {
      var st := D.DigitState(dst, est.bits);
      DecodesDigit(s, dst, est.bits);
      DecodesOne(s, st, DASH);
      DecodesMore(s, dst, [ValueToChar(s, est.bits)], D.DigitOut(dst, est.bits), st, [DASH], [], D.Leave(st));
      assert [ValueToChar(s, est.bits)] + [DASH] == E.CloseBytes(s, est);
      assert D.DigitOut(dst, est.bits) + [] == pending;
    }
  }

  lemma DirectDecodes(s: Scheme, est: E.EncState, dst: D.DecState, u: Unit)
    requires WellFormed(s) && !dst.base64 && Direct(s, u)
    ensures exists dst' :: Decodes(s, dst, E.UnitBytes(s, est, u), [u], dst') && !dst'.base64
  {
    hide Decodes;
    DecodesOne(s, dst, u);
    if u == s.escChar {
      DecodesOne(s, D.Enter(dst), DASH);
      DecodesMore(s, dst, [s.escChar], [], D.Enter(dst), [DASH], [u], D.Leave(D.Enter(dst)));
      assert [s.escChar] + [DASH] == [s.escChar, DASH] && [] + [u] == [u];
    }
  }

  /** One unit, whatever the modes. */
  lemma StepDecodes(s: Scheme, est: E.EncState, dst: D.DecState, pending: seq<Unit>, u: Unit)
    requires WellFormed(s) && Lockstep(est, dst, pending)
    ensures var est' := E.NextState(s, est, u);
            exists d, dst' :: Decodes(s, dst, E.EncodeUnit(s, est, u), d, dst')
                              && Lockstep(est', dst', Held(est', u)) && d + Held(est', u) == pending + [u]
  {
    hide Decodes, E.UnitBytes, ValueToChar;
    var est', open, bytes := E.Opened(s, est, u), E.OpenBytes(s, est, u), E.UnitBytes(s, E.Opened(s, est, u), u);
    if Direct(s, u) {
      CloseDecodes(s, est, dst, pending);
      var dst' :| Decodes(s, dst, E.CloseBytes(s, est), pending, dst') && !dst'.base64;
      DirectDecodes(s, est', dst', u);
      var dst'' :| Decodes(s, dst', bytes, [u], dst'') && !dst''.base64;
      DecodesMore(s, dst, open, pending, dst', bytes, [u], dst'');
      var end := E.NextState(s, est, u);
      assert Decodes(s, dst, E.EncodeUnit(s, est, u), pending + [u], dst'');
      assert Held(end, u) == [] && Lockstep(end, dst'', []);
      assert pending + [u] + [] == pending + [u];
    } else {
      var dst' := if est.base64 then dst else D.Enter(dst);
      DecodesNothing(s, dst);
      DecodesOne(s, dst, s.escChar);
      assert Decodes(s, dst, open, [], dst');
      UnitDecodes(s, est', dst', pending, u);
      var end := E.UnitState(s, est', u);
      var d, dst'' :| Decodes(s, dst', bytes, d, dst'') && Lockstep(end, dst'', Held(end, u)) && d + Held(end, u) == pending + [u];
      DecodesMore(s, dst, open, [], dst', bytes, d, dst'');
      assert [] + d == d;
      assert Decodes(s, dst, E.EncodeUnit(s, est, u), d, dst'') && end == E.NextState(s, est, u);
    }
  }

  // ---- Runs ----

  /** After any units the two machines are in lockstep, and the decoder has yielded every unit
      except the one the encoder still holds. */
  lemma {:induction false} RunDecodes(s: Scheme, est: E.EncState, dst: D.DecState, pending: seq<Unit>, us: seq<Unit>)
    requires WellFormed(s) && Lockstep(est, dst, pending)
    ensures var est' := E.StateAfter(s, est, us);
            exists d, dst', p :: Decodes(s, dst, E.EncodeAll(s, est, us), d, dst')
                                 && Lockstep(est', dst', p) && d + p == pending + us
    decreases us
  {
    hide Decodes, E.EncodeUnit, E.NextState, Lockstep;
    var est' := E.StateAfter(s, est, us);
    if us == [] {
      DecodesNothing(s, dst);
      assert Decodes(s, dst, E.EncodeAll(s, est, us), [], dst) && Lockstep(est', dst, pending);
      assert [] + pending == pending + us;
    } else {
      L.EncodeFirst(s, est, us);
      StepDecodes(s, est, dst, pending, us[0]);
      var est1 := E.NextState(s, est, us[0]);
      var held := Held(est1, us[0]);
      var d, dst1 :| Decodes(s, dst, E.EncodeUnit(s, est, us[0]), d, dst1) && Lockstep(est1, dst1, held) && d + held == pending + [us[0]];
      RunDecodes(s, est1, dst1, held, us[1..]);
      var d', dst', p :| Decodes(s, dst1, E.EncodeAll(s, est1, us[1..]), d', dst')
                         && Lockstep(E.StateAfter(s, est1, us[1..]), dst', p) && d' + p == held + us[1..];
      DecodesMore(s, dst, E.EncodeUnit(s, est, us[0]), d, dst1, E.EncodeAll(s, est1, us[1..]), d', dst');
      calc {
        (d + d') + p;
        d + (d' + p);
        d + (held + us[1..]);
        (d + held) + us[1..];
        (pending + [us[0]]) + us[1..];
        { assert [us[0]] + us[1..] == us; }
        pending + us;
      }
      assert Decodes(s, dst, E.EncodeAll(s, est, us), d + d', dst') && Lockstep(est', dst', p);
    }
  }

  /** Lockstep, said outright: after any encoded prefix from reset the modes agree, phases 0, 1, 2 of
      the encoder are phases 0, 2, 5 of the decoder, and when the phase is not 0 exactly the last
      unit is missing, the decoder holding its top 12 or 14 bits and the encoder its low 4 or 2. */
  lemma LockstepAfterPrefix(s: Scheme, dst: D.DecState, us: seq<Unit>)
    requires WellFormed(s) && !dst.base64
    ensures var est, bs := E.StateAfter(s, E.ENC_RESET, us), E.EncodeAll(s, E.ENC_RESET, us);
            var d, dst' := D.DecodeAll(s, dst, bs), D.StateAfter(s, dst, bs);
            && est.base64 == dst'.base64
            && (est.step == 0 ==> d == us && (est.base64 ==> dst'.step == 0 && dst'.bits == 0))
            && (est.step != 0 ==>
                  && us != [] && d == us[..|us| - 1] && est.base64
                  && var u := us[|us| - 1];
                     (est.step == 1 && dst'.step == 2 && dst'.bits == u - u % 16 && est.bits == u % 16 * 4)
                     || (est.step == 2 && dst'.step == 5 && dst'.bits == u - u % 4 && est.bits == u % 4 * 16))
  {
    hide E.EncodeAll, E.StateAfter, D.DecodeAll, D.StateAfter, WellFormed;
    var est, bs := E.StateAfter(s, E.ENC_RESET, us), E.EncodeAll(s, E.ENC_RESET, us);
    RunDecodes(s, E.ENC_RESET, dst, [], us);
    var d, dst', p :| Decodes(s, dst, bs, d, dst') && Lockstep(est, dst', p) && d + p == [] + us;
    assert [] + us == us;
    AllButLast(d, p, us);
  }

  lemma AllButLast<T>(d: seq<T>, p: seq<T>, us: seq<T>)
    requires d + p == us && |p| <= 1
    ensures p == [] ==> d == us
    ensures p != [] ==> us != [] && d == us[..|us| - 1] && p[0] == us[|us| - 1]
  {
    assert d + [] == d;
  }

  /** Decoding a finished encoding, on any decoder in direct mode, whatever the rest of its state,
      gives back the units and ends in direct mode. */
  lemma RoundTrip(s: Scheme, dst: D.DecState, us: seq<Unit>)
    requires WellFormed(s) && !dst.base64
    ensures D.DecodeAll(s, dst, E.Encoded(s, us)) == us
    ensures !D.StateAfter(s, dst, E.Encoded(s, us)).base64
  {
    var est := E.StateAfter(s, E.ENC_RESET, us);
    RunDecodes(s, E.ENC_RESET, dst, [], us);
    var d, dst1, p :| Decodes(s, dst, E.EncodeAll(s, E.ENC_RESET, us), d, dst1) && Lockstep(est, dst1, p) && d + p == [] + us;
    CloseDecodes(s, est, dst1, p);
    var dst2 :| Decodes(s, dst1, E.CloseBytes(s, est), p, dst2) && !dst2.base64;
    DecodesMore(s, dst, E.EncodeAll(s, E.ENC_RESET, us), d, dst1, E.CloseBytes(s, est), p, dst2);
    assert [] + us == us;
  }
}
