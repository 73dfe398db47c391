/** What base64 mode computes, said without a state machine: the digits and the units of a run
    spell the same bit string. */
module Utf7BitStrings {
  import opened Transducer
  import opened Utf7Scheme
  import opened Numerals
  import E = Utf7Encoding
  import D = Utf7Decoding
  import L = Utf7EncoderLaws
  import M = Utf7DecoderLaws

  // ---- Bytes and digit values ----

  function Chars(s: Scheme, vs: seq<int>): (bs: seq<Byte>)
    requires DigitsOf(SIXTY_FOUR, vs)
    ensures |bs| == |vs|
  {
    seq(|vs|, i requires 0 <= i < |vs| => ValueToChar(s, vs[i]))
  }

  function Values(s: Scheme, bs: seq<Byte>): (vs: seq<int>)
    ensures |vs| == |bs|
  {
    seq(|bs|, i requires 0 <= i < |bs| => CharToValue(s, bs[i]))
  }

  predicate AllDigits(s: Scheme, bs: seq<Byte>) {
    forall i :: 0 <= i < |bs| ==> IsDigit(s, bs[i])
  }

  lemma ValuesOfChars(s: Scheme, vs: seq<int>)
    requires WellFormed(s) && DigitsOf(SIXTY_FOUR, vs)
    ensures AllDigits(s, Chars(s, vs)) && Values(s, Chars(s, vs)) == vs
    ensures forall i :: 0 <= i < |vs| ==> Chars(s, vs)[i] < 128 && Chars(s, vs)[i] != DASH
  {
    hide ValueToChar, CharToValue, WellFormed;
    forall i | 0 <= i < |vs|
      ensures CharToValue(s, ValueToChar(s, vs[i])) == vs[i]
      ensures ValueToChar(s, vs[i]) < 128 && ValueToChar(s, vs[i]) != DASH
    {
      CharOfValue(s, vs[i]);
    }
  }

  lemma CharsOfValues(s: Scheme, bs: seq<Byte>)
    requires WellFormed(s) && AllDigits(s, bs)
    ensures DigitsOf(SIXTY_FOUR, Values(s, bs)) && Chars(s, Values(s, bs)) == bs
    ensures forall i :: 0 <= i < |bs| ==> bs[i] != DASH
  {
    hide ValueToChar, CharToValue, WellFormed;
    forall i | 0 <= i < |bs|
      ensures 0 <= CharToValue(s, bs[i]) < 64 && ValueToChar(s, CharToValue(s, bs[i])) == bs[i] && bs[i] != DASH
    {
      assert IsDigit(s, bs[i]);
      ValueOfChar(s, bs[i]);
    }
  }

  // ---- The reference run ----

  /** The zero bits that fill up the last digit of `k` units, and the factor that appends them. */
  function PadBits(k: nat): nat {
    if k % 3 == 0 then 0 else if k % 3 == 1 then 2 else 4
  }

  function PadFactor(k: nat): nat {
    if k % 3 == 0 then 1 else if k % 3 == 1 then 4 else 16
  }

  function DigitCount(k: nat): nat {
    (16 * k + PadBits(k)) / 6
  }

  /** The digits of a run: its units as one big-endian bit string, zero bits appended up to a
      multiple of six, cut into six-bit digits. */
  function RunDigits(s: Scheme, us: seq<Unit>): (bs: seq<Byte>)
    ensures |bs| == DigitCount(|us|)
  {
    Chars(s, Spell(SIXTY_FOUR, Num(UNIT_BASE, us) * PadFactor(|us|), DigitCount(|us|)))
  }

  /** The units of a digit string: all complete 16-bit groups of its bit string. */
  function LeftBits(n: nat): nat {
    6 * n % 16
  }

  function LeftFactor(n: nat): nat
    ensures 0 < LeftFactor(n)
  {
    0x1_0000 / D.Weight(n % 8)
  }

  function Payload(s: Scheme, bs: seq<Byte>): (us: seq<Unit>)
    ensures |us| == 6 * |bs| / 16
  {
    var xs := Spell(UNIT_BASE, Num(SIXTY_FOUR, Values(s, bs)) / LeftFactor(|bs|), 6 * |bs| / 16);
    seq(|xs|, i requires 0 <= i < |xs| => xs[i])
  }

  // ---- The encoder ----

  predicate NoneDirect(s: Scheme, us: seq<Unit>) {
    forall i :: 0 <= i < |us| ==> !Direct(s, us[i])
  }

  /** The digit values of one unit, with the bits held from the one before. */
  function UnitValues(step: nat, bits: nat, u: Unit): seq<int> {
    match step
    case 0 => [u / 1024, u / 16 % 64]
    case 1 => [bits + u / 16384, u / 256 % 64, u / 4 % 64]
    case _ => [bits + u / 4096, u / 64 % 64, u % 64]
  }

  /** The encoder in a run: the digits so far and the bits held spell the units so far. */
  predicate Spelt(st: E.EncState, vs: seq<int>, us: seq<Unit>) {
    && DigitsOf(SIXTY_FOUR, vs) && st.base64 && E.EncValid(st) && st.step == |us| % 3
    && match st.step
       case 0 => 6 * |vs| == 16 * |us| && Num(SIXTY_FOUR, vs) == Num(UNIT_BASE, us)
       case 1 => 6 * |vs| + 4 == 16 * |us| && Num(SIXTY_FOUR, vs) * 16 + st.bits / 4 == Num(UNIT_BASE, us)
       case _ => 6 * |vs| + 2 == 16 * |us| && Num(SIXTY_FOUR, vs) * 4 + st.bits / 16 == Num(UNIT_BASE, us)
  }

  /** One unit's worth of bits, phase by phase: `n` is spelt by the digits, `m` by the units. */
  lemma Bits0(u: Unit, n: int)
    ensures ((n * 64 + u / 1024) * 64 + u / 16 % 64) * 16 + u % 16 * 4 / 4 == n * 0x1_0000 + u
  {
    assert u / 16 / 64 == u / 1024;
  }

  lemma Bits1(u: Unit, n: int, held: int)
    ensures (((n * 64 + (held * 4 + u / 16384)) * 64 + u / 256 % 64) * 64 + u / 4 % 64) * 4 + u % 4 * 16 / 16
            == (n * 16 + held) * 0x1_0000 + u
  {
    assert u / 4 / 64 == u / 256 && u / 256 / 64 == u / 16384;
  }

  lemma Bits2(u: Unit, n: int, held: int)
    ensures ((n * 64 + (held * 16 + u / 4096)) * 64 + u / 64 % 64) * 64 + u % 64 == (n * 4 + held) * 0x1_0000 + u
  {
    assert u / 64 / 64 == u / 4096;
  }

  lemma UnitValuesAreDigits(st: E.EncState, u: Unit)
    requires E.EncValid(st)
    ensures DigitsOf(SIXTY_FOUR, UnitValues(st.step, st.bits, u))
  {
    E.DigitValues(st, u);
  }

  lemma UnitSpells(s: Scheme, st: E.EncState, vs: seq<int>, us: seq<Unit>, u: Unit)
    requires Spelt(st, vs, us) && !Direct(s, u)
    ensures Spelt(E.UnitState(s, st, u), vs + UnitValues(st.step, st.bits, u), us + [u])
  {
    hide Num, DigitsOf;
    var ws := UnitValues(st.step, st.bits, u);
    UnitValuesAreDigits(st, u);
    DigitsJoin(SIXTY_FOUR, vs, ws);
    NumAppend(UNIT_BASE, us, u);
    UnitNumber(st, vs, u);
    UnitNumbers(st, u, Num(SIXTY_FOUR, vs), Num(UNIT_BASE, us));
    NextPhase(|us|);
  }

  lemma NextPhase(k: nat)
    ensures (k + 1) % 3 == if k % 3 == 2 then 0 else k % 3 + 1
  {
  }

  /** What the digits spell after a unit, against what the units spell. */
  lemma UnitNumbers(st: E.EncState, u: Unit, n: int, m: int)
    requires E.EncValid(st)
    ensures st.step == 0 && n == m ==>
              ((n * 64 + u / 1024) * 64 + u / 16 % 64) * 16 + u % 16 * 4 / 4 == m * UNIT_BASE + u
    ensures st.step == 1 && n * 16 + st.bits / 4 == m ==>
              (((n * 64 + (st.bits + u / 16384)) * 64 + u / 256 % 64) * 64 + u / 4 % 64) * 4 + u % 4 * 16 / 16 == m * UNIT_BASE + u
    ensures st.step == 2 && n * 4 + st.bits / 16 == m ==>
              ((n * 64 + (st.bits + u / 4096)) * 64 + u / 64 % 64) * 64 + u % 64 == m * UNIT_BASE + u
  {
    match st.step
    case 0 => Bits0(u, n);
    case 1 =>
      assert st.bits == st.bits / 4 * 4;
      Bits1(u, n, st.bits / 4);
    case _ =>
      assert st.bits == st.bits / 16 * 16;
      Bits2(u, n, st.bits / 16);
  }

  lemma UnitNumber(st: E.EncState, vs: seq<int>, u: Unit)
    requires E.EncValid(st)
    ensures var n, b := Num(SIXTY_FOUR, vs), st.bits;
            Num(SIXTY_FOUR, vs + UnitValues(st.step, b, u)) ==
            match st.step
            case 0 => (n * 64 + u / 1024) * 64 + u / 16 % 64
            case 1 => ((n * 64 + (b + u / 16384)) * 64 + u / 256 % 64) * 64 + u / 4 % 64
            case _ => ((n * 64 + (b + u / 4096)) * 64 + u / 64 % 64) * 64 + u % 64
  {
    hide Num;
    match st.step
    case 0 => NumAppendTwo(SIXTY_FOUR, vs, u / 1024, u / 16 % 64);
    case 1 => NumAppendThree(SIXTY_FOUR, vs, st.bits + u / 16384, u / 256 % 64, u / 4 % 64);
    case _ => NumAppendThree(SIXTY_FOUR, vs, st.bits + u / 4096, u / 64 % 64, u % 64);
  }

  /** A run from its opening on: digits and held bits spell the units. */
  lemma {:induction false} RunSpells(s: Scheme, us: seq<Unit>) returns (vs: seq<int>)
    requires NoneDirect(s, us)
    ensures var open := E.EncState(true, 0, 0);
            Spelt(E.StateAfter(s, open, us), vs, us) && E.EncodeAll(s, open, us) == Chars(s, vs)
    decreases us
  {
    hide Num, UnitValues;
    var open := E.EncState(true, 0, 0);
    if us == [] {
      vs := [];
      assert Num(SIXTY_FOUR, []) == 0 && Num(UNIT_BASE, us) == 0 by { NumNothing(); }
    } else {
      var init, u := us[..|us| - 1], us[|us| - 1];
      var ws := RunSpells(s, init);
      var st := E.StateAfter(s, open, init);
      assert us == init + [u] && !Direct(s, u);
      UnitInRun(s, st, u);
      UnitSpells(s, st, ws, init, u);
      vs := ws + UnitValues(st.step, st.bits, u);
      UnitValuesAreDigits(st, u);
      CharsJoin(s, ws, UnitValues(st.step, st.bits, u));
      OutputSplit(E.Encoder(s), open, init, [u]);
    }
  }

  lemma NumNothing()
    ensures Num(SIXTY_FOUR, []) == 0 && Num(UNIT_BASE, []) == 0
  {
  }

  lemma CharsJoin(s: Scheme, vs: seq<int>, ws: seq<int>)
    requires DigitsOf(SIXTY_FOUR, vs) && DigitsOf(SIXTY_FOUR, ws)
    ensures DigitsOf(SIXTY_FOUR, vs + ws) && Chars(s, vs + ws) == Chars(s, vs) + Chars(s, ws)
  {
    hide ValueToChar;
    DigitsJoin(SIXTY_FOUR, vs, ws);
  }

  lemma UnitInRun(s: Scheme, st: E.EncState, u: Unit)
    requires E.EncValid(st) && st.base64 && !Direct(s, u)
    ensures DigitsOf(SIXTY_FOUR, UnitValues(st.step, st.bits, u))
    ensures E.EncodeAll(s, st, [u]) == Chars(s, UnitValues(st.step, st.bits, u))
    ensures E.StateAfter(s, st, [u]) == E.UnitState(s, st, u)
  {
    hide ValueToChar;
    UnitValuesAreDigits(st, u);
    L.EncodeFirst(s, st, [u]);
    assert [u][1..] == [];
    EncodeNothing(s, E.NextState(s, st, u));
    var bs := E.EncodeUnit(s, st, u);
    assert bs + [] == bs && bs == E.UnitBytes(s, st, u);
  }

  lemma EncodeNothing(s: Scheme, st: E.EncState)
    ensures E.EncodeAll(s, st, []) == [] && E.StateAfter(s, st, []) == st
  {
  }

  /** The digit values of a closed run, the pending bits becoming the zero-padded last digit. */
  lemma PaddedSpells(s: Scheme, us: seq<Unit>) returns (vs: seq<int>)
    requires NoneDirect(s, us)
    ensures DigitsOf(SIXTY_FOUR, vs) && |vs| == DigitCount(|us|)
    ensures Num(SIXTY_FOUR, vs) == Num(UNIT_BASE, us) * PadFactor(|us|)
    ensures E.Finished(s, E.EncState(true, 0, 0), us) == Chars(s, vs) + [DASH]
  {
    hide Num, Chars;
    var st := E.StateAfter(s, E.EncState(true, 0, 0), us);
    vs := RunSpells(s, us);
    if st.step != 0 {
      NumAppend(SIXTY_FOUR, vs, st.bits);
      CharsJoin(s, vs, [st.bits]);
      OneChar(s, st.bits);
      HeldBits(st, Num(SIXTY_FOUR, vs), Num(UNIT_BASE, us), |us|);
      vs := vs + [st.bits];
    }
  }

  /** The encoder's run, closed, is the reference run. */
  lemma RunIsBitString(s: Scheme, us: seq<Unit>)
    requires NoneDirect(s, us)
    ensures E.Finished(s, E.EncState(true, 0, 0), us) == RunDigits(s, us) + [DASH]
  {
    hide Num, Chars;
    var vs := PaddedSpells(s, us);
    SpellNum(SIXTY_FOUR, vs);
  }

  lemma OneChar(s: Scheme, v: int)
    requires 0 <= v < 64
    ensures DigitsOf(SIXTY_FOUR, [v]) && Chars(s, [v]) == [ValueToChar(s, v)]
  {
  }

  lemma HeldBits(st: E.EncState, n: int, m: int, k: nat)
    requires E.EncValid(st) && st.step != 0 && st.step == k % 3
    requires st.step == 1 ==> n * 16 + st.bits / 4 == m
    requires st.step == 2 ==> n * 4 + st.bits / 16 == m
    ensures n * 64 + st.bits == m * PadFactor(k)
  {
  }

  /** A finished run of k units costs the escape, the digits, and the '-'. */
  lemma RunSize(s: Scheme, us: seq<Unit>)
    requires us != [] && NoneDirect(s, us)
    ensures |E.Encoded(s, us)| == 2 + (8 * |us| + 2) / 3
  {
    hide E.Encoded, E.Finished, Spell, Num;
    OpenRun(s, us);
    RunIsBitString(s, us);
  }

  lemma OpenRun(s: Scheme, us: seq<Unit>)
    requires us != [] && !Direct(s, us[0])
    ensures E.Encoded(s, us) == [s.escChar] + E.Finished(s, E.EncState(true, 0, 0), us)
  {
    var open := E.EncState(true, 0, 0);
    L.EncodeFirst(s, E.ENC_RESET, us);
    L.EncodeFirst(s, open, us);
    assert E.EncodeUnit(s, E.ENC_RESET, us[0]) == [s.escChar] + E.EncodeUnit(s, open, us[0]);
  }

  // ---- The decoder ----

  /** The decoder in a run: the units so far and the accumulator spell the digits so far. */
  predicate Read(st: D.DecState, vs: seq<int>, us: seq<Unit>) {
    && st.base64 && D.DecValid(st) && st.step == |vs| % 8
    && 6 * |vs| == 16 * |us| + LeftBits(|vs|)
    && Num(SIXTY_FOUR, vs) * D.Weight(st.step) == Num(UNIT_BASE, us) * 0x1_0000 + st.bits
  }

  lemma DigitNumber(st: D.DecState, n: int, m: int, v: nat)
    requires D.DecValid(st) && v < 64 && n * D.Weight(st.step) == m * 0x1_0000 + st.bits
    ensures var st' := D.DigitState(st, v);
            (n * 64 + v) * D.Weight(st'.step) ==
            (if D.Completes(st.step) then m * 0x1_0000 + D.Accumulated(st, v) else m) * 0x1_0000 + st'.bits
  {
    match st.step
    case 0 => assert st.bits == 0;
    case 2 => assert v == v / 4 * 4 + v % 4;
    case 5 => assert v == v / 16 * 16 + v % 16;
    case _ =>
  }

  lemma LeftBitsOf(g: nat, r: nat)
    ensures LeftBits(8 * g + r) == 6 * r % 16
  {
    assert 6 * (8 * g + r) == 16 * (3 * g) + 6 * r;
    Mod16(3 * g, 6 * r);
  }

  lemma Mod16(k: nat, x: nat)
    ensures (16 * k + x) % 16 == x % 16
  {
  }

  lemma DigitLengths(step: nat, digits: nat, units: nat)
    requires step == digits % 8 && 6 * digits == 16 * units + LeftBits(digits)
    ensures (step + 1) % 8 == (digits + 1) % 8
    ensures 6 * (digits + 1) == 16 * (if D.Completes(step) then units + 1 else units) + LeftBits(digits + 1)
  {
    hide LeftBits;
    var g := digits / 8;
    LeftBitsOf(g, step);
    if step == 7 {
      LeftBitsOf(g + 1, 0);
    } else {
      LeftBitsOf(g, step + 1);
    }
  }

  lemma DigitReads(st: D.DecState, vs: seq<int>, us: seq<Unit>, v: nat)
    requires Read(st, vs, us) && v < 64
    ensures Read(D.DigitState(st, v), vs + [v], us + D.DigitOut(st, v))
  {
    hide Num, LeftBits, D.DecValid, D.Weight, D.Head, D.Tail, D.Accumulated, D.Completes;
    D.DigitMerges(st, v);
    DigitNumber(st, Num(SIXTY_FOUR, vs), Num(UNIT_BASE, us), v);
    DigitLengths(st.step, |vs|, |us|);
    NumAppend(SIXTY_FOUR, vs, v);
    if D.Completes(st.step) {
      var u: Unit := D.Accumulated(st, v);
      NumAppend(UNIT_BASE, us, u);
      assert D.DigitOut(st, v) == [u];
    } else {
      assert us + [] == us;
    }
  }

  /** Reading digits from the opening of a run on. */
  lemma {:induction false} DigitsRead(s: Scheme, st: D.DecState, bs: seq<Byte>)
    requires WellFormed(s) && st.base64 && st.step == 0 && st.bits == 0 && AllDigits(s, bs)
    ensures Read(D.StateAfter(s, st, bs), Values(s, bs), D.DecodeAll(s, st, bs))
    ensures bs != [] ==> !D.StateAfter(s, st, bs).atStart
    decreases bs
  {
    hide Num, CharToValue, D.Weight, D.Head, D.Tail, D.Accumulated, D.DigitOut, WellFormed;
    if bs == [] {
      NumNothing();
      DecodeNothing(s, st);
      assert 0 % D.Weight(0) == 0;
    } else {
      var init, b := bs[..|bs| - 1], bs[|bs| - 1];
      assert bs == init + [b] && IsDigit(s, b);
      DigitsRead(s, st, init);
      ValueOfChar(s, b);
      var st1 := D.StateAfter(s, st, init);
      DigitReads(st1, Values(s, init), D.DecodeAll(s, st, init), CharToValue(s, b));
      OutputSplit(D.Decoder(s), st, init, [b]);
      DigitInRun(s, st1, b);
      assert Values(s, bs) == Values(s, init) + [CharToValue(s, b)];
    }
  }

  lemma DecodeNothing(s: Scheme, st: D.DecState)
    ensures D.DecodeAll(s, st, []) == [] && D.StateAfter(s, st, []) == st
  {
  }

  lemma DigitInRun(s: Scheme, st: D.DecState, b: Byte)
    requires WellFormed(s) && st.base64 && IsDigit(s, b)
    ensures D.DecodeAll(s, st, [b]) == D.DigitOut(st, CharToValue(s, b))
    ensures D.StateAfter(s, st, [b]) == D.DigitState(st, CharToValue(s, b))
  {
    hide CharToValue, D.DigitOut, D.DigitState, WellFormed;
    ValueOfChar(s, b);
    M.DecodeFirst(s, st, [b]);
    assert [b][1..] == [];
    DecodeNothing(s, D.NextState(s, st, b));
    assert D.DigitOut(st, CharToValue(s, b)) + [] == D.DigitOut(st, CharToValue(s, b));
  }

  /** Whatever digits a run holds, the decoder yields the complete 16-bit groups of their bit
      string; and its accumulator is zero exactly when the bits left over are. */
  lemma DecoderReadsBitString(s: Scheme, st: D.DecState, bs: seq<Byte>)
    requires WellFormed(s) && st.base64 && st.step == 0 && st.bits == 0 && AllDigits(s, bs)
    ensures D.DecodeAll(s, st, bs) == Payload(s, bs)
    ensures var n := Num(SIXTY_FOUR, Values(s, bs));
            && n == Num(UNIT_BASE, Payload(s, bs)) * LeftFactor(|bs|) + n % LeftFactor(|bs|)
            && (n % LeftFactor(|bs|) == 0 <==> D.StateAfter(s, st, bs).bits == 0)
  {
    hide Num, CharToValue, WellFormed;
    DigitsRead(s, st, bs);
    var out, st' := D.DecodeAll(s, st, bs), D.StateAfter(s, st, bs);
    var n, m := Num(SIXTY_FOUR, Values(s, bs)), Num(UNIT_BASE, out);
    LeftOver(st', n, m);
    SpellNum(UNIT_BASE, out);
  }

  lemma LeftOver(st: D.DecState, n: int, m: int)
    requires D.DecValid(st) && n * D.Weight(st.step) == m * 0x1_0000 + st.bits
    ensures var w := 0x1_0000 / D.Weight(st.step);
            0 < w && n / w == m && n == m * w + n % w && (n % w == 0 <==> st.bits == 0)
  {
    var q := st.bits / D.Weight(st.step);
    match st.step
    case 1 => assert st.bits == q * 1024 && n == m * 64 + q;
    case 2 => assert st.bits == q * 16 && n == m * 4096 + q;
    case 3 => assert st.bits == q * 16384 && n == m * 4 + q;
    case 4 => assert st.bits == q * 256 && n == m * 256 + q;
    case 5 => assert st.bits == q * 4 && n == m * 16384 + q;
    case 6 => assert st.bits == q * 4096 && n == m * 16 + q;
    case 7 => assert st.bits == q * 64 && n == m * 1024 + q;
    case _ =>
  }
}
