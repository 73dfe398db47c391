/** The decoder as a machine: one byte at a time, into a buffer that may fill up. */
module Utf7Decoding {
  import opened Transducer
  import opened Utf7Scheme

  /** mEncoding, mEncBits, mEncStep and mFreshBase64. */
  datatype DecState = DecState(base64: bool, bits: nat, step: nat, atStart: bool)

  type DecRun = Run<DecState, Unit>

  /** Step k has seen 6k bits of the run; `Weight` is the place of the first bit still missing
      from the accumulator. */
  function Weight(step: nat): (w: nat)
    ensures 0 < w
  {
    match step
    case 1 => 1024
    case 2 => 16
    case 3 => 16384
    case 4 => 256
    case 5 => 4
    case 6 => 4096
    case 7 => 64
    case _ => 65536
  }

  /** Holds in every reachable state: the accumulator is one unit whose missing bits are zero. */
  predicate DecValid(st: DecState) {
    && st.step < 8 && st.bits < 0x1_0000 && st.bits % Weight(st.step) == 0
    && (st.base64 && st.atStart ==> st.step == 0)
  }

  // ---- One byte, bounded ----

  /** The steps that complete a unit. */
  predicate Completes(step: nat) {
    step == 2 || step == 5 || step == 7
  }

  /** The part of the digit that falls into the unit under way, already shifted into place. */
  function Head(step: nat, v: nat): nat {
    match step
    case 0 => v * 1024
    case 1 => v * 16
    case 2 => v / 4
    case 3 => v * 256
    case 4 => v * 4
    case 5 => v / 16
    case 6 => v * 64
    case _ => v
  }

  /** The part of the digit that starts the next unit. */
  function Tail(step: nat, v: nat): nat {
    match step
    case 2 => v % 4 * 16384
    case 5 => v % 16 * 4096
    case _ => 0
  }

  /** The accumulator with the digit added; step 0 starts afresh. The cast is to char16_t. */
  function Accumulated(st: DecState, v: nat): nat {
    if st.step == 0 then Head(0, v) else st.bits + Head(st.step, v)
  }

  function DigitOut(st: DecState, v: nat): seq<Unit> {
    if Completes(st.step) then [Accumulated(st, v) % 0x1_0000] else []
  }

  function DigitState(st: DecState, v: nat): DecState {
    DecState(st.base64, if Completes(st.step) then Tail(st.step, v) else Accumulated(st, v), (st.step + 1) % 8, false)
  }

  function Enter(st: DecState): DecState {
    DecState(true, 0, 0, true)
  }

  function Leave(st: DecState): DecState {
    st.(base64 := false)
  }

  /** A byte in direct mode. The escape needs no room. */
  function DirectStep(s: Scheme, st: DecState, b: Byte, room: int): DecRun {
    if b == s.escChar then Run(Enter(st), 1, [], Ok)
    else if room <= 0 then Run(st, 0, [], MoreOutput)
    else Run(st, 1, [Widen(s, b)], Ok)
  }

  /** A byte in either mode. The literal escape is written without asking for room; a byte that is
      no digit ends the run and, unless it is '-', is looked at again in direct mode. */
  function DecodeStep(s: Scheme, st: DecState, b: Byte, room: int): DecRun {
    if !st.base64 then DirectStep(s, st, b, room)
    else if st.atStart && b == DASH then Run(Leave(st), 1, [Widen(s, s.escChar)], Ok)
    else
      var st' := st.(atStart := false);
      if IsDigit(s, b) then
        if Completes(st.step) && room <= 0 then Run(st', 0, [], MoreOutput)
        else Run(DigitState(st', CharToValue(s, b)), 1, DigitOut(st', CharToValue(s, b)), Ok)
      else if b == DASH then Run(Leave(st'), 1, [], Ok)
      else DirectStep(s, Leave(st'), b, room)
  }

  // ---- One byte, unbounded ----

  function DecodeByte(s: Scheme, st: DecState, b: Byte): seq<Unit> {
    if st.base64 && st.atStart && b == DASH then [Widen(s, s.escChar)]
    else if st.base64 && IsDigit(s, b) then DigitOut(st, CharToValue(s, b))
    else if b == s.escChar || (st.base64 && b == DASH) then []
    else [Widen(s, b)]
  }

  function NextState(s: Scheme, st: DecState, b: Byte): DecState {
    if !st.base64 then
      if b == s.escChar then Enter(st) else st
    else if st.atStart && b == DASH then Leave(st)
    else if IsDigit(s, b) then DigitState(st, CharToValue(s, b))
    else if b == s.escChar && b != DASH then Enter(st)
    else Leave(st.(atStart := false))
  }

  /** How many bytes lie before the first escape, and before the first byte that is no digit. */
  function PlainLength(s: Scheme, bs: seq<Byte>): (k: nat)
    ensures k <= |bs| && (forall i :: 0 <= i < k ==> bs[i] != s.escChar) && (k < |bs| ==> bs[k] == s.escChar)
  {
    if bs == [] || bs[0] == s.escChar then 0 else 1 + PlainLength(s, bs[1..])
  }

  function DigitLength(s: Scheme, bs: seq<Byte>): (k: nat)
    ensures k <= |bs| && (forall i :: 0 <= i < k ==> IsDigit(s, bs[i])) && (k < |bs| ==> !IsDigit(s, bs[k]))
  {
    if bs == [] || !IsDigit(s, bs[0]) then 0 else 1 + DigitLength(s, bs[1..])
  }

  // ---- Calls ----

  function Decoder(s: Scheme): Machine<DecState, Byte, Unit> {
    Machine((st: DecState, b: Byte, room: int) => DecodeStep(s, st, b, room),
            (st: DecState, b: Byte) => NextState(s, st, b),
            (st: DecState, b: Byte) => DecodeByte(s, st, b),
            (st: DecState) => DecValid(st))
  }

  /** One ConvertNoBuff call. */
  function DecodeCall(s: Scheme, st: DecState, bs: seq<Byte>, room: int): DecRun {
    Feed(Decoder(s), st, bs, room)
  }

  function DecodeAll(s: Scheme, st: DecState, bs: seq<Byte>): seq<Unit> {
    Output(Decoder(s), st, bs)
  }

  function StateAfter(s: Scheme, st: DecState, bs: seq<Byte>): DecState {
    After(Decoder(s), st, bs)
  }

  lemma CallOfNothing(s: Scheme, st: DecState, room: int)
    ensures DecodeCall(s, st, [], room) == Run(st, 0, [], Ok)
  {
  }

  // ---- Laws of one step ----

  lemma DigitPlaces(step: nat, v: nat)
    requires step < 8 && v < 64
    ensures step != 0 ==> Head(step, v) < Weight(step)
    ensures step == 0 ==> Head(step, v) < 0x1_0000
    ensures !Completes(step) ==> Head(step, v) % Weight((step + 1) % 8) == 0
    ensures Tail(step, v) < 0x1_0000 && (Completes(step) ==> Tail(step, v) % Weight((step + 1) % 8) == 0)
  {
  }

  /** Adding below the lowest bit in use never carries. */
  lemma NoCarry(bits: nat, step: nat, h: nat)
    requires 1 <= step < 8 && bits < 0x1_0000 && bits % Weight(step) == 0 && h < Weight(step)
    ensures bits + h < 0x1_0000
  {
    var w := Weight(step);
    match step
    case 1 => assert bits == bits / 1024 * 1024;
    case 2 => assert bits == bits / 16 * 16;
    case 3 => assert bits == bits / 16384 * 16384;
    case 4 => assert bits == bits / 256 * 256;
    case 5 => assert bits == bits / 4 * 4;
    case 6 => assert bits == bits / 4096 * 4096;
    case _ => assert bits == bits / 64 * 64;
  }

  lemma Align16(bits: nat, h: nat)
    ensures bits % 1024 == 0 && h % 16 == 0 ==> (bits + h) % 16 == 0
  {
    assert bits % 1024 == 0 && h % 16 == 0 ==> bits + h == 16 * (64 * (bits / 1024) + h / 16);
  }

  lemma Align256(bits: nat, h: nat)
    ensures bits % 16384 == 0 && h % 256 == 0 ==> (bits + h) % 256 == 0
  {
    assert bits % 16384 == 0 && h % 256 == 0 ==> bits + h == 256 * (64 * (bits / 16384) + h / 256);
  }

  lemma Align4(bits: nat, h: nat)
    ensures bits % 256 == 0 && h % 4 == 0 ==> (bits + h) % 4 == 0
  {
    assert bits % 256 == 0 && h % 4 == 0 ==> bits + h == 4 * (64 * (bits / 256) + h / 4);
  }

  lemma Align64(bits: nat, h: nat)
    ensures bits % 4096 == 0 && h % 64 == 0 ==> (bits + h) % 64 == 0
  {
    assert bits % 4096 == 0 && h % 64 == 0 ==> bits + h == 64 * (64 * (bits / 4096) + h / 64);
  }

  lemma StaysAligned(bits: nat, step: nat, h: nat)
    requires 1 <= step < 8 && !Completes(step)
    requires bits % Weight(step) == 0 && h % Weight(step + 1) == 0
    ensures (bits + h) % Weight(step + 1) == 0
  {
    match step
    case 1 => Align16(bits, h);
    case 3 => Align256(bits, h);
    case 4 => Align4(bits, h);
    case _ => Align64(bits, h);
  }

  /** The digit is added below the bits already there: the sum stays below 2^16, so neither the
      32-bit accumulator nor the cast to char16_t loses anything. */
  lemma DigitMerges(st: DecState, v: nat)
    requires DecValid(st) && v < 64
    ensures st.step < 8 && Accumulated(st, v) < 0x1_0000
    ensures st.step != 0 ==> st.bits % Weight(st.step) == 0 && Head(st.step, v) < Weight(st.step)
    ensures DecValid(DigitState(st, v))
  {
    DigitPlaces(st.step, v);
    if st.step != 0 {
      NoCarry(st.bits, st.step, Head(st.step, v));
      if !Completes(st.step) {
        StaysAligned(st.bits, st.step, Head(st.step, v));
      }
    }
  }

  lemma StepParts(s: Scheme, st: DecState, b: Byte, room: int)
    requires WellFormed(s) && DecValid(st)
    ensures var r := DecodeStep(s, st, b, room);
            && DecValid(r.st)
            && (r.status == Ok ==> r.read == 1 && r.st == NextState(s, st, b) && r.out == DecodeByte(s, st, b))
            && (r.status != Ok ==>
                  && r.status == MoreOutput && r.read == 0 && r.out == []
                  && NextState(s, r.st, b) == NextState(s, st, b)
                  && DecodeByte(s, r.st, b) == DecodeByte(s, st, b))
            && (|DecodeByte(s, st, b)| <= room ==> r.status == Ok)
  {
    if IsDigit(s, b) {
      ValueOfChar(s, b);
      DigitMerges(st, CharToValue(s, b));
      DigitMerges(st.(atStart := false), CharToValue(s, b));
    }
  }

  lemma StepLawful(s: Scheme, st: DecState, b: Byte, room: int)
    requires WellFormed(s) && DecValid(st)
    ensures StepRefines(Decoder(s), st, b, room)
  {
    StepParts(s, st, b, room);
  }

  lemma DecoderLawful(s: Scheme)
    requires WellFormed(s)
    ensures Lawful(Decoder(s))
  {
    forall st, b, room | Decoder(s).inv(st) ensures StepRefines(Decoder(s), st, b, room) {
      StepLawful(s, st, b, room);
    }
  }
}
