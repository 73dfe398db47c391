/** The encoder as a machine: one 16-bit unit at a time, into a buffer that may fill up. */
module Utf7Encoding {
  import opened Transducer
  import opened Utf7Scheme

  /** mEncoding, mEncBits and mEncStep. */
  datatype EncState = EncState(base64: bool, bits: nat, step: nat)

  type EncRun = Run<EncState, Byte>

  const ENC_RESET := EncState(false, 0, 0)

  /** Holds in every reachable state: the pending bits are the top of a 6-bit digit. */
  predicate EncValid(st: EncState) {
    && st.step < 3 && (st.base64 || st.step == 0)
    && (st.step == 0 ==> st.bits == 0)
    && (st.step == 1 ==> st.bits < 64 && st.bits % 4 == 0)
    && (st.step == 2 ==> st.bits < 64 && st.bits % 16 == 0)
  }

  // ---- One unit, bounded ----

  function Flushed(st: EncState): EncState {
    if st.step == 0 then st else EncState(st.base64, 0, 0)
  }

  /** Changing mode with `room` bytes left: pending bits first, then '-' or the escape. */
  function Shift(s: Scheme, st: EncState, base64: bool, room: int): EncRun {
    if base64 == st.base64 then Run(st, 0, [], Ok)
    else if st.step != 0 && room <= 0 then Run(st, 0, [], MoreOutput)
    else
      var pad := if st.step == 0 then [] else [ValueToChar(s, st.bits)];
      if room <= |pad| then Run(Flushed(st), 0, pad, MoreOutput)
      else if base64 then Run(Flushed(st).(base64 := true), 0, pad + [s.escChar], Ok)
      else Run(ENC_RESET, 0, pad + [DASH], Ok)
  }

  /** The room the code asks for before it writes a unit: one byte too few for an escape pair. */
  function Guard(s: Scheme, st: EncState, u: Unit): nat {
    if Direct(s, u) then 1 else if st.step == 0 then 2 else 3
  }

  /** The bytes of a unit in its own mode. */
  function UnitBytes(s: Scheme, st: EncState, u: Unit): seq<Byte> {
    if Direct(s, u) then
      if u == s.escChar then [s.escChar, DASH] else [u % 0x100]
    else
      match st.step
      case 0 => [ValueToChar(s, u / 1024), ValueToChar(s, u / 16 % 64)]
      case 1 => [ValueToChar(s, st.bits + u / 16384), ValueToChar(s, u / 256 % 64), ValueToChar(s, u / 4 % 64)]
      case _ => [ValueToChar(s, st.bits + u / 4096), ValueToChar(s, u / 64 % 64), ValueToChar(s, u % 64)]
  }

  function UnitState(s: Scheme, st: EncState, u: Unit): EncState {
    if Direct(s, u) then st
    else
      match st.step
      case 0 => EncState(st.base64, u % 16 * 4, 1)
      case 1 => EncState(st.base64, u % 4 * 16, 2)
      case _ => EncState(st.base64, 0, 0)
  }

  function EncodeStep(s: Scheme, st: EncState, u: Unit, room: int): EncRun {
    var sh := Shift(s, st, !Direct(s, u), room);
    if sh.status != Ok then sh
    else if room - |sh.out| < Guard(s, sh.st, u) then Run(sh.st, 0, sh.out, MoreOutput)
    else Run(UnitState(s, sh.st, u), 1, sh.out + UnitBytes(s, sh.st, u), Ok)
  }

  // ---- One unit, unbounded ----

  /** The bytes that close the open mode, and those that lead into the mode of `u`. */
  function CloseBytes(s: Scheme, st: EncState): seq<Byte> {
    if !st.base64 then []
    else if st.step == 0 then [DASH]
    else [ValueToChar(s, st.bits), DASH]
  }

  function OpenBytes(s: Scheme, st: EncState, u: Unit): seq<Byte> {
    if Direct(s, u) then CloseBytes(s, st)
    else if st.base64 then []
    else [s.escChar]
  }

  function Opened(s: Scheme, st: EncState, u: Unit): EncState {
    if Direct(s, u) != st.base64 then st else EncState(!Direct(s, u), 0, 0)
  }

  function EncodeUnit(s: Scheme, st: EncState, u: Unit): seq<Byte> {
    OpenBytes(s, st, u) + UnitBytes(s, Opened(s, st, u), u)
  }

  function NextState(s: Scheme, st: EncState, u: Unit): EncState {
    UnitState(s, Opened(s, st, u), u)
  }

  /** The length of the leading stretch of units that share the mode `direct`. */
  function Stretch(s: Scheme, us: seq<Unit>, direct: bool): (k: nat)
    ensures k <= |us|
    ensures forall i :: 0 <= i < k ==> Direct(s, us[i]) == direct
    ensures k < |us| ==> Direct(s, us[k]) != direct
  {
    if us == [] || Direct(s, us[0]) != direct then 0 else 1 + Stretch(s, us[1..], direct)
  }

  // ---- Calls ----

  function Encoder(s: Scheme): Machine<EncState, Unit, Byte> {
    Machine((st: EncState, u: Unit, room: int) => EncodeStep(s, st, u, room),
            (st: EncState, u: Unit) => NextState(s, st, u),
            (st: EncState, u: Unit) => EncodeUnit(s, st, u),
            (st: EncState) => EncValid(st))
  }

  /** One ConvertNoBuffNoErr call. */
  function EncodeCall(s: Scheme, st: EncState, us: seq<Unit>, room: int): EncRun {
    Feed(Encoder(s), st, us, room)
  }

  /** The bytes and the state of the unit-at-a-time fold. */
  function EncodeAll(s: Scheme, st: EncState, us: seq<Unit>): seq<Byte> {
    Output(Encoder(s), st, us)
  }

  function StateAfter(s: Scheme, st: EncState, us: seq<Unit>): EncState {
    After(Encoder(s), st, us)
  }

  /** The encoding finished by FinishNoBuff, from a given state and from reset. */
  function Finished(s: Scheme, st: EncState, us: seq<Unit>): seq<Byte> {
    EncodeAll(s, st, us) + CloseBytes(s, StateAfter(s, st, us))
  }

  function Encoded(s: Scheme, us: seq<Unit>): seq<Byte> {
    Finished(s, ENC_RESET, us)
  }

  lemma CallOfNothing(s: Scheme, st: EncState, room: int)
    ensures EncodeCall(s, st, [], room) == Run(st, 0, [], Ok)
  {
  }

  // ---- Laws of one step ----

  /** A mode change that is cut short has flushed the pending bits at most, and comes out whole
      when it is tried again. */
  lemma ShiftResumes(s: Scheme, st: EncState, u: Unit, room: int)
    requires EncValid(st)
    ensures var sh := Shift(s, st, !Direct(s, u), room);
            && EncValid(sh.st) && sh.read == 0 && sh.status != IllegalInput
            && OpenBytes(s, st, u) == sh.out + OpenBytes(s, sh.st, u)
            && Opened(s, sh.st, u) == Opened(s, st, u)
            && (sh.status == Ok ==> sh.st == Opened(s, st, u) && OpenBytes(s, sh.st, u) == [])
            && (|OpenBytes(s, st, u)| <= room ==> sh.status == Ok)
  {
  }

  lemma UnitFacts(s: Scheme, st: EncState, u: Unit)
    requires EncValid(st) && Direct(s, u) != st.base64
    ensures EncValid(UnitState(s, st, u)) && 1 <= |UnitBytes(s, st, u)|
    ensures st.step < 3 && Guard(s, st, u) <= |UnitBytes(s, st, u)|
  {
  }

  lemma StepParts(s: Scheme, st: EncState, u: Unit, room: int)
    requires EncValid(st)
    ensures var r := EncodeStep(s, st, u, room);
            && EncValid(r.st)
            && (r.status == Ok ==> r.read == 1 && r.st == NextState(s, st, u) && r.out == EncodeUnit(s, st, u))
            && (r.status != Ok ==>
                  && r.status == MoreOutput && r.read == 0
                  && Opened(s, r.st, u) == Opened(s, st, u)
                  && EncodeUnit(s, st, u) == r.out + EncodeUnit(s, r.st, u))
            && (|EncodeUnit(s, st, u)| <= room ==> r.status == Ok)
  {
    ShiftResumes(s, st, u, room);
    UnitFacts(s, Opened(s, st, u), u);
    var sh, o := Shift(s, st, !Direct(s, u), room), UnitBytes(s, Opened(s, st, u), u);
    assert (sh.out + OpenBytes(s, sh.st, u)) + o == sh.out + (OpenBytes(s, sh.st, u) + o);
  }

  lemma StepLawful(s: Scheme, st: EncState, u: Unit, room: int)
    requires EncValid(st)
    ensures StepRefines(Encoder(s), st, u, room)
  {
    StepParts(s, st, u, room);
  }

  lemma EncoderLawful(s: Scheme)
    ensures Lawful(Encoder(s))
  {
    forall st, u, room | Encoder(s).inv(st) ensures StepRefines(Encoder(s), st, u, room) {
      StepLawful(s, st, u, room);
    }
  }

  /** In reachable states every value handed to ValueToChar is a 6-bit digit, and each sum puts
      the pending bits and the top of the unit side by side. */
  lemma DigitValues(st: EncState, u: Unit)
    requires EncValid(st)
    ensures st.bits < 64
    ensures st.step == 0 ==> u / 1024 < 64
    ensures st.step == 1 ==> st.bits % 4 == 0 && u / 16384 < 4 && st.bits + u / 16384 < 64
    ensures st.step == 2 ==> st.bits % 16 == 0 && u / 4096 < 16 && st.bits + u / 4096 < 64
  {
    assert st.step == 1 ==> st.bits == st.bits / 4 * 4;
    assert st.step == 2 ==> st.bits == st.bits / 16 * 16;
  }

  /** The state always says which mode the last unit was written in. */
  lemma {:induction false} AfterValid(s: Scheme, st: EncState, us: seq<Unit>)
    requires EncValid(st)
    ensures EncValid(StateAfter(s, st, us))
    ensures us != [] ==> StateAfter(s, st, us).base64 == !Direct(s, us[|us| - 1])
    decreases us
  {
    if us != [] {
      AfterValid(s, NextState(s, st, us[0]), us[1..]);
    }
  }
}
