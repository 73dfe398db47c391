/** The canonical encoding: a reference encoder that works run by run on bit strings, the byte
    strings it produces described without it, and the two directions between them. */
module Utf7Canonical {
  import opened Transducer
  import opened Utf7Scheme
  import opened Numerals
  import opened Utf7BitStrings
  import E = Utf7Encoding
  import D = Utf7Decoding
  import L = Utf7EncoderLaws
  import R = Utf7RoundTrip

  // ---- The reference encoder ----

  function Reference(s: Scheme, us: seq<Unit>): seq<Byte>
    decreases us
  {
    if us == [] then []
    else if Direct(s, us[0]) then
      (if us[0] == s.escChar then [s.escChar, DASH] else [us[0] % 0x100]) + Reference(s, us[1..])
    else
      var k := E.Stretch(s, us, false);
      [s.escChar] + RunDigits(s, us[..k]) + [DASH] + Reference(s, us[k..])
  }

  /** Closing a run and starting over is what the encoder does before a direct unit or the end. */
  lemma FinishThenStart(s: Scheme, st: E.EncState, us: seq<Unit>)
    requires E.EncValid(st) && (us == [] || Direct(s, us[0]))
    ensures E.Finished(s, st, us) == E.CloseBytes(s, st) + E.Encoded(s, us)
  {
    hide ValueToChar;
    if us == [] {
      EncodeNothing(s, st);
      EncodeNothing(s, E.ENC_RESET);
    } else {
      L.EncodeFirst(s, st, us);
      L.EncodeFirst(s, E.ENC_RESET, us);
      assert E.NextState(s, st, us[0]) == E.NextState(s, E.ENC_RESET, us[0]);
      assert E.EncodeUnit(s, st, us[0]) == E.CloseBytes(s, st) + E.EncodeUnit(s, E.ENC_RESET, us[0]);
    }
  }

  /** A maximal run, and then the rest as if from reset. */
  lemma RunThenRest(s: Scheme, run: seq<Unit>, rest: seq<Unit>)
    requires run != [] && NoneDirect(s, run) && (rest == [] || Direct(s, rest[0]))
    ensures E.Encoded(s, run + rest) == [s.escChar] + RunDigits(s, run) + [DASH] + E.Encoded(s, rest)
  {
    hide RunDigits, E.EncodeAll, E.StateAfter, E.CloseBytes;
    var open := E.EncState(true, 0, 0);
    var us := run + rest;
    assert us[0] == run[0] && !Direct(s, run[0]);
    OpenRun(s, us);
    var st := E.StateAfter(s, open, run);
    E.AfterValid(s, open, run);
    FinishThenStart(s, st, rest);
    RunIsBitString(s, run);
    Regroup([s.escChar], E.EncodeAll(s, open, run), E.CloseBytes(s, st), E.Encoded(s, rest));
    Regroup([s.escChar], RunDigits(s, run), [DASH], E.Encoded(s, rest));
    FinishedSplits(s, open, run, rest);
  }

  lemma Regroup<T>(a: seq<T>, b: seq<T>, c: seq<T>, d: seq<T>)
    ensures a + (b + (c + d)) == a + ((b + c) + d) == a + b + c + d
  {
  }

  lemma FinishedSplits(s: Scheme, st: E.EncState, a: seq<Unit>, b: seq<Unit>)
    ensures E.Finished(s, st, a + b) == E.EncodeAll(s, st, a) + E.Finished(s, E.StateAfter(s, st, a), b)
  {
    hide E.CloseBytes;
    OutputSplit(E.Encoder(s), st, a, b);
  }

  /** The unit-at-a-time encoder, finished, is the reference encoder. */
  lemma {:induction false} EncodedIsReference(s: Scheme, us: seq<Unit>)
    ensures E.Encoded(s, us) == Reference(s, us)
    decreases us
  {
    hide RunDigits;
    if us == [] {
      EncodeNothing(s, E.ENC_RESET);
    } else if Direct(s, us[0]) {
      L.EncodeFirst(s, E.ENC_RESET, us);
      EncodedIsReference(s, us[1..]);
    } else {
      var k := E.Stretch(s, us, false);
      assert us == us[..k] + us[k..] && 0 < k;
      RunThenRest(s, us[..k], us[k..]);
      EncodedIsReference(s, us[k..]);
    }
  }

  lemma ReferenceDirect(s: Scheme, u: Unit, rest: seq<Unit>)
    requires Direct(s, u)
    ensures Reference(s, [u] + rest) == (if u == s.escChar then [s.escChar, DASH] else [u % 0x100]) + Reference(s, rest)
  {
    assert ([u] + rest)[1..] == rest;
  }

  lemma ReferenceRun(s: Scheme, run: seq<Unit>, rest: seq<Unit>)
    requires NoneDirect(s, run) && (rest == [] || Direct(s, rest[0])) && run != []
    ensures Reference(s, run + rest) == [s.escChar] + RunDigits(s, run) + [DASH] + Reference(s, rest)
  {
    hide RunDigits;
    var us := run + rest;
    var k := E.Stretch(s, us, false);
    assert forall i :: 0 <= i < |run| ==> us[i] == run[i];
    assert rest != [] ==> us[|run|] == rest[0];
    assert k == |run|;
    assert us[..k] == run && us[k..] == rest && us[0] == run[0];
  }

  // ---- The canonical strings ----

  /** The digits of a canonical run: as many as some units need, padded with zero bits, and no
      unit that could have stood for itself. */
  predicate CanonicalRun(s: Scheme, ds: seq<Byte>) {
    && ds != [] && AllDigits(s, ds)
    && (|ds| % 8 == 0 || |ds| % 8 == 3 || |ds| % 8 == 6)
    && Num(SIXTY_FOUR, Values(s, ds)) % LeftFactor(|ds|) == 0
    && NoneDirect(s, Payload(s, ds))
  }

  /** A byte string made of direct characters other than the escape, of the pair for the escape if
      that is direct, and of closed canonical runs, no run directly after another. */
  predicate Canonical(s: Scheme, bs: seq<Byte>, afterRun: bool)
    decreases bs
  {
    if bs == [] then true
    else if bs[0] != s.escChar then Direct(s, bs[0]) && Canonical(s, bs[1..], false)
    else if |bs| == 1 then false
    else if bs[1] == DASH then Direct(s, s.escChar) && Canonical(s, bs[2..], false)
    else
      var k := D.DigitLength(s, bs[1..]);
      && !afterRun && CanonicalRun(s, bs[1..1 + k])
      && 1 + k < |bs| && bs[1 + k] == DASH && Canonical(s, bs[2 + k..], true)
  }

  /** What a canonical string stands for, read off its parts. */
  function Meaning(s: Scheme, bs: seq<Byte>, afterRun: bool): seq<Unit>
    requires Canonical(s, bs, afterRun)
    decreases bs
  {
    if bs == [] then []
    else if bs[0] != s.escChar then [bs[0]] + Meaning(s, bs[1..], false)
    else if bs[1] == DASH then [s.escChar] + Meaning(s, bs[2..], false)
    else
      var k := D.DigitLength(s, bs[1..]);
      Payload(s, bs[1..1 + k]) + Meaning(s, bs[2 + k..], true)
  }

  // ---- Runs both ways ----

  /** Digit counts and unit counts of runs determine each other. */
  lemma RunLengths(k: nat, n: nat)
    ensures n == DigitCount(k) ==>
              (n % 8 == 0 || n % 8 == 3 || n % 8 == 6) && k == 6 * n / 16 && LeftFactor(n) == PadFactor(k)
    ensures (n % 8 == 0 || n % 8 == 3 || n % 8 == 6) && k == 6 * n / 16 ==>
              n == DigitCount(k) && LeftFactor(n) == PadFactor(k)
  {
    var g, h := k / 3, n / 8;
    assert k == 3 * g + k % 3 && n == 8 * h + n % 8;
    if n == DigitCount(k) {
      assert 6 * n == 48 * g + 16 * (k % 3) + PadBits(k);
      assert n == 8 * g + [0, 3, 6][k % 3];
    }
    if n % 8 == 0 || n % 8 == 3 || n % 8 == 6 {
      assert 6 * n / 16 == 3 * h + 6 * (n % 8) / 16;
    }
  }

  /** The reference digits of units that are not direct form a canonical run with that payload. */
  lemma RunIsCanonical(s: Scheme, us: seq<Unit>)
    requires WellFormed(s) && us != [] && NoneDirect(s, us)
    ensures CanonicalRun(s, RunDigits(s, us)) && Payload(s, RunDigits(s, us)) == us
    ensures forall i :: 0 <= i < |RunDigits(s, us)| ==> RunDigits(s, us)[i] != DASH
  {
    hide Num, Chars, Values, WellFormed, DigitCount, PadFactor, LeftFactor, D.Weight, PadBits;
    var open := E.EncState(true, 0, 0);
    var n, ds := Num(UNIT_BASE, us) * PadFactor(|us|), RunDigits(s, us);
    var vs := Spell(SIXTY_FOUR, n, DigitCount(|us|));
    RunLengths(|us|, |ds|);
    ValuesOfChars(s, vs);
    RunNumber(s, us);
    assert Num(SIXTY_FOUR, Values(s, ds)) == n;
    Multiple(Num(UNIT_BASE, us), |us|);
    SpellNum(UNIT_BASE, us);
  }

  lemma Multiple(m: int, k: nat)
    ensures m * PadFactor(k) % PadFactor(k) == 0 && m * PadFactor(k) / PadFactor(k) == m
  {
  }

  /** The reference digits spell the number they were made from. */
  lemma RunNumber(s: Scheme, us: seq<Unit>)
    requires WellFormed(s) && NoneDirect(s, us)
    ensures var n := Num(UNIT_BASE, us) * PadFactor(|us|);
            Num(SIXTY_FOUR, Spell(SIXTY_FOUR, n, DigitCount(|us|))) == n
  {
    hide Num, Chars;
    var vs := PaddedSpells(s, us);
    SpellNum(SIXTY_FOUR, vs);
  }

  /** And a canonical run is the reference digits of its payload. */
  lemma CanonicalRunIsRun(s: Scheme, ds: seq<Byte>)
    requires WellFormed(s) && CanonicalRun(s, ds)
    ensures Payload(s, ds) != [] && RunDigits(s, Payload(s, ds)) == ds && NoneDirect(s, Payload(s, ds))
  {
    hide Num, Chars, Values, WellFormed, DigitCount, PadFactor, LeftFactor, D.Weight, PadBits, CharToValue;
    var us := Payload(s, ds);
    RunLengths(|us|, |ds|);
    var n := Num(SIXTY_FOUR, Values(s, ds));
    DecoderReadsBitString(s, D.DecState(true, 0, 0, true), ds);
    assert n == Num(UNIT_BASE, us) * PadFactor(|us|);
    CharsOfValues(s, ds);
    SpellNum(SIXTY_FOUR, Values(s, ds));
  }

  // ---- The two directions ----

  /** Every finished encoding is canonical and means its units. */
  lemma {:induction false} EncodedIsCanonical(s: Scheme, us: seq<Unit>, afterRun: bool)
    requires WellFormed(s) && (afterRun && us != [] ==> Direct(s, us[0]))
    ensures Canonical(s, Reference(s, us), afterRun) && Meaning(s, Reference(s, us), afterRun) == us
    decreases us
  {
    hide RunDigits, CanonicalRun, Payload, Reference, D.DigitLength, IsDigit, E.Stretch;
    if us == [] {
      ReferenceNothing(s);
    } else if Direct(s, us[0]) {
      EncodedIsCanonical(s, us[1..], false);
      assert us == [us[0]] + us[1..] && us[0] < 128;
      ReferenceDirect(s, us[0], us[1..]);
      var bs, rest := Reference(s, us), Reference(s, us[1..]);
      if us[0] == s.escChar {
        assert bs[2..] == rest;
      } else {
        assert bs[1..] == rest;
      }
    } else {
      var k := E.Stretch(s, us, false);
      StretchNonEmpty(s, us);
      assert us == us[..k] + us[k..];
      RunIsCanonical(s, us[..k]);
      EncodedIsCanonical(s, us[k..], true);
      ReferenceRun(s, us[..k], us[k..]);
      RunParses(s, RunDigits(s, us[..k]), Reference(s, us[k..]), afterRun);
    }
  }

  lemma StretchNonEmpty(s: Scheme, us: seq<Unit>)
    requires us != [] && !Direct(s, us[0])
    ensures 0 < E.Stretch(s, us, false)
  {
  }

  /** A run is read back from the bytes that follow the escape. */
  lemma RunParses(s: Scheme, ds: seq<Byte>, rest: seq<Byte>, afterRun: bool)
    requires WellFormed(s) && CanonicalRun(s, ds) && !afterRun && Canonical(s, rest, true)
    ensures var bs := [s.escChar] + ds + [DASH] + rest;
            Canonical(s, bs, afterRun) && Meaning(s, bs, afterRun) == Payload(s, ds) + Meaning(s, rest, true)
  {
    hide Num, Payload, LeftFactor, Values, CharToValue;
    var bs := [s.escChar] + ds + [DASH] + rest;
    CharsOfValues(s, ds);
    var tail := bs[1..];
    assert tail == ds + [DASH] + rest;
    var k := D.DigitLength(s, tail);
    assert !IsDigit(s, DASH) by { DashIsNoDigit(s); }
    assert tail[|ds|] == DASH && forall i :: 0 <= i < |ds| ==> tail[i] == ds[i] && IsDigit(s, ds[i]);
    assert k == |ds|;
    assert bs[1..1 + k] == ds && bs[2 + k..] == rest && bs[1] == ds[0];
  }

  lemma DashIsNoDigit(s: Scheme)
    requires WellFormed(s)
    ensures !IsDigit(s, DASH)
  {
  }

  /** Encoding the meaning of a canonical string gives back the string. */
  lemma {:induction false} CanonicalIsReference(s: Scheme, bs: seq<Byte>, afterRun: bool)
    requires WellFormed(s) && Canonical(s, bs, afterRun)
    ensures Reference(s, Meaning(s, bs, afterRun)) == bs
    ensures afterRun && Meaning(s, bs, afterRun) != [] ==> Direct(s, Meaning(s, bs, afterRun)[0])
    decreases bs
  {
    hide RunDigits, Payload, CanonicalRun, D.DigitLength, NoneDirect, E.Stretch, IsDigit, Reference;
    if bs == [] {
      assert Reference(s, []) == [] by { ReferenceNothing(s); }
    } else if bs[0] != s.escChar {
      CanonicalIsReference(s, bs[1..], false);
      ReferenceDirect(s, bs[0], Meaning(s, bs[1..], false));
      assert bs == [bs[0]] + bs[1..];
    } else if bs[1] == DASH {
      CanonicalIsReference(s, bs[2..], false);
      ReferenceDirect(s, s.escChar, Meaning(s, bs[2..], false));
      assert bs == [s.escChar, DASH] + bs[2..];
    } else {
      var k := D.DigitLength(s, bs[1..]);
      var ds, rest := bs[1..1 + k], Meaning(s, bs[2 + k..], true);
      CanonicalIsReference(s, bs[2 + k..], true);
      CanonicalRunIsRun(s, ds);
      ReferenceRun(s, Payload(s, ds), rest);
      CutAt(bs, k);
    }
  }

  lemma CutAt<T>(bs: seq<T>, k: nat)
    requires 1 + k < |bs|
    ensures bs == [bs[0]] + bs[1..1 + k] + [bs[1 + k]] + bs[2 + k..]
  {
  }

  lemma ReferenceNothing(s: Scheme)
    ensures Reference(s, []) == []
  {
  }

  /** Canonical inverse: the strings that survive decoding and encoding again, from any decoder in
      direct mode, are the canonical ones; and they are the finished encodings and nothing else. */
  lemma CanonicalInverse(s: Scheme, dst: D.DecState, bs: seq<Byte>)
    requires WellFormed(s) && !dst.base64
    ensures Canonical(s, bs, false) <==> E.Encoded(s, D.DecodeAll(s, dst, bs)) == bs
    ensures Canonical(s, bs, false) <==> exists us: seq<Unit> :: E.Encoded(s, us) == bs
    ensures Canonical(s, bs, false) ==> D.DecodeAll(s, dst, bs) == Meaning(s, bs, false)
  {
    hide E.Encoded, Canonical, Meaning, Reference, D.DecodeAll, WellFormed;
    forall us: seq<Unit> | E.Encoded(s, us) == bs
      ensures Canonical(s, bs, false)
    {
      EncodedIsReference(s, us);
      EncodedIsCanonical(s, us, false);
    }
    if Canonical(s, bs, false) {
      CanonicalIsReference(s, bs, false);
      EncodedIsReference(s, Meaning(s, bs, false));
      R.RoundTrip(s, dst, Meaning(s, bs, false));
    }
  }

  // ---- Section 5.1.3 of RFC 3501 ----

  /** In modified UTF-7 only printable ASCII bytes occur. */
  lemma {:induction false} CanonicalIsPrintable(signedChar: bool, bs: seq<Byte>, afterRun: bool)
    requires Canonical(ModifiedUtf7(signedChar), bs, afterRun)
    ensures forall i :: 0 <= i < |bs| ==> PrintableAscii(bs[i])
    decreases bs
  {
    hide Num, Payload, LeftFactor, Values;
    var s := ModifiedUtf7(signedChar);
    if bs == [] {
    } else if bs[0] != s.escChar {
      CanonicalIsPrintable(signedChar, bs[1..], false);
      assert bs == [bs[0]] + bs[1..];
    } else if bs[1] == DASH {
      CanonicalIsPrintable(signedChar, bs[2..], false);
      assert bs == [bs[0], bs[1]] + bs[2..];
    } else {
      var k := D.DigitLength(s, bs[1..]);
      CanonicalIsPrintable(signedChar, bs[2 + k..], true);
      CutAt(bs, k);
    }
  }

  /** IMAP mailbox names: a finished modified UTF-7 encoding is canonical and printable. */
  lemma MailboxName(signedChar: bool, us: seq<Unit>)
    ensures var s := ModifiedUtf7(signedChar);
            && Canonical(s, E.Encoded(s, us), false)
            && forall i :: 0 <= i < |E.Encoded(s, us)| ==> PrintableAscii(E.Encoded(s, us)[i])
  {
    hide E.Encoded, Canonical, Reference;
    var s := ModifiedUtf7(signedChar);
    EncodedIsReference(s, us);
    EncodedIsCanonical(s, us, false);
    CanonicalIsPrintable(signedChar, E.Encoded(s, us), false);
  }
}
