/** The two converters that are built from the codec, told apart by what they do to text. */
module Utf7Instances {
  import opened Transducer
  import opened Utf7Scheme
  import opened Utf7BitStrings
  import opened Utf7Canonical
  import E = Utf7Encoding
  import D = Utf7Decoding
  import L = Utf7EncoderLaws
  import M = Utf7DecoderLaws
  import R = Utf7RoundTrip

  /** Characters as the bytes that stand for them. */
  function Ascii(text: string): (bs: seq<Byte>)
    requires forall i :: 0 <= i < |text| ==> text[i] < 128 as char
    ensures |bs| == |text| && forall i :: 0 <= i < |bs| ==> bs[i] == text[i] as int
  {
    seq(|text|, i requires 0 <= i < |text| => text[i] as int)
  }

  // ---- Text that stands for itself ----

  ghost predicate ForItself(s: Scheme, us: seq<Unit>) {
    forall u :: u in us ==> Direct(s, u) && u != s.escChar
  }

  lemma {:induction false} ReferenceGrows(s: Scheme, us: seq<Unit>)
    ensures |us| <= |Reference(s, us)|
    ensures !ForItself(s, us) ==> |us| < |Reference(s, us)|
    decreases us
  {
    hide RunDigits;
    if us == [] {
    } else if Direct(s, us[0]) {
      ReferenceGrows(s, us[1..]);
      assert us == [us[0]] + us[1..];
    } else {
      var k := E.Stretch(s, us, false);
      assert |RunDigits(s, us[..k])| == DigitCount(k) && k <= DigitCount(k);
      ReferenceGrows(s, us[k..]);
    }
  }

  lemma {:induction false} ReferenceKeeps(s: Scheme, us: seq<Unit>)
    requires WellFormed(s) && ForItself(s, us)
    ensures Reference(s, us) == us
    decreases us
  {
    hide RunDigits, E.Stretch, WellFormed, Direct, Reference;
    if us == [] {
      ReferenceNothing(s);
    } else {
      DirectIsAscii(s, us[0]);
      assert us == [us[0]] + us[1..];
      assert forall u :: u in us[1..] ==> u in us;
      ReferenceKeeps(s, us[1..]);
      ReferenceDirect(s, us[0], us[1..]);
    }
  }

  lemma DirectIsAscii(s: Scheme, u: Unit)
    requires WellFormed(s)
    ensures Direct(s, u) ==> u < 128
  {
  }

  lemma TextStaysIff(s: Scheme, us: seq<Unit>)
    requires WellFormed(s)
    ensures E.Encoded(s, us) == us <==> ForItself(s, us)
  {
    hide E.Encoded, Reference, WellFormed, ForItself;
    EncodedIsReference(s, us);
    ReferenceGrows(s, us);
    if ForItself(s, us) {
      ReferenceKeeps(s, us);
    }
  }

  /** Modified UTF-7 leaves a name as it is exactly if it has printable ASCII characters only, and
      no ampersand. */
  lemma PrintableStays(signedChar: bool, us: seq<Unit>)
    ensures E.Encoded(ModifiedUtf7(signedChar), us) == us <==> forall u :: u in us ==> ' ' as int <= u <= '~' as int && u != '&' as int
  {
    hide E.Encoded;
    TextStaysIff(ModifiedUtf7(signedChar), us);
  }

  const PLAIN_TEXT := UPPER + LOWER + DIGITS + "'(),-./:? \t\r\n<!\">=;[]"

  lemma PlainText(c: Unit)
    ensures Utf7Direct(c) <==> c < 128 && c as char in PLAIN_TEXT
  {
    hide UPPER, LOWER, DIGITS;
    if c < 128 {
      var d := c as char;
      LetterOrDigit(d);
      RestOfPlainText(d);
      assert d in PLAIN_TEXT <==> d in UPPER + LOWER + DIGITS || d in "'(),-./:? \t\r\n<!\">=;[]";
    }
  }

  lemma LetterOrDigit(d: char)
    ensures d in UPPER + LOWER + DIGITS <==> Alphanumeric(d as int)
  {
    assert forall i :: 0 <= i < |UPPER| ==> UPPER[i] as int == 65 + i;
    assert forall i :: 0 <= i < |LOWER| ==> LOWER[i] as int == 97 + i;
    assert forall i :: 0 <= i < |DIGITS| ==> DIGITS[i] as int == 48 + i;
    var c := d as int;
    assert 65 <= c <= 90 ==> UPPER[c - 65] == d;
    assert 97 <= c <= 122 ==> LOWER[c - 97] == d;
    assert 48 <= c <= 57 ==> DIGITS[c - 48] == d;
  }

  lemma RestOfPlainText(d: char)
    ensures d in "'(),-./:? \t\r\n<!\">=;[]" <==>
            var c := d as int;
            || 39 <= c <= 41 || 44 <= c <= 47 || c == 58 || c == 63 || c == 32 || c == 9 || c == 13 || c == 10
            || c == 60 || c == 33 || c == 34 || c == 62 || c == 61 || c == 59 || c == 91 || c == 93
  {
    var rest := "'(),-./:? \t\r\n<!\">=;[]";
    assert rest[0] as int == 39 && rest[1] as int == 40 && rest[2] as int == 41;
    assert rest[3] as int == 44 && rest[4] as int == 45 && rest[5] as int == 46 && rest[6] as int == 47;
    assert rest[7] as int == 58 && rest[8] as int == 63 && rest[9] as int == 32 && rest[10] as int == 9;
    assert rest[11] as int == 13 && rest[12] as int == 10 && rest[13] as int == 60 && rest[14] as int == 33;
    assert rest[15] as int == 34 && rest[16] as int == 62 && rest[17] as int == 61 && rest[18] as int == 59;
    assert rest[19] as int == 91 && rest[20] as int == 93 && |rest| == 21;
  }

  /** Plain UTF-7 leaves text as it is exactly if it has these characters only, '+' not among them. */
  lemma PlainTextStays(signedChar: bool, us: seq<Unit>)
    ensures E.Encoded(PlainUtf7(signedChar), us) == us <==> forall u :: u in us ==> u < 128 && u as char in PLAIN_TEXT
  {
    hide E.Encoded;
    TextStaysIff(PlainUtf7(signedChar), us);
    forall u | u in us ensures (Direct(PlainUtf7(signedChar), u) && u != '+' as int) <==> u < 128 && u as char in PLAIN_TEXT {
      PlainText(u);
    }
  }

  // ---- Text in base64 ----

  const MODIFIED_BASE64 := UPPER + LOWER + DIGITS + "+,"

  /** Byte `j` comes after the '&' at `i`, and before the next '-'. */
  predicate Within(bs: seq<Byte>, i: int, j: int) {
    0 <= i < j < |bs| && bs[i] == '&' as int && forall k :: i < k <= j ==> bs[k] != '-' as int
  }

  lemma WithinBounds(bs: seq<Byte>, i: int, j: int)
    requires Within(bs, i, j)
    ensures 0 <= i < j < |bs|
  {
  }

  lemma WithinRest(bs: seq<Byte>, n: nat, i: int, j: int)
    requires Within(bs, i, j) && n <= i
    ensures n <= |bs| && Within(bs[n..], i - n, j - n) && bs[n..][j - n] == bs[j]
  {
  }

  /** Between '&' and the next '-' only the digits of modified base64 occur. */
  lemma {:induction false} DigitsOfCanonical(signedChar: bool, bs: seq<Byte>, afterRun: bool, i: int, j: int)
    requires Canonical(ModifiedUtf7(signedChar), bs, afterRun) && Within(bs, i, j)
    ensures bs[j] as char in MODIFIED_BASE64
    decreases bs
  {
    hide CanonicalRun, Payload, IsDigit, ModifiedUtf7, Direct, D.DigitLength, Within;
    var s := ModifiedUtf7(signedChar);
    WithinBounds(bs, i, j);
    EscapeIsAmpersand(signedChar);
    var n := PieceLength(s, bs, i, j);
    if n <= i {
      WithinRest(bs, n, i, j);
      DigitsOfCanonical(signedChar, bs[n..], bs[0] == s.escChar && bs[1] != DASH, i - n, j - n);
    } else {
      ModifiedDigit(signedChar, bs[j]);
    }
  }

  /** The length of the first piece: a character, a pair, or a run, in which `j` is a digit if `i` is
      its opening. */
  lemma PieceLength(s: Scheme, bs: seq<Byte>, i: int, j: int) returns (n: nat)
    requires s.escChar == '&' as int && !IsDigit(s, '&' as int) && bs != [] && Within(bs, i, j)
    requires bs[0] == s.escChar && |bs| > 1 && bs[1] != DASH ==> 1 + D.DigitLength(s, bs[1..]) < |bs|
    requires bs[0] == s.escChar && |bs| > 1 && bs[1] != DASH ==> bs[1 + D.DigitLength(s, bs[1..])] == DASH
    ensures n == if bs[0] != s.escChar then 1 else if bs[1] == DASH then 2 else 2 + D.DigitLength(s, bs[1..])
    ensures n <= i || IsDigit(s, bs[j])
  {
    hide IsDigit;
    if bs[0] != s.escChar {
      n := 1;
    } else if bs[1] == DASH {
      n := 2;
    } else {
      var k := D.DigitLength(s, bs[1..]);
      assert forall e :: 1 <= e <= k ==> bs[e] == bs[1..][e - 1] && IsDigit(s, bs[e]);
      n := 2 + k;
    }
  }

  lemma EscapeIsAmpersand(signedChar: bool)
    ensures var s := ModifiedUtf7(signedChar); s.escChar == '&' as int && !IsDigit(s, '&' as int)
  {
  }

  lemma ModifiedDigit(signedChar: bool, b: Byte)
    requires IsDigit(ModifiedUtf7(signedChar), b)
    ensures b as char in MODIFIED_BASE64
  {
    var s := ModifiedUtf7(signedChar);
    ValueOfChar(s, b);
    var v := CharToValue(s, b);
    TableIsBase64(s, v);
    assert (UPPER + LOWER + DIGITS + "+,")[v] == b as char;
  }

  /** Every '&' in an encoded name is followed by digits of modified base64 up to the next '-'; and a
      name that starts with a character that is not printable starts with '&'. */
  lemma NameUsesModifiedBase64(signedChar: bool, us: seq<Unit>)
    ensures var bs := E.Encoded(ModifiedUtf7(signedChar), us);
            && (forall i, j :: Within(bs, i, j) ==> bs[j] as char in MODIFIED_BASE64)
            && (us != [] && !(' ' as int <= us[0] <= '~' as int) ==> bs != [] && bs[0] == '&' as int)
  {
    hide E.Encoded, Canonical, Reference, RunDigits;
    var s := ModifiedUtf7(signedChar);
    var bs := E.Encoded(s, us);
    MailboxName(signedChar, us);
    forall i, j | Within(bs, i, j) ensures bs[j] as char in MODIFIED_BASE64 {
      DigitsOfCanonical(signedChar, bs, false, i, j);
    }
    if us != [] && !Direct(s, us[0]) {
      OpenRun(s, us);
    }
  }

  // ---- Known answers ----

  /** Taipei, as section 5.1.3 of RFC 3501 writes it; and the ampersand. */
  lemma KnownName(signedChar: bool)
    ensures E.Encoded(ModifiedUtf7(signedChar), [0x53f0, 0x5317]) == Ascii("&U,BTFw-")
    ensures E.Encoded(ModifiedUtf7(signedChar), ['&' as int]) == Ascii("&-")
  {
    hide E.Finished, E.EncodeUnit, E.NextState, ModifiedUtf7;
    var s := ModifiedUtf7(signedChar);
    KnownNameUnits(signedChar);
    var us, st1, st2 := [0x53f0, 0x5317], E.EncState(true, 0, 1), E.EncState(true, 48, 2);
    L.EncodeFirst(s, E.ENC_RESET, us);
    assert us[1..] == [0x5317] && [0x5317][1..] == [];
    L.EncodeFirst(s, st1, [0x5317]);
    L.FinishedNothing(s, st2);
    L.EncodeFirst(s, E.ENC_RESET, [38]);
    assert [38][1..] == [];
    L.FinishedNothing(s, E.ENC_RESET);
  }

  lemma KnownNameUnits(signedChar: bool)
    ensures var s, st1, st2 := ModifiedUtf7(signedChar), E.EncState(true, 0, 1), E.EncState(true, 48, 2);
            && E.NextState(s, E.ENC_RESET, 0x53f0) == st1 && E.EncodeUnit(s, E.ENC_RESET, 0x53f0) == [38, 85, 44]
            && E.NextState(s, st1, 0x5317) == st2 && E.EncodeUnit(s, st1, 0x5317) == [66, 84, 70]
            && E.CloseBytes(s, st2) == [119, 45]
            && E.NextState(s, E.ENC_RESET, 38) == E.ENC_RESET && E.EncodeUnit(s, E.ENC_RESET, 38) == [38, 45]
  {
  }

  /** The last digit and the escape of plain UTF-7. */
  lemma KnownText(signedChar: bool)
    ensures E.Encoded(PlainUtf7(signedChar), [0xffff]) == Ascii("+//8-")
    ensures E.Encoded(PlainUtf7(signedChar), ['+' as int]) == Ascii("+ACs-")
  {
    hide E.Finished;
    var s := PlainUtf7(signedChar);
    L.EncodeFirst(s, E.ENC_RESET, [0xffff]);
    L.EncodeFirst(s, E.ENC_RESET, [43]);
    assert [0xffff][1..] == [] && [43][1..] == [];
    assert E.NextState(s, E.ENC_RESET, 0xffff) == E.EncState(true, 60, 1) && E.NextState(s, E.ENC_RESET, 43) == E.EncState(true, 44, 1);
    L.FinishedNothing(s, E.EncState(true, 60, 1));
    L.FinishedNothing(s, E.EncState(true, 44, 1));
  }
}
