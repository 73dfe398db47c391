/** What the decoder makes of any bytes whatever, canonical or not: a reference that reads them piece
    by piece, with no state and no phases. */
module Utf7Parsing {
  import opened Transducer
  import opened Utf7Scheme
  import opened Utf7BitStrings
  import E = Utf7Encoding
  import D = Utf7Decoding
  import M = Utf7DecoderLaws

  /** A byte other than the escape is a character; the escape and '-' are the escape character; and
      the escape otherwise opens a run: all digits that follow, of which the complete 16-bit groups
      count, and then a '-' that belongs to it, if there is one. Whatever else ends a run is read as
      if there had been none. */
  function Parsed(s: Scheme, bs: seq<Byte>): seq<Unit>
    decreases |bs|
  {
    if bs == [] then []
    else if bs[0] != s.escChar then [Widen(s, bs[0])] + Parsed(s, bs[1..])
    else if 1 < |bs| && bs[1] == DASH then [s.escChar] + Parsed(s, bs[2..])
    else
      var k := D.DigitLength(s, bs[1..]);
      var rest := bs[1 + k..];
      Payload(s, bs[1..1 + k]) + Parsed(s, if rest != [] && rest[0] == DASH then rest[1..] else rest)
  }

  /** After at least one digit or none, what ends the run is read in direct mode, but for the '-'. */
  lemma RunEnds(s: Scheme, st: D.DecState, rest: seq<Byte>)
    requires WellFormed(s) && st.base64 && (rest != [] ==> !IsDigit(s, rest[0]) && (rest[0] == DASH ==> !st.atStart))
    ensures D.DecodeAll(s, st, rest) ==
            D.DecodeAll(s, D.DecState(false, 0, 0, false), if rest != [] && rest[0] == DASH then rest[1..] else rest)
  {
    var direct := D.DecState(false, 0, 0, false);
    hide CharToValue;
    if rest == [] {
      DecodeNothing(s, st);
      DecodeNothing(s, direct);
    } else {
      M.DecodeFirst(s, st, rest);
      M.DecodeFirst(s, direct, rest);
      var st1 := D.NextState(s, st, rest[0]);
      if rest[0] == s.escChar {
        assert st1 == D.NextState(s, direct, rest[0]);
      } else {
        M.StaleStateIsReset(s, st1, direct, rest[1..]);
      }
    }
  }

  /** A run and what follows it. */
  lemma RunIsPayload(s: Scheme, bs: seq<Byte>)
    requires WellFormed(s) && bs != [] && bs[0] == s.escChar && (1 < |bs| ==> bs[1] != DASH)
    ensures var k := D.DigitLength(s, bs[1..]);
            var rest := bs[1 + k..];
            var direct := D.DecState(false, 0, 0, false);
            D.DecodeAll(s, direct, bs) ==
            Payload(s, bs[1..1 + k]) + D.DecodeAll(s, direct, if rest != [] && rest[0] == DASH then rest[1..] else rest)
  {
    hide Payload, IsDigit, WellFormed, D.DigitLength;
    var direct, open := D.DecState(false, 0, 0, false), D.DecState(true, 0, 0, true);
    var k := D.DigitLength(s, bs[1..]);
    var ds, rest := bs[1..1 + k], bs[1 + k..];
    M.DecodeFirst(s, direct, bs);
    assert bs[1..] == ds + rest && forall i :: 0 <= i < k ==> ds[i] == bs[1..][i];
    assert rest != [] ==> rest[0] == bs[1..][k];
    OutputSplit(D.Decoder(s), open, ds, rest);
    DigitsRead(s, open, ds);
    DecoderReadsBitString(s, open, ds);
    DecodeNothing(s, open);
    RunEnds(s, D.StateAfter(s, open, ds), rest);
  }

  /** The decoder in direct mode, whatever the rest of its state, reads any bytes as the reference. */
  lemma {:induction false} DecodedIsParsed(s: Scheme, dst: D.DecState, bs: seq<Byte>)
    requires WellFormed(s) && !dst.base64
    ensures D.DecodeAll(s, dst, bs) == Parsed(s, bs)
    decreases |bs|
  {
    hide Payload, D.DecodeAll, D.StateAfter, D.DigitLength, WellFormed;
    var direct := D.DecState(false, 0, 0, false);
    M.StaleStateIsReset(s, dst, direct, bs);
    if bs == [] {
      DecodeNothing(s, direct);
    } else if bs[0] != s.escChar {
      M.DecodeFirst(s, direct, bs);
      DecodedIsParsed(s, direct, bs[1..]);
    } else if 1 < |bs| && bs[1] == DASH {
      EscapePair(s, bs);
      DecodedIsParsed(s, direct, bs[2..]);
    } else {
      RunIsPayload(s, bs);
      var rest := bs[1 + D.DigitLength(s, bs[1..])..];
      DecodedIsParsed(s, direct, if rest != [] && rest[0] == DASH then rest[1..] else rest);
    }
  }

  lemma EscapePair(s: Scheme, bs: seq<Byte>)
    requires WellFormed(s) && 1 < |bs| && bs[0] == s.escChar && bs[1] == DASH
    ensures var direct := D.DecState(false, 0, 0, false);
            D.DecodeAll(s, direct, bs) == [s.escChar] + D.DecodeAll(s, direct, bs[2..])
  {
    var direct := D.DecState(false, 0, 0, false);
    M.DecodeFirst(s, direct, bs);
    M.DecodeFirst(s, D.Enter(direct), bs[1..]);
    assert bs[1..][1..] == bs[2..];
    M.StaleStateIsReset(s, D.Leave(D.Enter(direct)), direct, bs[2..]);
  }

  // ---- Bytes above 127 ----

  /** A byte as the compiler's plain `char`, and a unit as a signed 16-bit number. */
  function CharValue(s: Scheme, b: Byte): int {
    if s.signedChar && 0x80 <= b then b - 0x100 else b
  }

  /** A character keeps its value: it is the unit itself, or the unit less 2^16 if it is negative. */
  lemma WidenKeepsValue(s: Scheme, b: Byte)
    ensures CharValue(s, b) == if CharValue(s, b) < 0 then Widen(s, b) - 0x1_0000 else Widen(s, b)
  {
  }
}
