/** How the mail code uses the codec for IMAP mailbox names: one encoder emptied through a buffer of
    a hundred bytes, and one decoder call with a unit of room for each byte. */
module MailboxNames {
  import opened Buffers
  import opened Transducer
  import opened Utf7Scheme
  import E = Utf7Encoding
  import D = Utf7Decoding
  import L = Utf7EncoderLaws
  import M = Utf7DecoderLaws
  import P = Utf7Parsing
  import R = Utf7RoundTrip
  import Encoder = Utf7Encoder
  import Decoder = Utf7Decoder

  const BUFFER_LENGTH := 100

  /** The pair of a direct escape would begin on the last byte left. */
  predicate PairOnEnd(s: Scheme, st: E.EncState, u: Unit, left: int) {
    u == s.escChar && Direct(s, u) && |E.OpenBytes(s, st, u)| == left - 1
  }

  /** No escape pair falls on the end of a buffer when units are encoded into one buffer after
      another, the first of them with `left` bytes left: found by counting, unit by unit. A unit that
      lacks room waits for the next buffer, its mode change begun in this one. */
  predicate PairsFit(s: Scheme, st: E.EncState, us: seq<Unit>, left: int)
    decreases us, if left < 3 then 1 else 0
  {
    us == [] ||
    if left < L.Need(s, st, us[0]) then
      PairsFit(s, E.Shift(s, st, !Direct(s, us[0]), left).st, us, BUFFER_LENGTH)
    else
      && !PairOnEnd(s, st, us[0], left)
      && PairsFit(s, E.NextState(s, st, us[0]), us[1..], left - |E.EncodeUnit(s, st, us[0])|)
  }

  lemma UnitNeeds(s: Scheme, st: E.EncState, u: Unit, room: int)
    requires E.EncValid(st)
    ensures L.Need(s, st, u) <= |E.EncodeUnit(s, st, u)|
    ensures PairOnEnd(s, st, u, room) ==> L.Need(s, st, u) == room
    ensures !PairOnEnd(s, st, u, room) && L.Need(s, st, u) <= room ==> |E.EncodeUnit(s, st, u)| <= room
    ensures var r := E.EncodeStep(s, st, u, room);
            && (r.status == Ok <==> L.Need(s, st, u) <= room)
            && (r.status != Ok ==> r.st == E.Shift(s, st, !Direct(s, u), room).st && r.read == 0)
  {
    hide ValueToChar;
    E.ShiftResumes(s, st, u, room);
  }

  /** Counting through one call and then on from where it stopped. */
  lemma {:induction false} FitsCall(s: Scheme, st: E.EncState, us: seq<Unit>, left: nat)
    requires E.EncValid(st)
    ensures var r := E.EncodeCall(s, st, us, left);
            && r.read <= |us|
            && (PairsFit(s, st, us, left) <==>
                  !L.PairAtEnd(s, st, us, left) && PairsFit(s, r.st, us[r.read..], BUFFER_LENGTH))
    decreases us
  {
    hide E.EncodeStep, E.EncodeCall, E.EncodeUnit, E.NextState, E.Shift, E.EncValid, L.Need, E.OpenBytes;
    if us == [] {
      E.CallOfNothing(s, st, left);
    } else {
      var left' := left - |E.EncodeUnit(s, st, us[0])|;
      L.CallFirst(s, st, us, left);
      UnitNeeds(s, st, us[0], left);
      E.StepParts(s, st, us[0], left);
      var r := E.EncodeStep(s, st, us[0], left);
      if left < L.Need(s, st, us[0]) {
        L.NoPairWithoutRoom(s, E.NextState(s, st, us[0]), us[1..], left');
        assert us[0..] == us;
      } else if PairOnEnd(s, st, us[0], left) {
        FinishedResumes(s, st, us, left);
      } else {
        FitsCall(s, r.st, us[1..], left');
        var r' := E.EncodeCall(s, r.st, us[1..], left');
        assert us[1..][r'.read..] == us[1 + r'.read..];
      }
    }
  }

  /** The calls of the copying loop. */
  function CopyCalls(s: Scheme, st: E.EncState, us: seq<Unit>): seq<E.EncRun>
    decreases us
  {
    if us == [] then []
    else
      var r := E.EncodeCall(s, st, us, BUFFER_LENGTH);
      [r] + if 0 < r.read <= |us| then CopyCalls(s, r.st, us[r.read..]) else []
  }

  /** The copy stays inside its buffer exactly when no escape pair falls on the end of it. */
  lemma {:induction false} CopyFitsIffPairsFit(s: Scheme, st: E.EncState, us: seq<Unit>)
    requires E.EncValid(st)
    ensures (forall r :: r in CopyCalls(s, st, us) ==> |r.out| <= BUFFER_LENGTH) <==> PairsFit(s, st, us, BUFFER_LENGTH)
    decreases us
  {
    hide E.EncodeCall, L.PairAtEnd, E.EncValid, L.Need;
    if us != [] {
      var r := E.EncodeCall(s, st, us, BUFFER_LENGTH);
      L.OverrunIffPairAtEnd(s, st, us, BUFFER_LENGTH);
      L.CallTakes(s, st, us, BUFFER_LENGTH);
      FinishedResumes(s, st, us, BUFFER_LENGTH);
      FitsCall(s, st, us, BUFFER_LENGTH);
      var rest := CopyCalls(s, r.st, us[r.read..]);
      assert CopyCalls(s, st, us) == [r] + rest;
      assert forall c :: c in [r] + rest <==> c == r || c in rest;
      CopyFitsIffPairsFit(s, r.st, us[r.read..]);
    }
  }

  /** Names without the escape always fit. */
  lemma {:induction false} FitsWithoutEscape(s: Scheme, st: E.EncState, us: seq<Unit>, left: int)
    requires s.escChar !in us || !Direct(s, s.escChar)
    ensures PairsFit(s, st, us, left)
    decreases us, if left < 3 then 1 else 0
  {
    hide E.EncodeUnit, E.OpenBytes, E.NextState, E.Shift, L.Need;
    if us != [] {
      if left < L.Need(s, st, us[0]) {
        FitsWithoutEscape(s, E.Shift(s, st, !Direct(s, us[0]), left).st, us, BUFFER_LENGTH);
      } else {
        FitsWithoutEscape(s, E.NextState(s, st, us[0]), us[1..], left - |E.EncodeUnit(s, st, us[0])|);
      }
    }
  }

  function Plain(n: nat, u: Unit): seq<Unit> {
    if n == 0 then [] else [u] + Plain(n - 1, u)
  }

  lemma PlainUnit(s: Scheme, u: Unit)
    requires Direct(s, u)
    ensures L.Need(s, E.ENC_RESET, u) == 1 && |E.OpenBytes(s, E.ENC_RESET, u)| == 0
    ensures E.NextState(s, E.ENC_RESET, u) == E.ENC_RESET && E.Shift(s, E.ENC_RESET, false, 0).st == E.ENC_RESET
    ensures u != s.escChar ==> |E.EncodeUnit(s, E.ENC_RESET, u)| == 1
  {
  }

  lemma {:induction false} PlainThenEscape(s: Scheme, u: Unit, n: nat, left: nat)
    requires Direct(s, u) && u != s.escChar && Direct(s, s.escChar) && left <= BUFFER_LENGTH
    ensures PairsFit(s, E.ENC_RESET, Plain(n, u) + [s.escChar], left) <==> (n - left) % BUFFER_LENGTH != BUFFER_LENGTH - 1
    decreases n, if left < 3 then 1 else 0
  {
    hide E.EncodeUnit, E.OpenBytes, E.NextState, E.Shift, L.Need;
    var us := Plain(n, u) + [s.escChar];
    PlainUnit(s, us[0]);
    if left == 0 {
      PlainThenEscape(s, u, n, BUFFER_LENGTH);
    } else if n == 0 {
      assert us[1..] == [];
    } else {
      assert us[0] == u && us[1..] == Plain(n - 1, u) + [s.escChar];
      PlainThenEscape(s, u, n - 1, left - 1);
    }
  }

  /** Plain characters and then the escape: the pair falls on the end of a buffer exactly when it
      comes after 99, 199, 299 and so on. */
  lemma EscapeOnTheEnd(s: Scheme, u: Unit, n: nat)
    requires Direct(s, u) && u != s.escChar && Direct(s, s.escChar)
    ensures PairsFit(s, E.ENC_RESET, Plain(n, u) + [s.escChar], BUFFER_LENGTH) <==> n % 100 != 99
  {
    PlainThenEscape(s, u, n, BUFFER_LENGTH);
  }

  /** Taking some units and encoding the rest later does not change the finished encoding. */
  lemma FinishedResumes(s: Scheme, st: E.EncState, us: seq<Unit>, room: int)
    requires E.EncValid(st)
    ensures var r := E.EncodeCall(s, st, us, room);
            && r.read <= |us| && E.EncValid(r.st)
            && E.Finished(s, st, us) == r.out + E.Finished(s, r.st, us[r.read..])
  {
    hide Feed, Output, After, E.CloseBytes;
    E.EncoderLawful(s);
    FeedResumes(E.Encoder(s), st, us, room);
  }

  /** `neighbour` is the byte that lies behind the buffer in memory. The name is encoded whole in any
      case; the neighbour is lost, to the '-' of an escape pair, exactly when pairs do not fit. */
  method CopyUTF16toMUTF7(src: seq<Unit>, signedChar: bool, neighbour: Byte) returns (name: seq<Byte>, neighbour': Byte)
    ensures name == E.Encoded(ModifiedUtf7(signedChar), src)
    ensures neighbour' == if PairsFit(ModifiedUtf7(signedChar), E.ENC_RESET, src, BUFFER_LENGTH) then neighbour else DASH
  {
    hide Feed, Wrote, E.Finished, E.EncodeCall, L.PairAtEnd, ModifiedUtf7, PairsFit;
    var s := ModifiedUtf7(signedChar);
    var converter := new Encoder.BasicUTF7Encoder(s);
    var buffer := new Byte[BUFFER_LENGTH + 1];
    buffer[BUFFER_LENGTH] := neighbour;
    var rest := src;
    name := [];
    while rest != []
      invariant converter.Valid() && converter.scheme == s
      invariant E.Encoded(s, src) == name + E.Finished(s, converter.State(), rest)
      invariant Overwritten(s, src, converter.State(), rest, neighbour, buffer[BUFFER_LENGTH])
      decreases |rest|
    {
      ghost var st := converter.State();
      ghost var r := E.EncodeCall(s, st, rest, BUFFER_LENGTH);
      ghost var before := buffer[..];
      L.OverrunIffPairAtEnd(s, st, rest, BUFFER_LENGTH);
      L.CallTakes(s, st, rest, BUFFER_LENGTH);
      FinishedResumes(s, st, rest, BUFFER_LENGTH);
      FitsCall(s, st, rest, BUFFER_LENGTH);
      var status, read, written := converter.ConvertNoBuffNoErr(rest, buffer, 0, BUFFER_LENGTH);
      WroteRead(before, buffer[..], 0, r.out);
      assert buffer[..written] == buffer[..][..written];
      assert buffer[BUFFER_LENGTH] == buffer[..][BUFFER_LENGTH];
      name := name + buffer[..written];
      rest := rest[read..];
    }
    ghost var st := converter.State();
    ghost var before := buffer[..];
    L.FinishResets(s, st, BUFFER_LENGTH);
    L.FinishedNothing(s, st);
    NothingFits(s, st);
    var status, written := converter.FinishNoBuff(buffer, 0, BUFFER_LENGTH);
    WroteRead(before, buffer[..], 0, E.CloseBytes(s, st));
    assert buffer[..written] == buffer[..][..written];
    assert buffer[BUFFER_LENGTH] == buffer[..][BUFFER_LENGTH];
    if written > 0 {
      name := name + buffer[..written];
    }
    neighbour' := buffer[BUFFER_LENGTH];
  }

  /** The byte behind the buffer is lost, or whether it will be is up to the rest. */
  ghost predicate Overwritten(s: Scheme, src: seq<Unit>, st: E.EncState, rest: seq<Unit>, was: Byte, now: Byte) {
    var fits := PairsFit(s, E.ENC_RESET, src, BUFFER_LENGTH);
    (now == DASH && !fits) || (now == was && (fits <==> PairsFit(s, st, rest, BUFFER_LENGTH)))
  }

  lemma NothingFits(s: Scheme, st: E.EncState)
    ensures PairsFit(s, st, [], BUFFER_LENGTH)
  {
  }

  /** Decodes any name; a name made by the copy above comes back as it was. */
  method CopyMUTF7toUTF16(src: seq<Byte>, signedChar: bool, leftover: bool) returns (units: seq<Unit>)
    ensures units == P.Parsed(ModifiedUtf7(signedChar), src)
    ensures forall us: seq<Unit> :: E.Encoded(ModifiedUtf7(signedChar), us) == src ==> units == us
  {
    hide Feed, Wrote, E.Finished, D.DecodeCall, D.DecodeAll, ModifiedUtf7, P.Parsed;
    var s := ModifiedUtf7(signedChar);
    var converter := new Decoder.BasicUTF7Decoder(s, leftover);
    var buffer := new Unit[|src|];
    ghost var before, st := buffer[..], converter.State();
    M.Total(s, st, src, |src|);
    var status, read, written := converter.ConvertNoBuff(src, buffer, 0, |src|);
    assert read == |src|;
    WroteRead(before, buffer[..], 0, D.DecodeAll(s, st, src));
    assert buffer[..written] == buffer[..][..written];
    units := buffer[..written];
    P.DecodedIsParsed(s, st, src);
    forall us: seq<Unit> | E.Encoded(s, us) == src
      ensures units == us
    {
      R.RoundTrip(s, st, us);
    }
  }
}
