/** nsBasicUTF7Encoder: the run-by-run encoder that fills a caller's buffer, proved to do what the
    unit-at-a-time machine does. */
module Utf7Encoder {
  import opened Buffers
  import opened Transducer
  import opened Utf7Scheme
  import opened Utf7Encoding

  const ENC_DIRECT := 0
  const ENC_BASE64 := 1

  /** In direct mode the next unit of a stretch is either all written or not touched. */
  lemma DirectNext(s: Scheme, st: EncState, us: seq<Unit>, i: nat, k: nat, out: seq<Byte>, room: int)
    requires i < k <= |us| && !st.base64 && Direct(s, us[i])
    requires EncodeCall(s, st, us[..i], room) == Run(st, i, out, Ok)
    ensures var r, o := EncodeCall(s, st, us[..k], room), UnitBytes(s, st, us[i]);
            if room - |out| < 1 then r == Run(st, i, out, MoreOutput)
            else EncodeCall(s, st, us[..i + 1], room) == Run(st, i + 1, out + o, Ok) && |out + o| <= |r.out|
  {
    FeedOneMore(Encoder(s), st, us, i, room);
    FeedGrows(Encoder(s), st, us, i + 1, k, room);
    var e := EncodeStep(s, st, us[i], room - |out|);
    assert Encoder(s).step(st, us[i], room - |out|) == e;
    assert [] + UnitBytes(s, st, us[i]) == UnitBytes(s, st, us[i]);
    assert out + [] == out;
  }

  /** In base64 mode likewise. */
  lemma Base64Next(s: Scheme, st: EncState, st': EncState, us: seq<Unit>, i: nat, k: nat, out: seq<Byte>, room: int)
    requires i < k <= |us| && st'.base64 && !Direct(s, us[i])
    requires EncodeCall(s, st, us[..i], room) == Run(st', i, out, Ok)
    ensures var r, o := EncodeCall(s, st, us[..k], room), UnitBytes(s, st', us[i]);
            if room - |out| < Guard(s, st', us[i]) then r == Run(st', i, out, MoreOutput)
            else EncodeCall(s, st, us[..i + 1], room) == Run(UnitState(s, st', us[i]), i + 1, out + o, Ok)
                 && |out + o| <= |r.out|
  {
    FeedOneMore(Encoder(s), st, us, i, room);
    FeedGrows(Encoder(s), st, us, i + 1, k, room);
    var e := EncodeStep(s, st', us[i], room - |out|);
    assert Encoder(s).step(st', us[i], room - |out|) == e;
    assert [] + UnitBytes(s, st', us[i]) == UnitBytes(s, st', us[i]);
    assert out + [] == out;
  }

  /** Shifting first and then writing the unit is what the step does. */
  lemma StepShifts(s: Scheme, st: EncState, u: Unit, room: int)
    ensures var m, sh := Encoder(s), Shift(s, st, !Direct(s, u), room);
            m.step(st, u, room) == if sh.status != Ok then sh else Then(sh, m.step(sh.st, u, room - |sh.out|))
  {
    var sh := Shift(s, st, !Direct(s, u), room);
    if sh.status == Ok {
      assert sh.out + [] == sh.out;
      assert Shift(s, sh.st, !Direct(s, u), room - |sh.out|) == Run(sh.st, 0, [], Ok);
      assert [] + UnitBytes(s, sh.st, u) == UnitBytes(s, sh.st, u);
      assert EncodeStep(s, st, u, room) == Then(sh, EncodeStep(s, sh.st, u, room - |sh.out|));
    }
  }

  lemma ShiftThenStretch(s: Scheme, st: EncState, us: seq<Unit>, room: int)
    requires us != []
    ensures var sh := Shift(s, st, !Direct(s, us[0]), room);
            EncodeCall(s, st, us, room) ==
            if sh.status != Ok then sh else Then(sh, EncodeCall(s, sh.st, us, room - |sh.out|))
  {
    StepShifts(s, st, us[0], room);
    FeedPrelude(Encoder(s), st, Shift(s, st, !Direct(s, us[0]), room), us, room);
  }

  /** Going on with the next stretch extends the call. */
  lemma StretchNext(s: Scheme, st: EncState, st': EncState, us: seq<Unit>, i: nat, k: nat, out: seq<Byte>, room: int)
    requires EncValid(st') && i + k <= |us|
    requires EncodeCall(s, st, us[..i], room) == Run(st', i, out, Ok)
    ensures var en, all := EncodeCall(s, st', us[i..][..k], room - |out|), EncodeCall(s, st, us, room);
            && |out + en.out| <= |all.out|
            && if en.status != Ok then all == Run(en.st, i + en.read, out + en.out, en.status)
               else en.read == k && EncodeCall(s, st, us[..i + k], room) == Run(en.st, i + k, out + en.out, Ok)
  {
    hide Feed;
    FeedSegment(Encoder(s), st, st', us, i, k, out, room);
    EncoderLawful(s);
    FeedResumes(Encoder(s), st', us[i..][..k], room - |out|);
  }

  class BasicUTF7Encoder {
    const scheme: Scheme
    var mEncoding: int
    var mEncBits: nat
    var mEncStep: nat

    ghost predicate Valid()
      reads this
    {
      && (mEncoding == ENC_DIRECT || mEncoding == ENC_BASE64)
      && EncValid(State())
    }

    function State(): EncState
      reads this
    {
      EncState(mEncoding == ENC_BASE64, mEncBits, mEncStep)
    }

    constructor (scheme: Scheme)
      ensures this.scheme == scheme && Valid() && State() == ENC_RESET
    {
      this.scheme := scheme;
      mEncoding, mEncBits, mEncStep := ENC_DIRECT, 0, 0;
    }

    method Reset()
      modifies this
      ensures Valid() && State() == ENC_RESET
    {
      mEncoding := ENC_DIRECT;
      mEncBits := 0;
      mEncStep := 0;
    }

    method ShiftEncoding(encoding: int, dest: array<Byte>, at: nat, room: int)
      returns (status: Status, written: nat)
      requires Valid() && (encoding == ENC_DIRECT || encoding == ENC_BASE64)
      requires at + |Shift(scheme, State(), encoding == ENC_BASE64, room).out| <= dest.Length
      modifies this, dest
      ensures Valid()
      ensures var r := Shift(scheme, old(State()), encoding == ENC_BASE64, room);
              && State() == r.st && written == |r.out| && status == r.status
              && Wrote(old(dest[..]), dest[..], at, r.out)
    {
      hide Wrote;
      ghost var before, pad: seq<Byte> := dest[..], [];
      WroteNothing(before, at);
      status, written := Ok, 0;
      if encoding == mEncoding {
        return;
      }
      if mEncStep != 0 {
        if written >= room {
          return MoreOutput, 0;
        }
        pad := [ValueToChar(scheme, mEncBits)];
        Write(dest, at + written, [ValueToChar(scheme, mEncBits)]);
        written := written + 1;
        mEncStep := 0;
        mEncBits := 0;
      }
      if written >= room {
        status := MoreOutput;
      } else {
        ghost var mid := dest[..];
        if encoding == ENC_DIRECT {
          Write(dest, at + written, [DASH]);
          mEncStep := 0;
          mEncBits := 0;
          WroteMore(before, mid, dest[..], at, pad, [DASH]);
        } else {
          Write(dest, at + written, [scheme.escChar]);
          WroteMore(before, mid, dest[..], at, pad, [scheme.escChar]);
        }
        written := written + 1;
        mEncoding := encoding;
      }
    }

    method EncodeDirect(src: seq<Unit>, dest: array<Byte>, at: nat, room: int)
      returns (status: Status, read: nat, written: nat)
      requires Valid() && mEncoding == ENC_DIRECT
      requires at + |EncodeCall(scheme, State(), src[..Stretch(scheme, src, true)], room).out| <= dest.Length
      modifies dest
      ensures var r := EncodeCall(scheme, State(), src[..Stretch(scheme, src, true)], room);
              && r == Run(State(), read, r.out, status) && written == |r.out|
              && Wrote(old(dest[..]), dest[..], at, r.out)
    {
      hide Wrote, Feed, EncodeCall, Encoder, Stretch, EncValid;
      status, read, written := Ok, 0, 0;
      ghost var k, st := Stretch(scheme, src, true), State();
      ghost var before, out: seq<Byte> := dest[..], [];
      WroteNothing(before, at);
      CallOfNothing(scheme, st, room);
      assert src[..0] == [];
      while read < |src|
        invariant read <= k && written == |out| && at + |out| <= dest.Length
        invariant EncodeCall(scheme, st, src[..read], room) == Run(st, read, out, Ok)
        invariant Wrote(before, dest[..], at, out)
        invariant status == Ok
        decreases |src| - read
      {
        var ch := src[read];
        if !Direct(scheme, ch) {
          break;
        }
        DirectNext(scheme, st, src, read, k, out, room);
        ghost var mid := dest[..];
        if ch == scheme.escChar {
          if room - written < 1 {
            status := MoreOutput;
            break;
          } else {
            Write(dest, at + written, [scheme.escChar, DASH]);
            written := written + 2;
            read := read + 1;
          }
        } else {
          if written >= room {
            status := MoreOutput;
            break;
          } else {
            Write(dest, at + written, [ch % 0x100]);
            written := written + 1;
            read := read + 1;
          }
        }
        WroteMore(before, mid, dest[..], at, out, UnitBytes(scheme, st, ch));
        out := out + UnitBytes(scheme, st, ch);
      }
    }

    /** The switch over the three phases: the digits of a unit and the bits it leaves pending. */
    method UnitDigits(ch: Unit, room: int) returns (status: Status, digits: seq<Byte>)
      requires Valid() && mEncoding == ENC_BASE64 && !Direct(scheme, ch)
      modifies this`mEncBits
      ensures if room < Guard(scheme, old(State()), ch) then
                status == MoreOutput && mEncBits == old(mEncBits)
              else
                && status == Ok && digits == UnitBytes(scheme, old(State()), ch)
                && UnitState(scheme, old(State()), ch) == EncState(true, mEncBits, (mEncStep + 1) % 3)
    {
      hide ValueToChar;
      status, digits := Ok, [];
      match mEncStep {
        case 0 =>
          if room < 2 {
            return MoreOutput, [];
          }
          digits := [ValueToChar(scheme, ch / 1024), ValueToChar(scheme, ch / 16 % 64)];
          mEncBits := ch % 16 * 4;
        case 1 =>
          if room < 3 {
            return MoreOutput, [];
          }
          digits := [ValueToChar(scheme, mEncBits + ch / 16384),
                     ValueToChar(scheme, ch / 256 % 64), ValueToChar(scheme, ch / 4 % 64)];
          mEncBits := ch % 4 * 16;
        case _ =>
          if room < 3 {
            return MoreOutput, [];
          }
          digits := [ValueToChar(scheme, mEncBits + ch / 4096),
                     ValueToChar(scheme, ch / 64 % 64), ValueToChar(scheme, ch % 64)];
          mEncBits := 0;
      }
    }

    method EncodeBase64(src: seq<Unit>, dest: array<Byte>, at: nat, room: int)
      returns (status: Status, read: nat, written: nat)
      requires Valid() && mEncoding == ENC_BASE64
      requires at + |EncodeCall(scheme, State(), src[..Stretch(scheme, src, false)], room).out| <= dest.Length
      modifies this`mEncBits, this`mEncStep, dest
      ensures Valid()
      ensures var r := EncodeCall(scheme, old(State()), src[..Stretch(scheme, src, false)], room);
              && r == Run(State(), read, r.out, status) && written == |r.out|
              && Wrote(old(dest[..]), dest[..], at, r.out)
    {
      hide Wrote, Feed, EncodeCall, Encoder, Stretch, EncValid, UnitBytes, UnitState, Guard;
      status, read, written := Ok, 0, 0;
      ghost var k, st, cur := Stretch(scheme, src, false), State(), State();
      ghost var before, out: seq<Byte> := dest[..], [];
      WroteNothing(before, at);
      CallOfNothing(scheme, st, room);
      assert src[..0] == [];
      while read < |src|
        invariant State() == cur && EncValid(cur) && cur.base64
        invariant read <= k && written == |out| && at + |out| <= dest.Length
        invariant EncodeCall(scheme, st, src[..read], room) == Run(cur, read, out, Ok)
        invariant Wrote(before, dest[..], at, out)
        invariant status == Ok
        decreases |src| - read
      {
        var ch := src[read];
        if Direct(scheme, ch) {
          break;
        }
        ghost var mid := dest[..];
        Base64Next(scheme, st, cur, src, read, k, out, room);
        UnitFacts(scheme, cur, ch);
        var digits;
        status, digits := UnitDigits(ch, room - written);
        if status != Ok {
          break;
        }
        mEncStep := (mEncStep + 1) % 3;
        cur := UnitState(scheme, cur, ch);
        Write(dest, at + written, digits);
        WroteMore(before, mid, dest[..], at, out, digits);
        written := written + |digits|;
        out := out + digits;
        read := read + 1;
      }
    }

    /** The body of the conversion loop: shift if necessary, then encode as much as goes in the
        same mode. */
    method EncodeStretch(src: seq<Unit>, dest: array<Byte>, at: nat, room: int)
      returns (status: Status, read: nat, written: nat)
      requires Valid() && src != []
      requires var k := Stretch(scheme, src, Direct(scheme, src[0]));
               at + |EncodeCall(scheme, State(), src[..k], room).out| <= dest.Length
      modifies this, dest
      ensures Valid()
      ensures var k := Stretch(scheme, src, Direct(scheme, src[0]));
              var r := EncodeCall(scheme, old(State()), src[..k], room);
              && r == Run(State(), read, r.out, status) && written == |r.out|
              && Wrote(old(dest[..]), dest[..], at, r.out)
    {
      hide Feed, EncodeCall, Encoder, Shift, Stretch, OpenBytes, Wrote, EncValid;
      var enc := if Direct(scheme, src[0]) then ENC_DIRECT else ENC_BASE64;
      ghost var k, before := Stretch(scheme, src, Direct(scheme, src[0])), dest[..];
      ghost var sh := Shift(scheme, State(), enc == ENC_BASE64, room);
      ghost var en := EncodeCall(scheme, sh.st, src[..k], room - |sh.out|);
      ShiftThenStretch(scheme, State(), src[..k], room);
      ShiftResumes(scheme, State(), src[0], room);

      status, written := ShiftEncoding(enc, dest, at, room);
      read := 0;
      if status != Ok {
        return;
      }
      ghost var mid := dest[..];
      var wrote: nat;
      if enc == ENC_DIRECT {
        status, read, wrote := EncodeDirect(src, dest, at + written, room - written);
      } else {
        status, read, wrote := EncodeBase64(src, dest, at + written, room - written);
      }
      WroteMore(before, mid, dest[..], at, sh.out, en.out);
      written := written + wrote;
    }

    method ConvertNoBuffNoErr(src: seq<Unit>, dest: array<Byte>, at: nat, room: int)
      returns (status: Status, read: nat, written: nat)
      requires Valid()
      requires at + |EncodeCall(scheme, State(), src, room).out| <= dest.Length
      modifies this, dest
      ensures Valid()
      ensures var r := EncodeCall(scheme, old(State()), src, room);
              && r == Run(State(), read, r.out, status) && written == |r.out|
              && Wrote(old(dest[..]), dest[..], at, r.out)
    {
      hide Wrote, Feed, EncodeCall, Encoder, EncValid;
      status, read, written := Ok, 0, 0;
      ghost var st, cur, before, out: seq<Byte> := State(), State(), dest[..], [];
      WroteNothing(before, at);
      CallOfNothing(scheme, st, room);
      assert src[..0] == [];
      while read < |src|
        invariant State() == cur && Valid() && read <= |src|
        invariant written == |out| && at + |out| <= dest.Length
        invariant EncodeCall(scheme, st, src[..read], room) == Run(cur, read, out, Ok)
        invariant Wrote(before, dest[..], at, out)
        invariant status == Ok
        decreases |src| - read
      {
        ghost var k := Stretch(scheme, src[read..], Direct(scheme, src[read]));
        ghost var en, mid := EncodeCall(scheme, cur, src[read..][..k], room - written), dest[..];
        StretchNext(scheme, st, cur, src, read, k, out, room);
        var took: nat, wrote: nat;
        status, took, wrote := EncodeStretch(src[read..], dest, at + written, room - written);
        WroteMore(before, mid, dest[..], at, out, en.out);
        read := read + took;
        written := written + wrote;
        out, cur := out + en.out, en.st;
        if status != Ok {
          return;
        }
      }
      assert status == Ok ==> src[..read] == src;
    }

    method FinishNoBuff(dest: array<Byte>, at: nat, room: int) returns (status: Status, written: nat)
      requires Valid()
      requires at + |Shift(scheme, State(), false, room).out| <= dest.Length
      modifies this, dest
      ensures Valid()
      ensures var r := Shift(scheme, old(State()), false, room);
              && State() == r.st && written == |r.out| && status == r.status
              && Wrote(old(dest[..]), dest[..], at, r.out)
    {
      status, written := ShiftEncoding(ENC_DIRECT, dest, at, room);
    }
  }
}
