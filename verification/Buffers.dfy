/** Writing through a moving pointer into a caller's buffer. */
module Buffers {
  /** `after` is `before` with `xs` written from `at` on and everything else untouched. */
  predicate Wrote<T(==)>(before: seq<T>, after: seq<T>, at: nat, xs: seq<T>) {
    && at + |xs| <= |before|
    && after == before[..at] + xs + before[at + |xs|..]
  }

  lemma WroteNothing<T>(buf: seq<T>, at: nat)
    requires at <= |buf|
    ensures Wrote(buf, buf, at, [])
  {
  }

  lemma WroteMore<T>(before: seq<T>, mid: seq<T>, after: seq<T>, at: nat, xs: seq<T>, ys: seq<T>)
    requires Wrote(before, mid, at, xs) && Wrote(mid, after, at + |xs|, ys)
    ensures Wrote(before, after, at, xs + ys)
  {
    assert mid[..at + |xs|] == before[..at] + xs;
    assert mid[at + |xs| + |ys|..] == before[at + |xs + ys|..];
  }

  /** What was written can be read back, and what lies beyond is as before. */
  lemma WroteRead<T>(before: seq<T>, after: seq<T>, at: nat, xs: seq<T>)
    requires Wrote(before, after, at, xs)
    ensures |after| == |before| && after[at..at + |xs|] == xs
    ensures forall j :: at + |xs| <= j < |after| ==> after[j] == before[j]
  {
  }

  /** `*(dest++) = x` for each of a few values. */
  method Write<T(==)>(dest: array<T>, at: nat, xs: seq<T>)
    requires at + |xs| <= dest.Length
    modifies dest
    ensures Wrote(old(dest[..]), dest[..], at, xs)
  {
    for i := 0 to |xs|
      invariant forall j :: 0 <= j < i ==> dest[at + j] == xs[j]
      invariant forall j :: 0 <= j < dest.Length && !(at <= j < at + i) ==> dest[j] == old(dest[j])
    {
      dest[at + i] := xs[i];
    }
  }
}
