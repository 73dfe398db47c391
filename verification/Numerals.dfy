/** Positional numerals in the two bases of the codec: 6-bit digits and 16-bit units. A sequence of
    digits and the number it spells stand for the bit string it concatenates to. */
module Numerals {
  const SIXTY_FOUR := 64
  const UNIT_BASE := 0x1_0000

  predicate Base(b: int) {
    b == SIXTY_FOUR || b == UNIT_BASE
  }

  /** The number that `xs` spells in base `b`, most significant digit first. */
  function Num(b: int, xs: seq<int>): int {
    if xs == [] then 0 else Num(b, xs[..|xs| - 1]) * b + xs[|xs| - 1]
  }

  predicate DigitsOf(b: int, xs: seq<int>) {
    forall i :: 0 <= i < |xs| ==> 0 <= xs[i] < b
  }

  /** The last `len` digits of `n` in base `b`. */
  function Spell(b: int, n: int, len: nat): (xs: seq<int>)
    requires 0 < b
    ensures |xs| == len && DigitsOf(b, xs)
    decreases len
  {
    if len == 0 then [] else Spell(b, n / b, len - 1) + [n % b]
  }

  lemma DigitsJoin(b: int, xs: seq<int>, ys: seq<int>)
    requires DigitsOf(b, xs) && DigitsOf(b, ys)
    ensures DigitsOf(b, xs + ys)
  {
  }

  lemma NumAppend(b: int, xs: seq<int>, x: int)
    ensures Num(b, xs + [x]) == Num(b, xs) * b + x
  {
    assert (xs + [x])[..|xs|] == xs;
  }

  lemma NumAppendTwo(b: int, xs: seq<int>, x: int, y: int)
    ensures Num(b, xs + [x, y]) == (Num(b, xs) * b + x) * b + y
  {
    NumAppend(b, xs, x);
    NumAppend(b, xs + [x], y);
    assert xs + [x] + [y] == xs + [x, y];
  }

  lemma NumAppendThree(b: int, xs: seq<int>, x: int, y: int, z: int)
    ensures Num(b, xs + [x, y, z]) == ((Num(b, xs) * b + x) * b + y) * b + z
  {
    NumAppendTwo(b, xs, x, y);
    NumAppend(b, xs + [x, y], z);
    assert xs + [x, y] + [z] == xs + [x, y, z];
  }

  /** A numeral is spelt by its own digits and no others of that length. */
  lemma {:induction false} SpellNum(b: int, xs: seq<int>)
    requires Base(b) && DigitsOf(b, xs)
    ensures Spell(b, Num(b, xs), |xs|) == xs
  {
    if xs != [] {
      var init, x := xs[..|xs| - 1], xs[|xs| - 1];
      SpellNum(b, init);
      var n := Num(b, init);
      if b == SIXTY_FOUR {
        assert (n * 64 + x) / 64 == n && (n * 64 + x) % 64 == x;
      } else {
        assert (n * 0x1_0000 + x) / 0x1_0000 == n && (n * 0x1_0000 + x) % 0x1_0000 == x;
      }
      assert xs == init + [x];
    }
  }
}
