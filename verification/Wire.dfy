/** Byte strings, big-endian integers and the two-byte length prefix. */
module Wire {
  type Byte = b: int | 0 <= b < 256
  type Bytes = seq<Byte>

  function Pow256(width: nat): (p: nat)
    ensures p >= 1
  {
    if width == 0 then 1 else 256 * Pow256(width - 1)
  }

  /** `n` as exactly `width` bytes, most significant first. */
  function Be(n: nat, width: nat): (r: Bytes)
    requires n < Pow256(width)
    ensures |r| == width
  {
    if width == 0 then [] else Be(n / 256, width - 1) + [n % 256]
  }

  function FromBe(b: Bytes): (n: nat)
    ensures n < Pow256(|b|)
  {
    if b == [] then 0 else 256 * FromBe(b[..|b| - 1]) + b[|b| - 1]
  }

  lemma {:induction false} FromBeInvertsBe(n: nat, width: nat)
    requires n < Pow256(width)
    ensures FromBe(Be(n, width)) == n
  {
    if width > 0 {
      FromBeInvertsBe(n / 256, width - 1);
      assert Be(n, width)[..width - 1] == Be(n / 256, width - 1);
    }
  }

  lemma {:induction false} BeInvertsFromBe(b: Bytes)
    ensures Be(FromBe(b), |b|) == b
  {
    if b != [] {
      var front, last := b[..|b| - 1], b[|b| - 1];
      BeInvertsFromBe(front);
      var n := FromBe(b);
      assert n == 256 * FromBe(front) + last;
      assert n / 256 == FromBe(front) && n % 256 == last;
      assert b == front + [last];
    }
  }

  lemma BeInjective(m: nat, n: nat, width: nat)
    requires m < Pow256(width) && n < Pow256(width)
    requires Be(m, width) == Be(n, width)
    ensures m == n
  {
    FromBeInvertsBe(m, width);
    FromBeInvertsBe(n, width);
  }

  lemma Scale(x: int, p: int, y: int, last: int)
    ensures 256 * (x * p + y) + last == x * (256 * p) + (256 * y + last)
  {}

  /** Wherever a string of bytes is cut, its front counts in units of what its back can hold. */
  lemma {:induction false} MostSignificantFirst(a: Bytes, b: Bytes)
    ensures FromBe(a + b) == FromBe(a) * Pow256(|b|) + FromBe(b)
    decreases |b|
  {
    if b == [] {
      assert a + b == a;
    } else {
      var front, last := b[..|b| - 1], b[|b| - 1];
      assert (a + b)[..|a + b| - 1] == a + front;
      MostSignificantFirst(a, front);
      Scale(FromBe(a), Pow256(|front|), FromBe(front), last);
    }
  }

  const MAX_PREFIXED := 0xFFFF

  /** Two-byte big-endian length followed by the bytes. */
  function LengthPrefixed(v: Bytes): (r: Bytes)
    requires |v| <= MAX_PREFIXED
    ensures |r| == 2 + |v|
  {
    Be(|v|, 2) + v
  }

  /** Two concatenations whose first parts have equal length agree part by part. */
  lemma SplitEqual<T>(a: seq<T>, x: seq<T>, b: seq<T>, y: seq<T>)
    requires |a| == |b|
    requires a + x == b + y
    ensures a == b && x == y
  {
    assert a == (a + x)[..|a|];
    assert b == (b + y)[..|b|];
    assert x == (a + x)[|a|..];
    assert y == (b + y)[|b|..];
  }

  /** A length-prefixed field can be cut off the front of any string in only one way. */
  lemma PrefixedFieldUnique(v: Bytes, x: Bytes, w: Bytes, y: Bytes)
    requires |v| <= MAX_PREFIXED && |w| <= MAX_PREFIXED
    requires LengthPrefixed(v) + x == LengthPrefixed(w) + y
    ensures v == w && x == y
  {
    assert LengthPrefixed(v) + x == Be(|v|, 2) + (v + x);
    assert LengthPrefixed(w) + y == Be(|w|, 2) + (w + y);
    SplitEqual(Be(|v|, 2), v + x, Be(|w|, 2), w + y);
    BeInjective(|v|, |w|, 2);
    SplitEqual(v, x, w, y);
  }
}
