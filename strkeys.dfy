/**
 * NUL-terminated byte strings as the string engine compares them.  Two
 * primitives measure strings: `EqualBits`, the number of leading bits two
 * strings share (`string_equal_bits`), and `CompareFrom`, `strcmp` on the
 * strings from a given byte on.  A string shorter than `w` bytes is read as
 * the number `Enc(s, w)` its bytes spell, most significant first, padded with
 * NULs; the lemmas at the end show that both primitives are faithful to that
 * reading, so that the trees of strings are trees of numbers.
 */
module StrKeys {
  import opened Bits

  type Byte = x: nat | x < 256

  /** The bytes of a string, without its terminating NUL. */
  type Str = seq<Byte>

  /** A C string holds no NUL before its terminator. */
  predicate CStr(s: Str)
  {
    forall i :: 0 <= i < |s| ==> s[i] != 0
  }

  /** Byte i of string s; the terminator and whatever follows read as NUL. */
  function At(s: Str, i: nat): Byte
  {
    if i < |s| then s[i] else 0
  }

  /** a and b have the same bytes below position n. */
  ghost predicate Agree(a: Str, b: Str, n: nat)
  {
    forall j :: 0 <= j < n ==> At(a, j) == At(b, j)
  }

  lemma AgreeAt(a: Str, b: Str, n: nat, j: nat)
    ensures Agree(a, b, n) && j < n ==> At(a, j) == At(b, j)
  {
  }

  /**
   * `string_equal_bits(a, b, 0)` once bytes below i are known equal: the
   * number of leading bits a and b share, or -1 when they are equal up to
   * and including their terminator.
   */
  function EqualFrom(a: Str, b: Str, i: nat): int
    decreases |a| - i
  {
    if At(a, i) != At(b, i) then 8 * i + 8 - Dist(At(a, i), At(b, i))
    else if At(a, i) == 0 then -1
    else EqualFrom(a, b, i + 1)
  }

  function EqualBits(a: Str, b: Str): int
  {
    EqualFrom(a, b, 0)
  }

  /** `strcmp(a + i, b + i)`, reduced to its sign. */
  function CompareFrom(a: Str, b: Str, i: nat): int
    decreases |a| - i
  {
    if At(a, i) != At(b, i) then (if At(a, i) < At(b, i) then -1 else 1)
    else if At(a, i) == 0 then 0
    else CompareFrom(a, b, i + 1)
  }

  /** The C conversion of an `int` to `unsigned int`: -1 becomes the largest value. */
  function Unsigned(x: int): nat
  {
    x % 0x1_0000_0000
  }

  /** The number spelt by the first n bytes of s, NUL-padded, most significant first. */
  function Enc(s: Str, n: nat): nat
  {
    if n == 0 then 0 else Enc(s, n - 1) * 256 + At(s, n - 1)
  }

  // ----------------------------------------------------------- arithmetic

  lemma ByteBits()
    ensures Pow2(8) == 256
  {
    Pow2Add(4, 4);
    Pow2Add(2, 2);
  }

  lemma {:induction false} EncBound(s: Str, n: nat)
    ensures Enc(s, n) < Pow2(8 * n)
  {
    if n > 0 {
      EncBound(s, n - 1);
      ByteBits();
      Pow2Add(8 * (n - 1), 8);
    }
  }

  /** The empty string reads as 0. */
  lemma {:induction false} EncEmpty(n: nat)
    ensures Enc([], n) == 0
  {
    if n > 0 {
      EncEmpty(n - 1);
    }
  }

  /** Two numbers of m bits differ at most in their m low bits. */
  lemma {:induction false} DistBound(c: nat, d: nat, m: nat)
    requires c < Pow2(m) && d < Pow2(m)
    ensures Dist(c, d) <= m
  {
    if c != d {
      DistBound(c / 2, d / 2, m - 1);
    }
  }

  /** One more bit of weight doubles a high part. */
  lemma Halve(h: nat, m: nat)
    requires m > 0
    ensures h * Pow2(m) == 2 * (h * Pow2(m - 1))
  {
  }

  /** Dropping the lowest bit of a number with high part 2 q keeps q. */
  lemma Drop(q: nat, c: nat)
    ensures (2 * q + c) / 2 == q + c / 2
  {
  }

  /** Below a common high part, the split position is the one of the low parts. */
  lemma {:induction false} DistLow(h: nat, c: nat, d: nat, m: nat)
    requires c < Pow2(m) && d < Pow2(m)
    ensures Dist(h * Pow2(m) + c, h * Pow2(m) + d) == Dist(c, d)
  {
    if m > 0 && c != d {
      var q := h * Pow2(m - 1);
      Halve(h, m);
      Drop(q, c);
      Drop(q, d);
      DistLow(h, c / 2, d / 2, m - 1);
    }
  }

  /** When the high parts differ, the split position lies in them. */
  lemma {:induction false} DistHigh(x: nat, y: nat, c: nat, d: nat, m: nat)
    requires x != y && c < Pow2(m) && d < Pow2(m)
    ensures Dist(x * Pow2(m) + c, y * Pow2(m) + d) == m + Dist(x, y)
  {
    if m > 0 {
      var qx, qy := x * Pow2(m - 1), y * Pow2(m - 1);
      Halve(x, m);
      Halve(y, m);
      Drop(qx, c);
      Drop(qy, d);
      DistHigh(x, y, c / 2, d / 2, m - 1);
      assert Dist(x, y) > 0;
    }
  }

  // -------------------------------------------------------------- strings

  /** Equal strings share every bit and compare equal. */
  lemma {:induction false} SameFrom(a: Str, i: nat)
    ensures EqualFrom(a, a, i) == -1 && CompareFrom(a, a, i) == 0
    decreases |a| - i
  {
    if At(a, i) != 0 {
      SameFrom(a, i + 1);
    }
  }

  /**
   * Two different C strings that agree below byte j first differ at some
   * byte i at or after j, inside one of them; both measures stop there.
   */
  lemma {:induction false} FirstDiffFrom(a: Str, b: Str, j: nat) returns (i: nat)
    requires CStr(a) && CStr(b) && a != b && Agree(a, b, j)
    ensures j <= i && (i < |a| || i < |b|) && Agree(a, b, i) && At(a, i) != At(b, i)
    ensures EqualFrom(a, b, j) == 8 * i + 8 - Dist(At(a, i), At(b, i))
    ensures CompareFrom(a, b, j) == if At(a, i) < At(b, i) then -1 else 1
    decreases |a| - j
  {
    if At(a, j) != At(b, j) {
      i := j;
    } else if At(a, j) == 0 {
      // both strings end at j and agree before: they are equal
      assert |a| <= j && |b| <= j;
      if |a| < |b| {
        AgreeAt(a, b, j, |a|);
        assert false;
      } else if |b| < |a| {
        AgreeAt(a, b, j, |b|);
        assert false;
      }
      assert forall t :: 0 <= t < |a| ==> a[t] == At(a, t) == At(b, t) == b[t];
      assert false;
    } else {
      i := FirstDiffFrom(a, b, j + 1);
    }
  }

  lemma FirstDiff(a: Str, b: Str) returns (i: nat)
    requires CStr(a) && CStr(b) && a != b
    ensures (i < |a| || i < |b|) && Agree(a, b, i) && At(a, i) != At(b, i)
    ensures EqualBits(a, b) == 8 * i + 8 - Dist(At(a, i), At(b, i))
    ensures CompareFrom(a, b, 0) == if At(a, i) < At(b, i) then -1 else 1
  {
    i := FirstDiffFrom(a, b, 0);
  }

  /** Agreeing bytes spell the same number. */
  lemma {:induction false} EncAgree(a: Str, b: Str, n: nat)
    requires Agree(a, b, n)
    ensures Enc(a, n) == Enc(b, n)
  {
    if n > 0 {
      EncAgree(a, b, n - 1);
    }
  }

  /**
   * Strings first differing at byte i spell numbers of n > i bytes that first
   * differ inside that byte, and compare as that byte does.
   */
  lemma {:induction false} EncDiff(a: Str, b: Str, i: nat, n: nat)
    requires Agree(a, b, i) && At(a, i) != At(b, i) && i < n
    ensures Dist(Enc(a, n), Enc(b, n)) == 8 * (n - 1 - i) + Dist(At(a, i), At(b, i))
    ensures Enc(a, n) < Enc(b, n) <==> At(a, i) < At(b, i)
  {
    var c, d := At(a, n - 1), At(b, n - 1);
    if n == i + 1 {
      EncAgree(a, b, i);
      LowByte(Enc(a, i), c, d);
    } else {
      EncDiff(a, b, i, n - 1);
      var x, y := Enc(a, n - 1), Enc(b, n - 1);
      assert x != y;
      HighBytes(x, y, c, d);
    }
  }

  /** Below a common high part, the last byte decides. */
  lemma LowByte(h: nat, c: nat, d: nat)
    requires c < 256 && d < 256
    ensures Dist(h * 256 + c, h * 256 + d) == Dist(c, d) && (h * 256 + c < h * 256 + d <==> c < d)
  {
    ByteBits();
    DistLow(h, c, d, 8);
  }

  /** Above different high parts, the last byte adds 8 bits and does not decide. */
  lemma HighBytes(x: nat, y: nat, c: nat, d: nat)
    requires x != y && c < 256 && d < 256
    ensures Dist(x * 256 + c, y * 256 + d) == 8 + Dist(x, y) && (x * 256 + c < y * 256 + d <==> x < y)
  {
    ByteBits();
    DistHigh(x, y, c, d, 8);
    HighLess(x, y, c, d, 256);
  }

  /** Numbers with different high parts compare as their high parts do. */
  lemma HighLess(x: nat, y: nat, c: nat, d: nat, q: nat)
    requires x != y && c < q && d < q
    ensures x * q + c < y * q + d <==> x < y
  {
    if x < y {
      assert (x + 1) * q <= y * q;
    } else {
      assert (y + 1) * q <= x * q;
    }
  }

  /**
   * The reading is faithful to `string_equal_bits`: equal strings give -1 and
   * the same number; different ones give the number of bits their numbers
   * share out of 8 w.
   */
  lemma EqualBitsEnc(a: Str, b: Str, w: nat)
    requires CStr(a) && CStr(b) && |a| < w && |b| < w
    ensures (a == b) == (Enc(a, w) == Enc(b, w))
    ensures EqualBits(a, b) == if a == b then -1 else 8 * w - Dist(Enc(a, w), Enc(b, w))
  {
    if a == b {
      SameFrom(a, 0);
    } else {
      var i := FirstDiff(a, b);
      EncDiff(a, b, i, w);
    }
  }

  /**
   * The reading is faithful to `strcmp` from byte o on, once the strings are
   * known to agree below o: it reports equality, and a non-negative result
   * exactly when a's number is at least b's.
   */
  lemma CompareEnc(a: Str, b: Str, o: nat, w: nat)
    requires CStr(a) && CStr(b) && |a| < w && |b| < w && Agree(a, b, o)
    ensures (CompareFrom(a, b, o) == 0) == (a == b)
    ensures (CompareFrom(a, b, o) >= 0) == (Enc(a, w) >= Enc(b, w))
  {
    if a == b {
      SameFrom(a, o);
    } else {
      var i := FirstDiffFrom(a, b, o);
      EncDiff(a, b, i, w);
    }
  }

  /** Different strings share fewer than 8 w bits, so their length survives the cast to unsigned. */
  lemma EqualBitsRange(a: Str, b: Str, w: nat)
    requires CStr(a) && CStr(b) && |a| < w && |b| < w && w < 0x1000_0000
    ensures a == b ==> Unsigned(EqualBits(a, b)) == 0xFFFF_FFFF
    ensures a != b ==> 0 <= EqualBits(a, b) < 8 * w && Unsigned(EqualBits(a, b)) == EqualBits(a, b)
  {
    EqualBitsEnc(a, b, w);
    if a != b {
      var i := FirstDiff(a, b);
      ByteBits();
      DistBound(At(a, i), At(b, i), 8);
    }
  }

  /** The bytes below a length that does not exceed the shared bits are equal. */
  lemma PrefixAgree(a: Str, b: Str, len: int)
    requires CStr(a) && CStr(b) && a != b && 0 <= len <= EqualBits(a, b)
    ensures Agree(a, b, len / 8)
  {
    var i := FirstDiff(a, b);
    assert Dist(At(a, i), At(b, i)) > 0;
  }
}
