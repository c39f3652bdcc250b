/**
 * Bit arithmetic on unsigned keys.  A `uint32_t` or `uint64_t` key is a natural
 * below 2^32 or 2^64; `Xor` is C's `^` on such values, and `Dist(a, b)` is the
 * split position of two keys: one plus the index of their highest differing
 * bit (0 when they are equal).  Everything the trees decide with `^` and `>`
 * is reduced to facts about `Dist`.
 */
module Bits {

  /** Bitwise exclusive or of two naturals. */
  function Xor(a: nat, b: nat): nat
    decreases a + b
  {
    if a == 0 && b == 0 then 0
    else 2 * Xor(a / 2, b / 2) + (if a % 2 == b % 2 then 0 else 1)
  }

  /** Number of significant bits of x. */
  function Width(x: nat): nat
  {
    if x == 0 then 0 else 1 + Width(x / 2)
  }

  /** One plus the index of the highest bit where a and b differ; 0 if a == b. */
  function Dist(a: nat, b: nat): nat
    decreases a + b
  {
    if a == b then 0 else 1 + Dist(a / 2, b / 2)
  }

  function Pow2(n: nat): nat
  {
    if n == 0 then 1 else 2 * Pow2(n - 1)
  }

  lemma {:induction false} XorZero(a: nat, b: nat)
    ensures (Xor(a, b) == 0) == (a == b)
    decreases a + b
  {
    if !(a == 0 && b == 0) {
      XorZero(a / 2, b / 2);
    }
  }

  /** The split position is the width of the xor. */
  lemma {:induction false} DistWidth(a: nat, b: nat)
    ensures Dist(a, b) == Width(Xor(a, b))
    decreases a + b
  {
    XorZero(a, b);
    if a != b {
      DistWidth(a / 2, b / 2);
    }
  }

  lemma {:induction false} WidthLess(x: nat, y: nat)
    requires Width(x) < Width(y)
    ensures x < y
  {
    if x != 0 {
      WidthLess(x / 2, y / 2);
    }
  }

  /** Comparing two xors compares the split positions. */
  lemma XorLess(a: nat, b: nat, c: nat, e: nat)
    requires Dist(a, b) < Dist(c, e)
    ensures Xor(a, b) < Xor(c, e)
  {
    DistWidth(a, b);
    DistWidth(c, e);
    WidthLess(Xor(a, b), Xor(c, e));
  }

  lemma {:induction false} DistSym(a: nat, b: nat)
    ensures Dist(a, b) == Dist(b, a)
    decreases a + b
  {
    if a != b {
      DistSym(a / 2, b / 2);
    }
  }

  /** Split positions form an ultrametric. */
  lemma {:induction false} Ultra(a: nat, b: nat, c: nat)
    ensures Dist(a, c) <= if Dist(a, b) < Dist(b, c) then Dist(b, c) else Dist(a, b)
    decreases a + b + c
  {
    if a != c && a != b && b != c {
      Ultra(a / 2, b / 2, c / 2);
    }
  }

  /** A key closer to b than c is lies as far from c as b does. */
  lemma UltraEq(a: nat, b: nat, c: nat)
    requires Dist(a, b) < Dist(b, c)
    ensures Dist(a, c) == Dist(b, c)
  {
    Ultra(a, b, c);
    Ultra(b, a, c);
    DistSym(a, b);
  }

  /** Seen from a far key k, two close keys a and b compare alike. */
  lemma {:induction false} CmpFar(k: nat, a: nat, b: nat)
    requires Dist(a, b) < Dist(k, b)
    ensures (k < a) == (k < b)
    decreases k + a + b
  {
    if a != b {
      CmpFar(k / 2, a / 2, b / 2);
    }
  }

  /** Keys split at one position fall on exactly one side of it. */
  lemma {:induction false} Binary(k: nat, a: nat, b: nat)
    requires Dist(k, a) == Dist(a, b) && a != b
    ensures Dist(k, b) < Dist(a, b)
    decreases k + a + b
  {
    if Dist(a, b) > 1 {
      Binary(k / 2, a / 2, b / 2);
    }
  }

  /** Keys of the lower cluster of a split are below the keys of the upper one. */
  lemma Across(kl: nat, kr: nat, a: nat, c: nat)
    requires kl < kr
    requires Dist(a, kl) < Dist(kl, kr) && Dist(c, kr) < Dist(kl, kr)
    ensures a < c
  {
    DistSym(kl, kr);
    CmpFar(kr, a, kl);
    UltraEq(a, kl, kr);
    DistSym(a, kr);
    CmpFar(a, c, kr);
  }

  lemma {:induction false} Pow2Positive(n: nat)
    ensures Pow2(n) > 0
  {
    if n > 0 {
      Pow2Positive(n - 1);
    }
  }

  lemma {:induction false} Pow2Add(m: nat, n: nat)
    ensures Pow2(m + n) == Pow2(m) * Pow2(n)
    decreases m
  {
    if m > 0 {
      Pow2Add(m - 1, n);
    }
  }

  /** The ranges of `uint32_t` and `uint64_t`. */
  lemma WordLimits()
    ensures Pow2(32) == 0x1_0000_0000
    ensures Pow2(64) == 0x1_0000_0000_0000_0000
  {
    assert Pow2(2) == 4;
    Pow2Add(2, 2);
    Pow2Add(4, 4);
    Pow2Add(8, 8);
    Pow2Add(16, 16);
    Pow2Add(32, 32);
  }

  /** Xor of two keys of n bits has n bits. */
  lemma {:induction false} XorBound(a: nat, b: nat, n: nat)
    requires a < Pow2(n) && b < Pow2(n)
    ensures Xor(a, b) < Pow2(n)
  {
    if n > 0 && !(a == 0 && b == 0) {
      XorBound(a / 2, b / 2, n - 1);
    }
  }

  /**
   * The two tests the descents make at a split node with keys kl != kr,
   * read as positions: the mismatch test holds exactly when k is outside
   * the node's prefix, and otherwise "go right" holds exactly when k
   * shares the right key's prefix below the split.
   */
  lemma Steer(k: nat, kl: nat, kr: nat)
    requires kl != kr
    ensures (Xor(k, kl) > Xor(kl, kr) && Xor(k, kr) > Xor(kl, kr)) == (Dist(k, kl) > Dist(kl, kr))
    ensures Dist(k, kl) > Dist(kl, kr) ==> Dist(k, kr) == Dist(k, kl)
    ensures Dist(k, kl) <= Dist(kl, kr) ==>
              (Dist(k, kl) < Dist(kl, kr) <==> !(Dist(k, kr) < Dist(kl, kr))) &&
              ((Xor(k, kl) >= Xor(k, kr)) == (Dist(k, kr) < Dist(kl, kr)))
  {
    var d := Dist(kl, kr);
    DistSym(kl, kr);
    DistSym(k, kl);
    DistSym(k, kr);
    if Dist(k, kl) > d {
      UltraEq(kr, kl, k);
      DistSym(kr, k);
      XorLess(kl, kr, k, kl);
      XorLess(kl, kr, k, kr);
    } else {
      if Dist(k, kl) < d {
        XorLess(k, kl, kl, kr);
        UltraEq(k, kl, kr);
        XorLess(k, kl, k, kr);
      } else {
        Binary(k, kl, kr);
        XorLess(k, kr, kl, kr);
        UltraEq(k, kr, kl);
        XorLess(k, kr, k, kl);
      }
    }
  }
}
