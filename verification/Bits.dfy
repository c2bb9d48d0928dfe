// Unsigned machine words and the bitwise operators the kernel applies to them.
//
// A word is a natural number below 2^32.  The operators are defined bit by bit, from the
// least significant one; the lemmas below turn the masks the source uses into arithmetic.
module Bits {
  const WORD_LIMIT: nat := 0x1_0000_0000

  type Word = x: int | 0 <= x < WORD_LIMIT
  type Byte = x: int | 0 <= x < 256

  /** What a uint32_t computation keeps of an exact result. */
  function Wrap(x: int): Word {
    x % WORD_LIMIT
  }

  lemma WrapAdd(a: int, b: int)
    ensures Wrap(Wrap(a) + b) == Wrap(a + b)
  {
  }

  /** Counting down one at a time. */
  lemma WrapDown(x: int, n: nat)
    ensures Wrap(x - 0) == Wrap(x)
    ensures Wrap(Wrap(x - n) - 1) == Wrap(x - (n + 1))
  {
    WrapAdd(x - n, -1);
  }

  lemma WrapWord(x: Word)
    ensures Wrap(x) == x
  {
  }

  function Min(a: nat, b: nat): nat { if a < b then a else b }

  function Pow2(k: nat): (p: nat)
    ensures p >= 1
  {
    if k == 0 then 1 else 2 * Pow2(k - 1)
  }

  predicate Bit(x: nat, k: nat) {
    if k == 0 then x % 2 == 1 else Bit(x / 2, k - 1)
  }

  function And(x: nat, y: nat): nat
    decreases x
  {
    if x == 0 || y == 0 then 0 else (if x % 2 == 1 && y % 2 == 1 then 1 else 0) + 2 * And(x / 2, y / 2)
  }

  function Or(x: nat, y: nat): nat
    decreases x + y
  {
    if x == 0 then y else if y == 0 then x
    else (if x % 2 == 1 || y % 2 == 1 then 1 else 0) + 2 * Or(x / 2, y / 2)
  }

  /** The 32-bit complement. */
  function Not(x: Word): Word {
    WORD_LIMIT - 1 - x
  }

  lemma {:induction false} BitZero(k: nat)
    ensures !Bit(0, k)
  {
    if k == 0 {
    } else {
      BitZero(k - 1);
    }
  }

  lemma {:induction false} BitAnd(x: nat, y: nat, k: nat)
    ensures Bit(And(x, y), k) <==> Bit(x, k) && Bit(y, k)
  {
    hide And;
    AndStep(x, y);
    if k == 0 {
    } else {
      BitAnd(x / 2, y / 2, k - 1);
    }
  }

  lemma {:induction false} BitOr(x: nat, y: nat, k: nat)
    ensures Bit(Or(x, y), k) <==> Bit(x, k) || Bit(y, k)
  {
    hide Or;
    OrStep(x, y);
    if k == 0 {
    } else {
      BitOr(x / 2, y / 2, k - 1);
    }
  }

  lemma {:induction false} BitPow2(j: nat, k: nat)
    ensures Bit(Pow2(k), j) <==> j == k
  {
    if j == 0 || k == 0 {
      if j == 0 {
      } else {
        BitZero(j - 1);
      }
    } else {
      BitPow2(j - 1, k - 1);
    }
  }

  /** `Pow2(n) - 1` has exactly its n low bits set; its complement within w bits the others. */
  lemma {:induction false} BitOnes(n: nat, k: nat)
    ensures Bit(Pow2(n) - 1, k) <==> k < n
  {
    if n == 0 {
      BitZero(k);
    } else if k > 0 {
      assert (Pow2(n) - 1) / 2 == Pow2(n - 1) - 1;
      BitOnes(n - 1, k - 1);
    }
  }

  lemma {:induction false} BitComplement(w: nat, x: nat, k: nat)
    requires x < Pow2(w)
    ensures Bit(Pow2(w) - 1 - x, k) <==> k < w && !Bit(x, k)
  {
    if w == 0 {
      BitZero(k);
    } else if k > 0 {
      assert (Pow2(w) - 1 - x) / 2 == Pow2(w - 1) - 1 - x / 2;
      BitComplement(w - 1, x / 2, k - 1);
    }
  }

  lemma {:induction false} Pow2Bound(n: nat, k: nat)
    requires n <= k
    ensures Pow2(n) <= Pow2(k)
  {
    if n == k {
    } else {
      Pow2Bound(n, k - 1);
    }
  }

  lemma Pow2Is32()
    ensures Pow2(32) == WORD_LIMIT
  {
    assert Pow2(8) == 256;
    assert Pow2(16) == 65536;
    assert Pow2(24) == 0x100_0000;
  }

  /** The powers the masks are made of. */
  lemma Powers()
    ensures Pow2(1) == 2 && Pow2(4) == 16 && Pow2(10) == 1024 && Pow2(12) == 4096 && Pow2(16) == 0x1_0000
    ensures Pow2(19) == 0x8_0000 && Pow2(20) == 0x10_0000 && Pow2(22) == 0x40_0000
    ensures Pow2(31) == 0x8000_0000 && Pow2(32) == 0x1_0000_0000
  {
    assert Pow2(5) == 32;
    assert Pow2(10) == 1024;
    assert Pow2(15) == 32768;
    Pow2Is32();
  }

  /** Or and And do not leave w bits. */
  lemma {:induction false} OrBound(x: nat, y: nat, w: nat)
    requires x < Pow2(w) && y < Pow2(w)
    ensures Or(x, y) < Pow2(w)
  {
    if x == 0 || y == 0 {
    } else {
      OrBound(x / 2, y / 2, w - 1);
    }
  }

  lemma {:induction false} AndBound(x: nat, y: nat)
    ensures And(x, y) <= x
  {
    if x == 0 || y == 0 {
    } else {
      AndBound(x / 2, y / 2);
    }
  }

  /** `(a << k) | b` for a b of at most k bits. */
  function Join(a: nat, b: nat, k: nat): nat {
    a * Pow2(k) + b
  }

  lemma JoinHalf(a: nat, b: nat, k: nat)
    requires k > 0
    ensures Join(a, b, k) / 2 == Join(a, b / 2, k - 1)
    ensures Join(a, b, k) % 2 == b % 2
  {
    assert a * Pow2(k) == 2 * (a * Pow2(k - 1));
  }

  /** Both operators act separately on the part above and the part below bit k. */
  lemma {:induction false} AndJoin(a: nat, b: nat, c: nat, d: nat, k: nat)
    requires b < Pow2(k) && d < Pow2(k)
    ensures And(Join(a, b, k), Join(c, d, k)) == Join(And(a, c), And(b, d), k)
  {
    if k == 0 {
    } else {
      JoinHalf(a, b, k);
      JoinHalf(c, d, k);
      AndJoin(a, b / 2, c, d / 2, k - 1);
      AndStep(Join(a, b, k), Join(c, d, k));
      AndStep(b, d);
      JoinHalf(And(a, c), And(b, d), k);
    }
  }

  lemma {:induction false} OrJoin(a: nat, b: nat, c: nat, d: nat, k: nat)
    requires b < Pow2(k) && d < Pow2(k)
    ensures Or(Join(a, b, k), Join(c, d, k)) == Join(Or(a, c), Or(b, d), k)
  {
    if k == 0 {
    } else {
      JoinHalf(a, b, k);
      JoinHalf(c, d, k);
      OrJoin(a, b / 2, c, d / 2, k - 1);
      OrStep(Join(a, b, k), Join(c, d, k));
      OrStep(b, d);
      JoinHalf(Or(a, c), Or(b, d), k);
    }
  }

  lemma AndStep(x: nat, y: nat)
    ensures And(x, y) == (if x % 2 == 1 && y % 2 == 1 then 1 else 0) + 2 * And(x / 2, y / 2)
  {
  }

  lemma OrStep(x: nat, y: nat)
    ensures Or(x, y) == (if x % 2 == 1 || y % 2 == 1 then 1 else 0) + 2 * Or(x / 2, y / 2)
  {
  }

  lemma {:induction false} BitJoin(a: nat, b: nat, k: nat, j: nat)
    requires b < Pow2(k)
    ensures Bit(Join(a, b, k), j) <==> if j < k then Bit(b, j) else Bit(a, j - k)
  {
    if k == 0 {
    } else {
      JoinHalf(a, b, k);
      if j > 0 { BitJoin(a, b / 2, k - 1, j - 1); }
    }
  }

  lemma {:induction false} JoinBound(a: nat, b: nat, k: nat, w: nat)
    requires a < Pow2(w) && b < Pow2(k)
    ensures Join(a, b, k) < Pow2(w + k)
  {
    if k == 0 {
    } else {
      JoinHalf(a, b, k);
      JoinBound(a, b / 2, k - 1, w);
    }
  }

  lemma JoinValue(a: nat, b: nat, k: nat, p: nat)
    requires p == Pow2(k)
    ensures Join(a, b, k) == p * a + b
  {
  }

  /** AndJoin and OrJoin for operands given by their two parts. */
  lemma AndParts(x: nat, y: nat, a: nat, b: nat, c: nat, d: nat, k: nat, p: nat)
    requires p == Pow2(k) && b < p && d < p
    requires x == p * a + b && y == p * c + d
    ensures And(x, y) == p * And(a, c) + And(b, d)
  {
    hide *;
    JoinValue(a, b, k, p);
    JoinValue(c, d, k, p);
    AndJoin(a, b, c, d, k);
    JoinValue(And(a, c), And(b, d), k, p);
  }

  lemma OrParts(x: nat, y: nat, a: nat, b: nat, c: nat, d: nat, k: nat, p: nat)
    requires p == Pow2(k) && b < p && d < p
    requires x == p * a + b && y == p * c + d
    ensures Or(x, y) == p * Or(a, c) + Or(b, d)
  {
    hide *;
    JoinValue(a, b, k, p);
    JoinValue(c, d, k, p);
    OrJoin(a, b, c, d, k);
    JoinValue(Or(a, c), Or(b, d), k, p);
  }

  /** A mask of k ones keeps a value of k bits. */
  lemma {:induction false} AndFull(x: nat, k: nat, mask: nat)
    requires x < Pow2(k) && mask == Pow2(k) - 1
    ensures And(x, mask) == x
  {
    if k == 0 || x == 0 {
    } else {
      assert mask / 2 == Pow2(k - 1) - 1 && mask % 2 == 1;
      AndFull(x / 2, k - 1, mask / 2);
    }
  }

  lemma AndNone(x: nat)
    ensures And(x, 0) == 0 && And(0, x) == 0
  {
  }

  lemma OrNone(x: nat)
    ensures Or(x, 0) == x && Or(0, x) == x
  {
  }

  /** `x & (2^k - 1)` is the part below bit k. */
  lemma LowPart(x: nat, q: nat, r: nat, k: nat, p: nat)
    requires p == Pow2(k) && r < p && x == p * q + r
    ensures And(x, p - 1) == r
  {
    hide *;
    AndParts(x, p - 1, q, r, 0, p - 1, k, p);
    AndNone(q);
    AndFull(r, k, p - 1);
  }
}
