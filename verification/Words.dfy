/** Unsigned machine words as natural numbers, with C's bitwise operators written out.
    Everything is defined by halving, so that the proofs need linear arithmetic only. */
module Words {

  function Pow2(n: nat): (p: nat)
    ensures p >= 1
  {
    if n == 0 then 1 else 2 * Pow2(n - 1)
  }

  const U32: nat := 0x1_0000_0000

  /** C's `&`, bit by bit. */
  function BitAnd(a: nat, b: nat): nat {
    if a == 0 || b == 0 then 0 else 
    (if a % 2 == 1 && b % 2 == 1 then 1 else 0) + 2 * BitAnd(a / 2, b / 2)
  }

  /** C's `|`, bit by bit. */
  function BitOr(a: nat, b: nat): nat {
    if a == 0 then b else if b == 0 then a else
    (if a % 2 == 1 || b % 2 == 1 then 1 else 0) + 2 * BitOr(a / 2, b / 2)
  }

  /** Bit `n` of a number, bit 0 being the least significant. */
  predicate Bit(a: nat, n: nat) {
    if n == 0 then a % 2 == 1 else Bit(a / 2, n - 1)
  }

  /** Bits `e` up to but not including `w` are the same in both numbers. */
  predicate BitsAgree(a: nat, b: nat, e: nat, w: nat) {
    forall i :: e <= i < w ==> Bit(a, i) == Bit(b, i)
  }

  /** `a` with its `e` low bits cleared: the first address of the block of 2^e addresses around `a`. */
  function Floor(a: nat, e: nat): nat {
    if e == 0 then a else 2 * Floor(a / 2, e - 1)
  }

  lemma Pow2Sum(a: nat, b: nat)
    ensures Pow2(a + b) == Pow2(a) * Pow2(b)
  {
    if a > 0 {
      Pow2Sum(a - 1, b);
      assert 2 * (Pow2(a - 1) * Pow2(b)) == (2 * Pow2(a - 1)) * Pow2(b);
    }
  }

  lemma Pow2Monotone(a: nat, b: nat)
    requires a <= b
    ensures Pow2(a) <= Pow2(b)
    ensures a < b ==> 2 * Pow2(a) <= Pow2(b)
  {
    if a < b {
      Pow2Monotone(a, b - 1);
    }
  }

  lemma Pow2Of32()
    ensures Pow2(31) == 0x8000_0000 && Pow2(32) == U32
  {
    assert Pow2(8) == 0x100;
    Pow2Sum(8, 8);
    Pow2Sum(16, 8);
    assert Pow2(7) == 0x80;
    Pow2Sum(24, 7);
    Pow2Sum(16, 16);
  }

  /** Clearing low bits gives the start of an interval of 2^e numbers holding `a`. */
  lemma FloorBounds(a: nat, e: nat)
    ensures Floor(a, e) <= a < Floor(a, e) + Pow2(e)
  {
    if e > 0 {
      FloorBounds(a / 2, e - 1);
    }
  }

  /** The numbers with the same floor are exactly that interval. */
  lemma FloorInBlock(a: nat, x: nat, e: nat)
    ensures Floor(x, e) == Floor(a, e) <==> Floor(a, e) <= x < Floor(a, e) + Pow2(e)
  {
    if e > 0 {
      FloorInBlock(a / 2, x / 2, e - 1);
    }
  }

  /** Blocks nest: a coarser floor forgets a finer one. */
  lemma FloorNest(a: nat, e: nat, f: nat)
    requires e <= f
    ensures Floor(Floor(a, e), f) == Floor(a, f)
    decreases e
  {
    if e > 0 {
      FloorNest(a / 2, e - 1, f - 1);
    }
  }

  /** Equal finer floors give equal coarser floors. */
  lemma FloorCoarsen(a: nat, b: nat, e: nat, f: nat)
    requires e <= f && Floor(a, e) == Floor(b, e)
    ensures Floor(a, f) == Floor(b, f)
  {
    FloorNest(a, e, f);
    FloorNest(b, e, f);
  }

  /** An aligned number stays aligned at every finer grain. */
  lemma AlignedFiner(a: nat, e: nat, f: nat)
    requires e <= f && Floor(a, f) == a
    ensures Floor(a, e) == a
  {
    FloorBounds(a, e);
    FloorNest(a, e, f);
    FloorBounds(Floor(a, e), f);
  }

  /** The next block starts at an aligned number too. */
  lemma AlignedNext(a: nat, e: nat)
    requires Floor(a, e) == a
    ensures Floor(a + Pow2(e), e) == a + Pow2(e)
  {
    if e > 0 {
      AlignedNext(a / 2, e - 1);
    }
  }

  /** Of two neighbouring blocks exactly one starts a block of twice the size. */
  lemma AlignedAlternate(a: nat, e: nat)
    requires Floor(a, e) == a
    ensures Floor(a, e + 1) == a <==> Floor(a + Pow2(e), e + 1) != a + Pow2(e)
    ensures Floor(a, e + 1) == a ==> Floor(a + Pow2(e), e + 1) == a
    ensures Floor(a, e + 1) != a ==> Floor(a, e + 1) + Pow2(e) == a
  {
    if e > 0 {
      AlignedAlternate(a / 2, e - 1);
    }
  }

  lemma AndZero(a: nat)
    ensures BitAnd(a, 0) == 0 && BitAnd(0, a) == 0
  {
  }

  lemma AndHalves(a: nat, b: nat)
    ensures BitAnd(a, b) == (if a % 2 == 1 && b % 2 == 1 then 1 else 0) + 2 * BitAnd(a / 2, b / 2)
  {
    AndZero(a / 2);
    AndZero(b / 2);
  }

  lemma {:induction false} AndAllOnes(a: nat, w: nat)
    requires a < Pow2(w)
    ensures BitAnd(a, Pow2(w) - 1) == a
  {
    if w > 0 {
      AndHalves(a, Pow2(w) - 1);
      AndAllOnes(a / 2, w - 1);
    }
  }

  /** Masking with a run of high ones is clearing the low bits. */
  lemma {:induction false} AndHighOnes(a: nat, k: nat, w: nat)
    requires a < Pow2(w) && k <= w
    ensures Pow2(k) <= Pow2(w)
    ensures BitAnd(a, Pow2(w) - Pow2(k)) == Floor(a, k)
    decreases w
  {
    Pow2Monotone(k, w);
    if k == 0 {
      AndAllOnes(a, w);
    } else {
      AndHalves(a, Pow2(w) - Pow2(k));
      AndHighOnes(a / 2, k - 1, w - 1);
    }
  }

  lemma FloorOfZero(k: nat)
    ensures Floor(0, k) == 0
  {
  }

  /** Setting the next lower bit of a run of high ones. */
  lemma OrExtendsHighOnes(k: nat, w: nat)
    requires k < w
    ensures Pow2(k + 1) <= Pow2(w) && Pow2(k) <= Pow2(w)
    ensures BitOr(Pow2(w) - Pow2(k + 1), Pow2(k)) == Pow2(w) - Pow2(k)
  {
    Pow2Monotone(k + 1, w);
    if k > 0 {
      OrExtendsHighOnes(k - 1, w - 1);
    }
  }

  lemma FloorKeepsHighBits(a: nat, e: nat, i: nat)
    requires e <= i
    ensures Bit(Floor(a, e), i) <==> Bit(a, i)
    decreases e
  {
    if e > 0 {
      FloorKeepsHighBits(a / 2, e - 1, i - 1);
    }
  }

  lemma {:induction false} EqualBitsEqualFloors(a: nat, b: nat, e: nat, w: nat)
    requires a < Pow2(w) && b < Pow2(w) && e <= w
    requires BitsAgree(a, b, e, w)
    ensures Floor(a, e) == Floor(b, e)
    decreases w
  {
    if w > 0 {
      forall i | 0 <= i < w - 1 && e <= i + 1 ensures Bit(a / 2, i) <==> Bit(b / 2, i) {
        assert Bit(a, i + 1) == Bit(a / 2, i) && Bit(b, i + 1) == Bit(b / 2, i);
      }
      EqualBitsEqualFloors(a / 2, b / 2, if e == 0 then 0 else e - 1, w - 1);
      assert e == 0 ==> (Bit(a, 0) <==> Bit(b, 0));
    }
  }

  /** Cleared low bits leave exactly the high bits to compare. */
  lemma FloorEqualIffBitsAgree(a: nat, b: nat, e: nat, w: nat)
    requires a < Pow2(w) && b < Pow2(w) && e <= w
    ensures Floor(a, e) == Floor(b, e) <==> BitsAgree(a, b, e, w)
  {
    if Floor(a, e) == Floor(b, e) {
      forall i | e <= i < w ensures Bit(a, i) <==> Bit(b, i) {
        FloorKeepsHighBits(a, e, i);
        FloorKeepsHighBits(b, e, i);
      }
    } else if BitsAgree(a, b, e, w) {
      EqualBitsEqualFloors(a, b, e, w);
    }
  }
}
