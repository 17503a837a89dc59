/** What the block list of one range looks like, and how long it can get. */
module RangeShape {
  import opened Words
  import opened Cidr
  import opened RangeToCidr

  /** A block list as `IpRangeToCidrList` returns it for `lo..hi`. */
  ghost predicate IsConversion(l: seq<Block>, lo: nat, hi: nat) {
    lo <= hi < U32 - 1 && Canonical(l, Span(lo, hi)) && Contiguous(l, lo, hi + 1)
  }

  /** The sizes of the first `n` blocks strictly rise up to block `m` and strictly fall after block `m + 1`. */
  ghost predicate RisesThenFalls(l: seq<Block>, n: nat, m: nat) {
    && m < n <= |l|
    && (forall i, j :: 0 <= i < j <= m ==> l[i].bits > l[j].bits)
    && (m + 1 < n ==> l[m].bits <= l[m + 1].bits)
    && (forall i, j :: m < i < j < n ==> l[i].bits < l[j].bits)
  }

  lemma PieceInRange(c: Block, lo: nat, hi: nat)
    requires Maximal(c, Span(lo, hi)) && hi < U32 - 1
    ensures 0 < c.bits && lo <= c.addr && c.addr + Size(c) <= hi + 1
  {
    assert InBlock(c, c.addr) && InBlock(c, c.addr + Size(c) - 1);
    assert Between(lo, c.addr, hi) && Between(lo, c.addr + Size(c) - 1, hi);
    if c.bits == 0 {
      Pow2Of32();
    }
  }

  lemma Pieces(l: seq<Block>, lo: nat, hi: nat, i: nat)
    requires IsConversion(l, lo, hi) && i < |l|
    ensures Maximal(l[i], Span(lo, hi))
    ensures 0 < l[i].bits <= 32 && lo <= l[i].addr && l[i].addr + Size(l[i]) <= hi + 1
    ensures i + 1 < |l| ==> l[i].addr + Size(l[i]) == l[i + 1].addr
  {
    PieceInRange(l[i], lo, hi);
  }

  /** Two neighbours cannot be joined into one aligned block. */
  lemma NotJoinable(c: Block, d: Block, lo: nat, hi: nat)
    requires Maximal(c, Span(lo, hi)) && hi < U32 - 1
    requires d.bits <= c.bits && d.addr == c.addr + Size(c) && d.addr + Size(d) <= hi + 1
    ensures c.bits > 0 && Floor(c.addr, 33 - c.bits) != c.addr
  {
    PieceInRange(c, lo, hi);
    Pow2Monotone(32 - c.bits, 32 - d.bits);
    var x :| InBlock(Parent(c), x) && x !in Span(lo, hi);
    assert !Between(lo, x, hi);
  }

  /** A block that follows one at least as large starts a block of twice its size. */
  lemma AlignedAfterLarger(c: Block, d: Block, lo: nat, hi: nat)
    requires Maximal(c, Span(lo, hi)) && Maximal(d, Span(lo, hi)) && hi < U32 - 1
    requires c.bits <= d.bits && d.addr == c.addr + Size(c)
    ensures d.bits > 0 && Floor(d.addr, 33 - d.bits) == d.addr
  {
    hide Pow2, Floor;
    PieceInRange(c, lo, hi);
    PieceInRange(d, lo, hi);
    AlignedNext(c.addr, 32 - c.bits);
    if c.bits < d.bits {
      AlignedFiner(d.addr, 33 - d.bits, 32 - c.bits);
    } else {
      AlignedAlternate(c.addr, 32 - c.bits);
      NotJoinable(c, d, lo, hi);
    }
  }

  lemma NoValley(l: seq<Block>, lo: nat, hi: nat, i: nat)
    requires IsConversion(l, lo, hi) && i + 2 < |l| && l[i].bits <= l[i + 1].bits
    ensures l[i + 1].bits < l[i + 2].bits
  {
    Pieces(l, lo, hi, i);
    Pieces(l, lo, hi, i + 1);
    Pieces(l, lo, hi, i + 2);
    AlignedAfterLarger(l[i], l[i + 1], lo, hi);
    if l[i + 2].bits <= l[i + 1].bits {
      NotJoinable(l[i + 1], l[i + 2], lo, hi);
    }
  }

  /** Sizes strictly rise and then strictly fall, where the two in the middle may be equal. */
  lemma SizesRiseThenFall(l: seq<Block>, lo: nat, hi: nat, n: nat) returns (m: nat)
    requires IsConversion(l, lo, hi) && 0 < n <= |l|
    ensures RisesThenFalls(l, n, m)
  {
    m := 0;
    if n > 1 {
      m := SizesRiseThenFall(l, lo, hi, n - 1);
      if m < n - 2 {
        NoValley(l, lo, hi, n - 3);
      } else if l[m].bits > l[n - 1].bits {
        m := n - 1;
      }
    }
  }

  /** Every prefix length occurs at most twice. */
  lemma EachLengthAtMostTwice(l: seq<Block>, lo: nat, hi: nat, i: nat, j: nat, k: nat)
    requires IsConversion(l, lo, hi) && i < j < k < |l|
    ensures !(l[i].bits == l[j].bits == l[k].bits)
  {
    var m := SizesRiseThenFall(l, lo, hi, |l|);
    assert j <= m ==> l[i].bits > l[j].bits;
    assert j > m ==> l[j].bits < l[k].bits;
  }

  lemma Rising(l: seq<Block>, n: nat, m: nat, i: nat, j: nat)
    requires RisesThenFalls(l, n, m) && i <= j <= m
    ensures l[i].bits >= l[j].bits + (j - i)
    decreases j
  {
    if i < j {
      Rising(l, n, m, i, j - 1);
    }
  }

  lemma Falling(l: seq<Block>, n: nat, m: nat, i: nat, j: nat)
    requires RisesThenFalls(l, n, m) && m < i <= j < n
    ensures l[j].bits >= l[i].bits + (j - i)
    decreases j
  {
    if i < j {
      Falling(l, n, m, i, j - 1);
    }
  }

  /** A half of the address space can only be the lower half. */
  lemma HalfIsLowerHalf(c: Block, lo: nat, hi: nat)
    requires Maximal(c, Span(lo, hi)) && hi < U32 - 1 && c.bits <= 1
    ensures c.bits == 1 && c.addr == 0 && Size(c) == 0x8000_0000
  {
    PieceInRange(c, lo, hi);
    Pow2Of32();
    FloorOfZero(31);
    FloorInBlock(0, c.addr, 31);
    AlignedNext(0, 31);
    FloorInBlock(0x8000_0000, c.addr, 31);
  }

  /** No range needs more than 62 blocks. */
  lemma AtMost62Blocks(l: seq<Block>, lo: nat, hi: nat)
    requires IsConversion(l, lo, hi)
    ensures |l| <= 62
  {
    var m := SizesRiseThenFall(l, lo, hi, |l|);
    Pieces(l, lo, hi, 0);
    Pieces(l, lo, hi, m);
    Rising(l, |l|, m, 0, m);
    if m + 1 < |l| {
      Pieces(l, lo, hi, m + 1);
      Pieces(l, lo, hi, |l| - 1);
      Falling(l, |l|, m, m + 1, |l| - 1);
      if l[m + 1].bits <= 1 {
        HalfIsLowerHalf(l[m + 1], lo, hi);
      } else if l[m].bits <= 1 {
        HalfIsLowerHalf(l[m], lo, hi);
        if m > 0 {
          Pieces(l, lo, hi, m - 1);
        }
      }
    }
  }

  /** The range of one CIDR block converts to that block alone. */
  lemma SingleBlockRoundTrip(c: Block, l: seq<Block>)
    requires IsBlock(c) && c.addr + Size(c) < U32
    requires IsConversion(l, c.addr, c.addr + Size(c) - 1)
    ensures l == [c]
  {
    hide Pow2, Floor;
    var s := Span(c.addr, c.addr + Size(c) - 1);
    assert Within(c, s) by {
      forall x | InBlock(c, x) ensures x in s {
        assert Between(c.addr, x, c.addr + Size(c) - 1);
      }
    }
    if c.bits > 0 {
      var p := Parent(c);
      FloorBounds(c.addr, 33 - c.bits);
      Pow2Monotone(32 - c.bits, 33 - c.bits);
      assert InBlock(p, p.addr) && InBlock(p, p.addr + Size(p) - 1);
      assert !(p.addr in s) || !(p.addr + Size(p) - 1 in s);
    }
    forall x | x in s ensures Listed([c], x) {
      assert InBlock(c, x) && c in [c];
    }
    CanonicalUnique(l, [c], s);
  }

  // ---------------------------------------------------------------- 62 is reached

  /** Block `i` of the longest conversion: 1, 2-3, 4-7, ... up to the middle of the address space
      and from there ..., 2^32-4 to 2^32-3, 2^32-2. */
  function LongestBlock(i: nat): Block
    requires i < 62
  {
    if i < 31 then Block(Pow2(i), 32 - i) else
    Pow2Of32(); Pow2Monotone(62 - i, 32);
    Block(U32 - Pow2(62 - i), i - 29)
  }

  lemma LongestContiguous(i: nat)
    requires i < 61
    ensures LongestBlock(i).addr + Size(LongestBlock(i)) == LongestBlock(i + 1).addr
  {
    Pow2Of32();
    assert i < 31 ==> Pow2(i + 1) == 2 * Pow2(i);
    assert i >= 31 ==> Pow2(62 - i) == 2 * Pow2(61 - i);
  }

  lemma LongestEnds()
    ensures LongestBlock(0).addr == 1 && LongestBlock(61).addr + Size(LongestBlock(61)) == U32 - 1
  {
  }

  lemma RisingBlockAligned(e: nat)
    ensures Floor(Pow2(e), e) == Pow2(e)
    ensures Floor(Pow2(e), e + 1) == 0
  {
    FloorOfZero(e);
    AlignedNext(0, e);
    FloorOfZero(e + 1);
    FloorInBlock(0, Pow2(e), e + 1);
  }

  lemma FallingBlockAligned(k: nat, w: nat)
    requires k <= w
    ensures Pow2(k) <= Pow2(w) && Floor(Pow2(w) - Pow2(k), k) == Pow2(w) - Pow2(k)
  {
    Pow2Monotone(k, w);
    if k > 0 {
      FallingBlockAligned(k - 1, w - 1);
    }
  }

  /** Its parent sticks out of the range by the first or the last address. */
  lemma LongestBlockMaximal(i: nat)
    requires i < 62
    ensures Maximal(LongestBlock(i), Span(1, U32 - 2))
  {
    hide Pow2, Floor;
    Pow2Of32();
    var c := LongestBlock(i);
    if i < 31 {
      RisingBlockAligned(i);
      Pow2Monotone(i, 31);
      SticksOut(c, 0);
    } else {
      FallingBlockAligned(62 - i, 32);
      Pow2Monotone(61 - i, 62 - i);
      Pow2Monotone(62 - i, 31);
      AlignedFiner(c.addr, 61 - i, 62 - i);
      SticksOut(c, U32 - 1);
    }
  }

  lemma SticksOut(c: Block, out: int)
    requires IsBlock(c) && 0 < c.bits && 1 <= c.addr && c.addr + Size(c) <= U32 - 1
    requires InBlock(Parent(c), out) && (out < 1 || out > U32 - 2)
    ensures Maximal(c, Span(1, U32 - 2))
  {
    assert !Between(1, out, U32 - 2);
    forall x | InBlock(c, x) ensures x in Span(1, U32 - 2) {
      assert Between(1, x, U32 - 2);
    }
  }

  /** All addresses but the first and the last take exactly 62 blocks. */
  lemma Exactly62Blocks(l: seq<Block>)
    requires IsConversion(l, 1, U32 - 2)
    ensures |l| == 62
  {
    Pow2Of32();
    hide Pow2, Floor, Maximal, Canonical;
    var k := seq(62, i requires 0 <= i < 62 => LongestBlock(i));
    forall i, j | 0 <= i < j < 62 && j == i + 1 ensures k[i].addr + Size(k[i]) == k[j].addr {
      LongestContiguous(i);
    }
    LongestEnds();
    forall c | c in k ensures Maximal(c, Span(1, U32 - 2)) {
      var i :| 0 <= i < 62 && c == LongestBlock(i);
      LongestBlockMaximal(i);
    }
    ContiguousCovers(k, 1, U32 - 1);
    CanonicalUnique(l, k, Span(1, U32 - 2));
  }
}
