/** The greedy conversion of one address range into CIDR blocks. */
module RangeToCidr {
  import opened Words
  import opened Cidr

  /** A mask of `b` leading ones; the shift drops what leaves the 32-bit word. */
  function Imask(b: nat): nat {
    if b == 0 || b > 32 then 0 else (0xffff_ffff * Pow2(32 - b)) % U32
  }

  lemma ImaskClearsHostBits(a: nat, b: nat)
    requires a < U32 && b <= 32
    ensures Imask(b) < U32
    ensures BitAnd(a, Imask(b)) == Floor(a, 32 - b)
  {
    hide Pow2, Floor, BitAnd;
    Pow2Of32();
    if b == 0 {
      AndZero(a);
      FloorOfZero(32);
      FloorInBlock(0, a, 32);
    } else {
      var p := Pow2(32 - b);
      Pow2Monotone(32 - b, 32);
      assert 0xffff_ffff * p == U32 * (p - 1) + (U32 - p);
      AndHighOnes(a, 32 - b, 32);
    }
  }

  /** The shortest prefix length to which `addr` is aligned. */
  method MaxBlock(addr: nat, bits: nat) returns (r: nat)
    requires addr < U32 && bits <= 32
    requires Floor(addr, 32 - bits) == addr
    ensures r <= bits
    ensures Floor(addr, 32 - r) == addr
    ensures r > 0 ==> Floor(addr, 33 - r) != addr
  {
    r := bits;
    while r > 0
      invariant r <= bits
      invariant Floor(addr, 32 - r) == addr
    {
      var m := Imask(r - 1);
      ImaskClearsHostBits(addr, r - 1);
      if BitAnd(addr, m) != addr {
        return;
      }
      r := r - 1;
    }
  }

  /** The two addresses lie in the same block of every size above 2^e. */
  ghost predicate AgreeAbove(a: nat, b: nat, e: nat) {
    forall f: nat :: e < f <= 32 ==> Floor(a, f) == Floor(b, f)
  }

  /** The length of the shortest prefix that tells `a` from the address after `b`. */
  method MaxDiff(a: nat, b: nat) returns (bits: nat)
    requires a < U32 && b < U32
    ensures bits <= 32
    ensures AgreeAbove(a, (b + 1) % U32, 32 - bits)
    ensures bits < 32 ==> Floor(a, 32 - bits) != Floor((b + 1) % U32, 32 - bits)
  {
    var b := (b + 1) % U32;
    bits := 0;
    while bits < 32
      invariant bits <= 32
      invariant AgreeAbove(a, b, 32 - bits)
    {
      var m := Imask(bits);
      ImaskClearsHostBits(a, bits);
      ImaskClearsHostBits(b, bits);
      if BitAnd(a, m) != BitAnd(b, m) {
        return;
      }
      bits := bits + 1;
    }
  }

  /** Blocks follow one another without gap from `lo` up to `next`. */
  ghost predicate Contiguous(l: seq<Block>, lo: int, next: int) {
    && (l == [] ==> lo == next)
    && (l != [] ==> l[0].addr == lo && l[|l| - 1].addr + Size(l[|l| - 1]) == next)
    && forall i, j :: 0 <= i < j < |l| && j == i + 1 ==> l[i].addr + Size(l[i]) == l[j].addr
  }

  /** No block of the range holds both `p` and the address before it. */
  ghost predicate NoStraddle(lo: nat, hi: nat, p: nat) {
    forall e: nat :: e <= 32 && Floor(p, e) < p ==> Floor(p, e) < lo || Floor(p, e) + Pow2(e) > hi + 1
  }

  /** The block the loop chooses at `p`: as large as the alignment of `p` and the end of the range allow. */
  ghost predicate Greedy(hi: nat, p: nat, bits: nat) {
    && 1 <= bits <= 32
    && Floor(p, 32 - bits) == p
    && Floor(p, 32 - bits) != Floor(hi + 1, 32 - bits)
    && (Floor(p, 33 - bits) != p || Floor(p, 33 - bits) == Floor(hi + 1, 33 - bits))
  }

  lemma GreedyFits(hi: nat, p: nat, bits: nat)
    requires p <= hi < U32 && Greedy(hi, p, bits)
    ensures p + Pow2(32 - bits) <= hi + 1
  {
    FloorInBlock(p, hi + 1, 32 - bits);
  }

  lemma GreedyMaximal(lo: nat, hi: nat, p: nat, bits: nat)
    requires lo <= p <= hi < U32 && Greedy(hi, p, bits) && NoStraddle(lo, hi, p)
    ensures Maximal(Block(p, bits), Span(lo, hi))
  {
    GreedyFits(hi, p, bits);
    var c := Block(p, bits);
    var f := Floor(p, 33 - bits);
    assert Parent(c) == Block(f, bits - 1);
    FloorBounds(p, 33 - bits);
    var out := if f == p then hi + 1 else if f < lo then f else f + Pow2(33 - bits) - 1;
    FloorInBlock(p, hi + 1, 33 - bits);
    assert InBlock(Parent(c), out);
    assert !Between(lo, out, hi);
  }

  lemma GreedyAdvances(lo: nat, hi: nat, p: nat, bits: nat)
    requires lo <= p <= hi < U32 && Greedy(hi, p, bits) && NoStraddle(lo, hi, p)
    ensures NoStraddle(lo, hi, p + Pow2(32 - bits))
  {
    var e0 := 32 - bits;
    var q := p + Pow2(e0);
    FloorInBlock(p, q - 1, e0);
    FloorInBlock(p, q, e0);
    forall e: nat | e <= 32 && Floor(q, e) < q
      ensures Floor(q, e) < lo || Floor(q, e) + Pow2(e) > hi + 1
    {
      FloorInBlock(q, q - 1, e);
      FloorBounds(q, e);
      if e <= e0 {
        FloorCoarsen(q, q - 1, e, e0);
        assert false;
      }
      FloorCoarsen(p, q - 1, e0, e);
      GreedyParentLeaves(lo, hi, p, bits, e);
    }
  }

  lemma GreedyParentLeaves(lo: nat, hi: nat, p: nat, bits: nat, e: nat)
    requires lo <= p <= hi < U32 && Greedy(hi, p, bits) && NoStraddle(lo, hi, p)
    requires 32 - bits < e <= 32
    ensures Floor(p, e) < lo || Floor(p, e) + Pow2(e) > hi + 1
  {
    FloorBounds(p, e);
    if Floor(p, e) == p {
      AlignedFiner(p, 33 - bits, e);
      FloorCoarsen(p, hi + 1, 33 - bits, e);
      FloorBounds(hi + 1, e);
    }
  }

  /** The state of the conversion when `p` is the next address to place. */
  ghost predicate Partial(l: seq<Block>, lo: nat, hi: nat, p: nat) {
    && lo <= p <= hi + 1
    && NoStraddle(lo, hi, p)
    && (forall c :: c in l ==> Maximal(c, Span(lo, hi)))
    && Contiguous(l, lo, p)
  }

  lemma PartialStep(l: seq<Block>, lo: nat, hi: nat, p: nat, bits: nat)
    requires Partial(l, lo, hi, p) && p <= hi < U32 && Greedy(hi, p, bits)
    ensures Partial(l + [Block(p, bits)], lo, hi, p + Pow2(32 - bits))
  {
    GreedyFits(hi, p, bits);
    GreedyMaximal(lo, hi, p, bits);
    GreedyAdvances(lo, hi, p, bits);
  }

  /** The prefix length of the block placed at `start`. */
  method MaxSize(start: nat, end: nat) returns (bits: nat)
    requires start <= end < U32 - 1
    ensures Greedy(end, start, bits)
  {
    assert Floor(start, 0) == start && (end + 1) % U32 == end + 1;
    hide Pow2, Floor, AgreeAbove, Greedy;
    var maxsize := MaxBlock(start, 32);
    var diff := MaxDiff(start, end);
    bits := if maxsize > diff then maxsize else diff;
    AlignedFiner(start, 32 - bits, 32 - maxsize);
    ChoiceIsGreedy(start, end, bits, diff);
  }

  /** A sum in a 32-bit word. */
  function Wrapped(n: nat): (r: nat)
    ensures n < U32 ==> r == n
  {
    n % U32
  }

  /** Appends the blocks that make up the range to `cidrs`. The range may not end at the last address:
      `end >= start` would hold for every 32-bit `start` and the loop would not end. */
  method IpRangeToCidrList(cidrs0: seq<Block>, start0: nat, end: nat) returns (cidrs: seq<Block>, nadded: nat)
    requires start0 < U32 && end < U32 - 1
    ensures nadded == |cidrs| - |cidrs0| && cidrs[..|cidrs0|] == cidrs0
    ensures start0 > end ==> nadded == 0
    ensures start0 <= end ==> Canonical(cidrs[|cidrs0|..], Span(start0, end))
    ensures start0 <= end ==> Contiguous(cidrs[|cidrs0|..], start0, end + 1)
  {
    assert NoStraddle(start0, end, start0);
    hide Pow2, Floor, Greedy, NoStraddle, Maximal, Canonical, Wrapped;
    var start := start0;
    ghost var added: seq<Block> := [];
    cidrs, nadded := cidrs0, 0;
    while end >= start
      invariant nadded == |added| && cidrs == cidrs0 + added
      invariant start0 <= end ==> Partial(added, start0, end, start)
      invariant start0 > end ==> start == start0 && added == []
      decreases end + 1 - start
    {
      var maxsize := MaxSize(start, end);
      PartialStep(added, start0, end, start, maxsize);
      cidrs := cidrs + [Block(start, maxsize)];
      added := added + [Block(start, maxsize)];
      nadded := nadded + 1;
      start := Wrapped(start + Pow2(32 - maxsize));
    }
    assert cidrs[|cidrs0|..] == added;
    if start0 <= end {
      ContiguousCovers(added, start0, end + 1);
    }
  }

  lemma ChoiceIsGreedy(p: nat, hi: nat, bits: nat, diff: nat)
    requires p <= hi < U32 - 1
    requires diff <= bits <= 32 && diff <= 32
    requires AgreeAbove(p, hi + 1, 32 - diff)
    requires diff < 32 ==> Floor(p, 32 - diff) != Floor(hi + 1, 32 - diff)
    requires Floor(p, 32 - bits) == p
    requires bits > diff ==> Floor(p, 33 - bits) != p
    ensures Greedy(hi, p, bits)
  {
    assert Floor(p, 0) == p && Floor(hi + 1, 0) == hi + 1;
    hide Pow2, Floor;
    Pow2Of32();
    FloorInBlock(0, p, 32);
    FloorInBlock(0, hi + 1, 32);
    FloorOfZero(32);
    assert diff > 0;
    if diff == 32 {
      assert bits == 32;
    } else if Floor(p, 32 - bits) == Floor(hi + 1, 32 - bits) {
      FloorCoarsen(p, hi + 1, 32 - bits, 32 - diff);
    }
  }

  lemma ContiguousAscends(l: seq<Block>, lo: int, next: int, i: nat, j: nat)
    requires Contiguous(l, lo, next) && i < j < |l|
    requires forall c :: c in l ==> IsBlock(c)
    ensures l[i].addr + Size(l[i]) <= l[j].addr
    decreases j
  {
    if i + 1 < j {
      ContiguousAscends(l, lo, next, i, j - 1);
      assert l[j - 1] in l;
    }
  }

  lemma {:induction false} ContiguousListed(l: seq<Block>, lo: int, next: int, x: int)
    requires Contiguous(l, lo, next) && lo <= x < next
    ensures Listed(l, x)
  {
    if l != [] {
      var n := |l| - 1;
      if x >= l[n].addr {
        assert InBlock(l[n], x);
      } else {
        ContiguousListed(l[..n], lo, l[n].addr, x);
        var c :| c in l[..n] && InBlock(c, x);
        assert c in l;
      }
    }
  }

  lemma ContiguousCovers(l: seq<Block>, lo: int, next: int)
    requires Contiguous(l, lo, next)
    requires forall c :: c in l ==> Maximal(c, Span(lo, next - 1))
    ensures Canonical(l, Span(lo, next - 1))
  {
    forall i, j | 0 <= i < j < |l| ensures l[i].addr + Size(l[i]) <= l[j].addr {
      ContiguousAscends(l, lo, next, i, j);
    }
    forall x | x in Span(lo, next - 1) ensures Listed(l, x) {
      ContiguousListed(l, lo, next, x);
    }
  }
}
