/** CIDR blocks (prefix notation, section 3.1 of RFC 4632), the shortest list of blocks that covers
    a set of addresses, and the greedy conversion of one address range. */
module Cidr {
  import opened Words

  datatype Block = Block(addr: nat, bits: nat)

  /** A network address with a prefix length of at most 32, all host bits zero. */
  ghost predicate IsBlock(c: Block) {
    c.bits <= 32 && c.addr < U32 && Floor(c.addr, 32 - c.bits) == c.addr
  }

  function Size(c: Block): nat {
    if c.bits <= 32 then Pow2(32 - c.bits) else 0
  }

  predicate InBlock(c: Block, x: int) {
    c.addr <= x < c.addr + Size(c)
  }

  ghost predicate Within(c: Block, s: iset<int>) {
    forall x :: InBlock(c, x) ==> x in s
  }

  /** The block twice as large that holds `c`. */
  ghost function Parent(c: Block): Block
    requires 0 < c.bits <= 32
  {
    Block(Floor(c.addr, 33 - c.bits), c.bits - 1)
  }

  /** `c` lies in `s` and cannot be doubled. */
  ghost predicate Maximal(c: Block, s: iset<int>) {
    IsBlock(c) && Within(c, s) && (c.bits > 0 ==> !Within(Parent(c), s))
  }

  ghost predicate Listed(l: seq<Block>, x: int) {
    exists c :: c in l && InBlock(c, x)
  }

  ghost predicate Ascending(l: seq<Block>) {
    forall i, j :: 0 <= i < j < |l| ==> l[i].addr + Size(l[i]) <= l[j].addr
  }

  /** The list of all maximal blocks of `s`, in address order. */
  ghost predicate Canonical(l: seq<Block>, s: iset<int>) {
    && (forall c :: c in l ==> Maximal(c, s))
    && Ascending(l)
    && (forall x :: x in s ==> Listed(l, x))
  }

  predicate Between(lo: int, x: int, hi: int) {
    lo <= x <= hi
  }

  ghost function Span(lo: int, hi: int): iset<int> {
    iset x | Between(lo, x, hi)
  }

  // ---------------------------------------------------------------- blocks nest

  lemma InBlockIsFloor(c: Block, x: nat)
    requires IsBlock(c)
    ensures InBlock(c, x) <==> Floor(x, 32 - c.bits) == c.addr
  {
    FloorInBlock(c.addr, x, 32 - c.bits);
  }

  /** Two blocks that meet are nested. */
  lemma Nested(c: Block, d: Block, x: int, y: int)
    requires IsBlock(c) && IsBlock(d) && d.bits <= c.bits
    requires InBlock(c, x) && InBlock(d, x) && InBlock(c, y)
    ensures InBlock(d, y)
  {
    InBlockIsFloor(c, x);
    InBlockIsFloor(c, y);
    InBlockIsFloor(d, x);
    InBlockIsFloor(d, y);
    FloorCoarsen(x, y, 32 - c.bits, 32 - d.bits);
  }

  lemma ParentIsBlock(c: Block)
    requires IsBlock(c) && c.bits > 0
    ensures IsBlock(Parent(c))
    ensures forall x :: InBlock(c, x) ==> InBlock(Parent(c), x)
  {
    FloorNest(c.addr, 33 - c.bits, 33 - c.bits);
    FloorBounds(c.addr, 33 - c.bits);
    forall x | InBlock(c, x) ensures InBlock(Parent(c), x) {
      Nested(c, Parent(c), c.addr, x);
    }
  }

  /** A maximal block swallows every block of `s` that it meets. */
  lemma MaximalSwallows(c: Block, d: Block, s: iset<int>, x: int)
    requires Maximal(c, s) && IsBlock(d) && Within(d, s)
    requires InBlock(c, x) && InBlock(d, x)
    ensures forall y :: InBlock(d, y) ==> InBlock(c, y)
  {
    if c.bits <= d.bits {
      forall y | InBlock(d, y) ensures InBlock(c, y) {
        Nested(d, c, x, y);
      }
    } else {
      var p := Parent(c);
      ParentIsBlock(c);
      forall y | InBlock(p, y) ensures y in s {
        Nested(p, d, x, y);
      }
      assert false;
    }
  }

  lemma SameExtent(c: Block, d: Block)
    requires IsBlock(c) && IsBlock(d)
    requires forall y :: InBlock(d, y) ==> InBlock(c, y)
    requires forall y :: InBlock(c, y) ==> InBlock(d, y)
    ensures c == d
  {
    assert InBlock(c, c.addr) && InBlock(d, d.addr);
    assert InBlock(c, c.addr + Size(c) - 1) && InBlock(d, d.addr + Size(d) - 1);
    if c.bits < d.bits {
      Pow2Monotone(32 - d.bits, 32 - c.bits);
    } else if d.bits < c.bits {
      Pow2Monotone(32 - c.bits, 32 - d.bits);
    }
  }

  lemma MaximalMeetEqual(c: Block, d: Block, s: iset<int>, x: int)
    requires Maximal(c, s) && Maximal(d, s) && InBlock(c, x) && InBlock(d, x)
    ensures c == d
  {
    MaximalSwallows(c, d, s, x);
    MaximalSwallows(d, c, s, x);
    SameExtent(c, d);
  }

  // ---------------------------------------------------------------- the canonical list

  /** Every maximal block is in the canonical list. */
  lemma CanonicalHoldsMaximal(l: seq<Block>, s: iset<int>, c: Block)
    requires Canonical(l, s) && Maximal(c, s)
    ensures c in l
  {
    assert InBlock(c, c.addr);
    var d :| d in l && InBlock(d, c.addr);
    MaximalMeetEqual(c, d, s, c.addr);
  }

  lemma {:induction false} AscendingSameElements(k: seq<Block>, l: seq<Block>)
    requires Ascending(k) && Ascending(l)
    requires forall c :: c in k <==> c in l
    requires forall c :: c in k ==> IsBlock(c)
    ensures k == l
  {
    assert l != [] ==> l[0] in l;
    if k != [] {
      assert k[0] in l;
      assert l[0] in k;
      assert k[0] == l[0];
      var k', l' := k[1..], l[1..];
      assert k == [k[0]] + k' && l == [l[0]] + l';
      assert forall j :: 0 <= j < |k'| ==> k'[j] == k[j + 1];
      assert forall j :: 0 <= j < |l'| ==> l'[j] == l[j + 1];
      forall c ensures c in k' <==> c in l' {
        if i :| 0 <= i < |k'| && k'[i] == c {
          assert k[i + 1] == c && k[0].addr + Size(k[0]) <= k[i + 1].addr;
          assert c in l;
        }
        if i :| 0 <= i < |l'| && l'[i] == c {
          assert l[i + 1] == c && l[0].addr + Size(l[0]) <= l[i + 1].addr;
          assert c in k;
        }
      }
      AscendingSameElements(k', l');
    }
  }

  /** The canonical list is a function of the covered set alone. */
  lemma CanonicalUnique(k: seq<Block>, l: seq<Block>, s: iset<int>)
    requires Canonical(k, s) && Canonical(l, s)
    ensures k == l
  {
    forall c ensures c in k <==> c in l {
      if c in k {
        CanonicalHoldsMaximal(l, s, c);
      }
      if c in l {
        CanonicalHoldsMaximal(k, s, c);
      }
    }
    AscendingSameElements(k, l);
  }

  /** `m` is any list of blocks, in any order and possibly overlapping, with union `s`. */
  ghost predicate IsCover(m: seq<Block>, s: iset<int>) {
    && (forall c :: c in m ==> IsBlock(c) && Within(c, s))
    && (forall x :: x in s ==> Listed(m, x))
  }

  /** Where in `m` the first address of each canonical block is covered. */
  ghost predicate Witnesses(l: seq<Block>, m: seq<Block>, w: seq<nat>) {
    |w| == |l| && forall i :: 0 <= i < |w| ==> w[i] < |m| && InBlock(m[w[i]], l[i].addr)
  }

  lemma CoverWitnesses(l: seq<Block>, m: seq<Block>, s: iset<int>) returns (w: seq<nat>)
    requires Canonical(l, s) && IsCover(m, s)
    ensures Witnesses(l, m, w)
  {
    w := [];
    for i := 0 to |l|
      invariant |w| == i
      invariant forall j :: 0 <= j < i ==> w[j] < |m| && InBlock(m[w[j]], l[j].addr)
    {
      assert InBlock(l[i], l[i].addr) && Maximal(l[i], s);
      var c :| c in m && InBlock(c, l[i].addr);
      var j :| 0 <= j < |m| && m[j] == c;
      w := w + [j];
    }
  }

  lemma WitnessesDistinct(l: seq<Block>, m: seq<Block>, s: iset<int>, w: seq<nat>, i: nat, j: nat)
    requires Canonical(l, s) && IsCover(m, s) && Witnesses(l, m, w)
    requires i < j < |l|
    ensures w[i] != w[j]
  {
    assert l[i].addr + Size(l[i]) <= l[j].addr;
    var c := m[w[i]];
    assert Maximal(l[i], s) && c in m;
    MaximalSwallows(l[i], c, s, l[i].addr);
    assert !InBlock(c, l[j].addr);
  }

  ghost function Elements(w: seq<nat>): set<nat> {
    set k | k in w
  }

  lemma {:induction false} DistinctCount(w: seq<nat>)
    requires forall i, j :: 0 <= i < j < |w| ==> w[i] != w[j]
    ensures |Elements(w)| == |w|
  {
    if w != [] {
      var v, x := w[..|w| - 1], w[|w| - 1];
      DistinctCount(v);
      assert w == v + [x];
      assert Elements(w) == Elements(v) + {x};
      assert x !in Elements(v);
    }
  }

  function UpTo(n: nat): (s: set<nat>)
    ensures |s| == n
    ensures forall k: nat :: k in s <==> k < n
  {
    if n == 0 then {} else UpTo(n - 1) + {n - 1}
  }

  lemma Pigeonhole(w: seq<nat>, n: nat)
    requires forall i :: 0 <= i < |w| ==> w[i] < n
    requires forall i, j :: 0 <= i < j < |w| ==> w[i] != w[j]
    ensures |w| <= n
    ensures |w| == n ==> forall k: nat :: k < n ==> k in w
  {
    DistinctCount(w);
    var e := Elements(w);
    var rest := UpTo(n) - e;
    assert e + rest == UpTo(n) && e !! rest;
    assert |e + rest| == |e| + |rest|;
    if |w| == n {
      assert rest == {};
      forall k: nat | k < n ensures k in w {
        assert k in UpTo(n);
      }
    }
  }

  /** No list of blocks with the same union is shorter, and one of the same length holds the same blocks. */
  lemma CanonicalShortest(l: seq<Block>, m: seq<Block>, s: iset<int>)
    requires Canonical(l, s) && IsCover(m, s)
    ensures |l| <= |m|
    ensures |l| == |m| ==> forall c :: c in m <==> c in l
  {
    var w := CoverWitnesses(l, m, s);
    forall i, j | 0 <= i < j < |w| ensures w[i] != w[j] {
      WitnessesDistinct(l, m, s, w, i, j);
    }
    Pigeonhole(w, |m|);
    if |l| == |m| {
      forall i | 0 <= i < |l| ensures m[w[i]] == l[i] {
        OnlyWitness(l, m, s, w, i);
      }
      forall c | c in m ensures c in l {
        var k :| 0 <= k < |m| && m[k] == c;
        assert k in w;
        var i :| 0 <= i < |w| && w[i] == k;
        assert l[i] == c;
      }
      forall c | c in l ensures c in m {
        var i :| 0 <= i < |l| && l[i] == c;
        assert m[w[i]] == c;
      }
    }
  }

  lemma WitnessInside(l: seq<Block>, m: seq<Block>, s: iset<int>, w: seq<nat>, i: nat, j: nat, y: int)
    requires Canonical(l, s) && IsCover(m, s) && Witnesses(l, m, w)
    requires i < |l| && j < |l| && InBlock(l[i], y) && InBlock(m[w[j]], y)
    ensures j == i
  {
    assert Maximal(l[i], s) && m[w[j]] in m;
    MaximalSwallows(l[i], m[w[j]], s, y);
    assert Maximal(l[j], s) && InBlock(l[j], l[j].addr);
  }

  lemma OnlyWitness(l: seq<Block>, m: seq<Block>, s: iset<int>, w: seq<nat>, i: nat)
    requires Canonical(l, s) && IsCover(m, s) && Witnesses(l, m, w) && i < |l|
    requires forall k: nat :: k < |m| ==> k in w
    ensures m[w[i]] == l[i]
  {
    var c := m[w[i]];
    assert c in m && Maximal(l[i], s) && InBlock(l[i], l[i].addr);
    MaximalSwallows(l[i], c, s, l[i].addr);
    forall y | InBlock(l[i], y) ensures InBlock(c, y) {
      assert y in s;
      var d :| d in m && InBlock(d, y);
      var k :| 0 <= k < |m| && m[k] == d;
      assert k in w;
      var j :| 0 <= j < |w| && w[j] == k;
      WitnessInside(l, m, s, w, i, j, y);
    }
    SameExtent(l[i], c);
  }
}
