/** Address ranges are collected, black and white, and collapsed into the blocks that are black and not white. */
module Blacklist {
  import opened Words
  import opened Cidr
  import opened RangeToCidr
  import opened Wrappers

  datatype Kind = White | Black

  /** One boundary of a range: how many black and white ranges start (or, negative, end) at `addr`. */
  datatype Entry = Entry(addr: nat, black: int, white: int)

  /** A half-open address range. */
  datatype Range = Range(start: nat, end: nat, kind: Kind)

  function Boundaries(r: Range): seq<Entry>
    requires r.start < U32 && r.end < U32
  {
    var b := if r.kind.Black? then 1 else 0;
    if r.start > r.end then [] else
    [Entry(r.start, b, 1 - b), Entry(r.end, -b, b - 1)]
  }

  ghost predicate ValidRanges(rs: seq<Range>) {
    forall r :: r in rs ==> r.start < U32 && r.end < U32
  }

  /** The entries that adding these ranges one after the other leaves. */
  ghost function EntriesOf(rs: seq<Range>): seq<Entry>
    requires ValidRanges(rs)
  {
    if rs == [] then [] else EntriesOf(rs[..|rs| - 1]) + Boundaries(rs[|rs| - 1])
  }

  ghost predicate InRange(rs: seq<Range>, kind: Kind, x: int) {
    exists r :: r in rs && r.kind == kind && r.start <= x < r.end
  }

  /** The addresses in some black range and in no white range. */
  ghost function BlackMinusWhite(rs: seq<Range>): iset<int> {
    iset x | InRange(rs, Black, x) && !InRange(rs, White, x)
  }

  // ---------------------------------------------------------------- nesting depth

  function Weight(e: Entry, kind: Kind): int {
    if kind.Black? then e.black else e.white
  }

  /** The sum of the weights of all boundaries at or before `x`. */
  ghost function Depth(es: seq<Entry>, kind: Kind, x: int): int {
    if es == [] then 0 else
    var e := es[|es| - 1];
    Depth(es[..|es| - 1], kind, x) + if e.addr <= x then Weight(e, kind) else 0
  }

  lemma {:induction false} DepthConcat(a: seq<Entry>, b: seq<Entry>, kind: Kind, x: int)
    ensures Depth(a + b, kind, x) == Depth(a, kind, x) + Depth(b, kind, x)
  {
    if b == [] {
      assert a + b == a;
    } else {
      assert (a + b)[..|a + b| - 1] == a + b[..|b| - 1];
      DepthConcat(a, b[..|b| - 1], kind, x);
    }
  }

  lemma RemoveOne(b: seq<Entry>, i: nat)
    requires i < |b|
    ensures b == b[..i] + ([b[i]] + b[i + 1..])
    ensures multiset(b[..i] + b[i + 1..]) == multiset(b) - multiset{b[i]}
  {
  }

  lemma DepthWithoutOne(b: seq<Entry>, i: nat, kind: Kind, x: int)
    requires i < |b|
    ensures Depth(b, kind, x) ==
            Depth(b[..i] + b[i + 1..], kind, x) + if b[i].addr <= x then Weight(b[i], kind) else 0
  {
    var p, q := b[..i], b[i + 1..];
    DepthConcat(p, q, kind, x);
    DepthConcat([b[i]], q, kind, x);
    DepthConcat(p, [b[i]] + q, kind, x);
    RemoveOne(b, i);
  }

  /** The last entry of `a` is somewhere in any reordering `b`; without it the rests are reorderings. */
  lemma FindLast(a: seq<Entry>, b: seq<Entry>) returns (i: nat)
    requires multiset(a) == multiset(b) && a != []
    ensures i < |b| && b[i] == a[|a| - 1]
    ensures multiset(a[..|a| - 1]) == multiset(b[..i] + b[i + 1..])
  {
    var n := |a| - 1;
    assert a[n] in multiset(b);
    i :| 0 <= i < |b| && b[i] == a[n];
    RemoveOne(a, n);
    RemoveOne(b, i);
    assert a[..n] + a[n + 1..] == a[..n];
  }

  lemma {:induction false} DepthPermutation(a: seq<Entry>, b: seq<Entry>, kind: Kind, x: int)
    requires multiset(a) == multiset(b)
    ensures Depth(a, kind, x) == Depth(b, kind, x)
  {
    if a == [] {
      assert |multiset(b)| == 0;
    } else {
      var i := FindLast(a, b);
      DepthPermutation(a[..|a| - 1], b[..i] + b[i + 1..], kind, x);
      DepthWithoutOne(b, i, kind, x);
    }
  }

  lemma DepthOfRange(r: Range, kind: Kind, x: int)
    requires r.start < U32 && r.end < U32
    ensures Depth(Boundaries(r), kind, x) == if r.kind == kind && r.start <= x < r.end then 1 else 0
  {
    if r.start <= r.end {
      var b := Boundaries(r);
      assert b[..1] == [b[0]] && b[..1][..0] == [];
      assert Depth(b[..1], kind, x) == if r.start <= x then Weight(b[0], kind) else 0;
    }
  }

  /** The depth at `x` counts the ranges of one kind around `x`. */
  lemma {:induction false} DepthCounts(rs: seq<Range>, kind: Kind, x: int)
    requires ValidRanges(rs)
    ensures Depth(EntriesOf(rs), kind, x) >= 0
    ensures Depth(EntriesOf(rs), kind, x) > 0 <==> InRange(rs, kind, x)
  {
    if rs != [] {
      var rs', r := rs[..|rs| - 1], rs[|rs| - 1];
      assert rs == rs' + [r];
      DepthCounts(rs', kind, x);
      DepthConcat(EntriesOf(rs'), Boundaries(r), kind, x);
      DepthOfRange(r, kind, x);
    }
  }

  ghost predicate SortedByAddress(es: seq<Entry>) {
    forall i, j :: 0 <= i < j < |es| ==> es[i].addr <= es[j].addr
  }

  ghost function Total(es: seq<Entry>, kind: Kind): int {
    if es == [] then 0 else Total(es[..|es| - 1], kind) + Weight(es[|es| - 1], kind)
  }

  lemma TotalStep(es: seq<Entry>, i: nat, kind: Kind)
    requires i < |es|
    ensures Total(es[..i + 1], kind) == Total(es[..i], kind) + Weight(es[i], kind)
  {
    assert es[..i + 1][..i] == es[..i];
  }

  lemma {:induction false} DepthAllBelow(es: seq<Entry>, kind: Kind, x: int)
    requires forall e :: e in es ==> e.addr <= x
    ensures Depth(es, kind, x) == Total(es, kind)
  {
    if es != [] {
      DepthAllBelow(es[..|es| - 1], kind, x);
    }
  }

  lemma {:induction false} DepthAllAbove(es: seq<Entry>, kind: Kind, x: int)
    requires forall e :: e in es ==> e.addr > x
    ensures Depth(es, kind, x) == 0
  {
    if es != [] {
      DepthAllAbove(es[..|es| - 1], kind, x);
    }
  }

  /** `x` lies between boundary `i - 1` and boundary `i` of a sorted list. */
  ghost predicate PassedExactly(es: seq<Entry>, i: nat, x: int) {
    i <= |es| && (i > 0 ==> es[i - 1].addr <= x) && (i < |es| ==> x < es[i].addr)
  }

  lemma BoundariesAround(es: seq<Entry>, i: nat, x: int)
    requires SortedByAddress(es) && PassedExactly(es, i, x)
    ensures forall e :: e in es[..i] ==> e.addr <= x
    ensures forall e :: e in es[i..] ==> e.addr > x
  {
  }

  /** Between two boundaries of a sorted list the depth is the sum over the boundaries passed. */
  lemma DepthBetween(es: seq<Entry>, i: nat, kind: Kind, x: int)
    requires SortedByAddress(es) && PassedExactly(es, i, x)
    ensures Depth(es, kind, x) == Total(es[..i], kind)
  {
    hide Total, SortedByAddress;
    var a, b := es[..i], es[i..];
    BoundariesAround(es, i, x);
    DepthAllBelow(a, kind, x);
    DepthAllAbove(b, kind, x);
    DepthConcat(a, b, kind, x);
    assert es == a + b;
  }

  /** The entries of `rs` in the order the sort left them. */
  ghost predicate IsSorting(es: seq<Entry>, rs: seq<Range>) {
    ValidRanges(rs) && SortedByAddress(es) && multiset(es) == multiset(EntriesOf(rs))
  }

  /** Between two boundaries the running sums decide membership. */
  lemma SumsDecide(es: seq<Entry>, rs: seq<Range>, i: nat, x: int)
    requires IsSorting(es, rs) && PassedExactly(es, i, x)
    ensures Total(es[..i], Black) >= 0 && Total(es[..i], White) >= 0
    ensures x in BlackMinusWhite(rs) <==> Total(es[..i], Black) > 0 && Total(es[..i], White) <= 0
  {
    forall k: Kind ensures Depth(es, k, x) == Depth(EntriesOf(rs), k, x) == Total(es[..i], k) {
      DepthPermutation(es, EntriesOf(rs), k, x);
      DepthBetween(es, i, k, x);
    }
    DepthCounts(rs, Black, x);
    DepthCounts(rs, White, x);
  }

  lemma {:induction false} EntriesBounded(rs: seq<Range>)
    requires ValidRanges(rs)
    ensures forall e :: e in EntriesOf(rs) ==> e.addr < U32
  {
    if rs != [] {
      EntriesBounded(rs[..|rs| - 1]);
    }
  }

  lemma SortingBounded(es: seq<Entry>, rs: seq<Range>)
    requires IsSorting(es, rs)
    ensures forall i :: 0 <= i < |es| ==> es[i].addr < U32
  {
    EntriesBounded(rs);
    forall i | 0 <= i < |es| ensures es[i].addr < U32 {
      assert es[i] in multiset(EntriesOf(rs));
    }
  }

  // ---------------------------------------------------------------- the sweep

  /** All of `s` before `edge` is covered by its maximal blocks, and nothing else is. */
  ghost predicate CoveredUpTo(l: seq<Block>, s: iset<int>, edge: int) {
    && (forall c :: c in l ==> Maximal(c, s) && c.addr + Size(c) <= edge)
    && Ascending(l)
    && (forall x :: x in s && x < edge ==> Listed(l, x))
  }

  lemma SkipGap(l: seq<Block>, s: iset<int>, edge: int, next: int)
    requires CoveredUpTo(l, s, edge) && edge <= next
    requires forall x :: edge <= x < next ==> x !in s
    ensures CoveredUpTo(l, s, next)
  {
  }

  /** Within a region that `s` leaves on both sides, the maximal blocks of the region are those of `s`. */
  lemma RegionMaximal(c: Block, s: iset<int>, lo: nat, hi: nat)
    requires Maximal(c, Span(lo, hi)) && (forall x :: lo <= x <= hi ==> x in s)
    requires lo - 1 !in s && hi + 1 !in s
    ensures Maximal(c, s)
  {
    forall x | InBlock(c, x) ensures x in s {
      assert Between(lo, x, hi);
    }
    if c.bits > 0 {
      var p := Parent(c);
      ParentIsBlock(c);
      assert InBlock(c, c.addr) && Between(lo, c.addr, hi);
      var x :| InBlock(p, x) && x !in Span(lo, hi);
      assert !Between(lo, x, hi);
      assert InBlock(p, lo - 1) || InBlock(p, hi + 1);
    }
  }

  lemma AppendRegion(l: seq<Block>, new_: seq<Block>, s: iset<int>, lo: nat, hi: nat)
    requires lo <= hi && CoveredUpTo(l, s, lo) && Canonical(new_, Span(lo, hi))
    requires forall x :: lo <= x <= hi ==> x in s
    requires lo - 1 !in s && hi + 1 !in s
    ensures CoveredUpTo(l + new_, s, hi + 1)
  {
    var k := l + new_;
    forall c | c in k ensures Maximal(c, s) && c.addr + Size(c) <= hi + 1 {
      if c in new_ {
        RegionMaximal(c, s, lo, hi);
        assert InBlock(c, c.addr + Size(c) - 1) && Between(lo, c.addr + Size(c) - 1, hi);
      }
    }
    forall i, j | 0 <= i < j < |k| ensures k[i].addr + Size(k[i]) <= k[j].addr {
      if i < |l| <= j {
        var c := new_[j - |l|];
        assert c in new_ && InBlock(c, c.addr) && Between(lo, c.addr, hi);
        assert l[i] in l;
      }
    }
    forall x | x in s && x < hi + 1 ensures Listed(k, x) {
      if x < lo {
        var c :| c in l && InBlock(c, x);
        assert c in k;
      } else {
        assert Between(lo, x, hi) && x in Span(lo, hi);
        var c :| c in new_ && InBlock(c, x);
        assert c in k;
      }
    }
  }

  /** The covered set, and with it the canonical list, does not depend on the order the ranges were added in. */
  lemma InsertionOrderIrrelevant(rs: seq<Range>, qs: seq<Range>, k: seq<Block>, l: seq<Block>)
    requires multiset(rs) == multiset(qs)
    requires Canonical(k, BlackMinusWhite(rs)) && Canonical(l, BlackMinusWhite(qs))
    ensures k == l
  {
    assert forall r :: r in rs <==> r in multiset(rs);
    assert forall r :: r in qs <==> r in multiset(qs);
    forall x, kind: Kind ensures InRange(rs, kind, x) <==> InRange(qs, kind, x) {
    }
    assert BlackMinusWhite(rs) == BlackMinusWhite(qs);
    CanonicalUnique(k, l, BlackMinusWhite(rs));
  }

  // ---------------------------------------------------------------- sorting

  function Insert(es: seq<Entry>, e: Entry): (r: seq<Entry>)
    requires SortedByAddress(es)
    ensures SortedByAddress(r) && multiset(r) == multiset(es) + multiset{e}
  {
    if es == [] then [e] else
    var n := |es| - 1;
    assert es == es[..n] + [es[n]];
    if es[n].addr <= e.addr then es + [e] else
    var r := Insert(es[..n], e);
    InsertedBelow(es, e, r);
    r + [es[n]]
  }

  lemma InsertedBelow(es: seq<Entry>, e: Entry, r: seq<Entry>)
    requires es != [] && SortedByAddress(es) && e.addr < es[|es| - 1].addr && SortedByAddress(r)
    requires multiset(r) == multiset(es[..|es| - 1]) + multiset{e}
    ensures SortedByAddress(r + [es[|es| - 1]])
  {
    var n := |es| - 1;
    forall x | x in r ensures x.addr <= es[n].addr {
      assert x in multiset(r);
      assert x in multiset(es[..n]) || x == e;
    }
  }

  /** Stands for the library sort. Nothing below depends on how it orders equal addresses. */
  function Sort(es: seq<Entry>): (r: seq<Entry>)
    ensures SortedByAddress(r) && multiset(r) == multiset(es)
  {
    if es == [] then [] else
    assert es == es[..|es| - 1] + [es[|es| - 1]];
    Insert(Sort(es[..|es| - 1]), es[|es| - 1])
  }

  /** The address field `i`, which past the entries reads zeroed memory. */
  function AddressAt(es: seq<Entry>, i: nat): nat {
    if i < |es| then es[i].addr else 0
  }

  /** The first address not yet decided after `i` boundaries. */
  ghost function Frontier(es: seq<Entry>, i: nat): int {
    if i < |es| then es[i].addr else U32
  }

  /** What the sweep keeps after each group of equal boundaries. */
  ghost predicate Swept(es: seq<Entry>, s: iset<int>, i: nat, l: seq<Block>, state: int, bstart: int) {
    && i <= |es|
    && (0 < i < |es| ==> es[i - 1].addr < es[i].addr)
    && state == (if Total(es[..i], Black) > 0 && Total(es[..i], White) <= 0 then 1 else 0)
    && (state == 0 ==> CoveredUpTo(l, s, Frontier(es, i)) && Frontier(es, i) - 1 !in s)
    && (state == 1 ==> CoveredUpTo(l, s, bstart) && bstart - 1 !in s && 0 <= bstart < Frontier(es, i))
    && (state == 1 ==> forall x :: bstart <= x < Frontier(es, i) ==> x in s)
  }

  /** Between the old and the new frontier membership is constant. */
  lemma GroupConstant(es: seq<Entry>, rs: seq<Range>, j: nat)
    requires IsSorting(es, rs) && 0 < j <= |es| && (j < |es| ==> es[j - 1].addr < es[j].addr)
    ensures forall x :: es[j - 1].addr <= x < Frontier(es, j) ==>
      (x in BlackMinusWhite(rs) <==> Total(es[..j], Black) > 0 && Total(es[..j], White) <= 0)
  {
    forall x | es[j - 1].addr <= x < Frontier(es, j)
      ensures x in BlackMinusWhite(rs) <==> Total(es[..j], Black) > 0 && Total(es[..j], White) <= 0
    {
      SumsDecide(es, rs, j, x);
    }
  }

  lemma SweptStart(es: seq<Entry>, rs: seq<Range>)
    requires IsSorting(es, rs) && es != []
    ensures Swept(es, BlackMinusWhite(rs), 0, [], 0, 0)
  {
    forall x | x < Frontier(es, 0) ensures x !in BlackMinusWhite(rs) {
      SumsDecide(es, rs, 0, x);
    }
  }

  lemma SweptStep(es: seq<Entry>, rs: seq<Range>, i0: nat, i: nat,
                  l0: seq<Block>, state0: int, bstart0: int, l: seq<Block>, state: int, bstart: int)
    requires IsSorting(es, rs) && i0 < i <= |es| && Swept(es, BlackMinusWhite(rs), i0, l0, state0, bstart0)
    requires es[i - 1].addr == es[i0].addr && (i < |es| ==> es[i - 1].addr < es[i].addr)
    requires state == (if Total(es[..i], Black) > 0 && Total(es[..i], White) <= 0 then 1 else 0)
    requires bstart == if state0 == 0 && state == 1 then es[i0].addr else bstart0
    requires !(state0 == 1 && state == 0) ==> l == l0
    requires state0 == 1 && state == 0 ==> |l0| <= |l| && l[..|l0|] == l0
    requires state0 == 1 && state == 0 ==> Canonical(l[|l0|..], Span(bstart0, es[i0].addr - 1))
    ensures Swept(es, BlackMinusWhite(rs), i, l, state, bstart)
  {
    var s, addr := BlackMinusWhite(rs), es[i0].addr;
    SortingBounded(es, rs);
    GroupConstant(es, rs, i);
    if state0 == 1 && state == 0 {
      AppendRegion(l0, l[|l0|..], s, bstart0, addr - 1);
      assert l == l0 + l[|l0|..];
    }
    if state == 0 {
      SkipGap(l, s, addr, Frontier(es, i));
    }
  }

  lemma LastPositive(es: seq<Entry>, before: seq<Entry>)
    requires SortedByAddress(es) && multiset(es) == multiset(before)
    requires exists e :: e in before && e.addr > 0
    ensures es != [] && es[|es| - 1].addr > 0
  {
    var e :| e in before && e.addr > 0;
    assert e in multiset(es);
  }

  /** After the last boundary every range is closed again. */
  lemma AllClosed(es: seq<Entry>, rs: seq<Range>)
    requires IsSorting(es, rs) && es != []
    ensures Total(es[..|es|], Black) <= 0
  {
    SortingBounded(es, rs);
    SumsDecide(es, rs, |es|, U32);
    DepthPermutation(es, EntriesOf(rs), Black, U32);
    DepthBetween(es, |es|, Black, U32);
    DepthCounts(rs, Black, U32);
  }

  class Blacklist {
    /** `entries[..count]`; the calloc'ed memory behind holds zeros. */
    var entries: seq<Entry>

    constructor ()
      ensures entries == []
    {
      entries := [];
    }

    /** Adds the two boundaries of a range; a range that ends before it starts is dropped. */
    method AddRange(start: nat, end: nat, kind: Kind)
      requires start < U32 && end < U32
      modifies this
      ensures entries == old(entries) + Boundaries(Range(start, end, kind))
    {
      if start > end {
        return;
      }
      var i := |entries|;
      entries := entries + [Entry(0, 0, 0), Entry(0, 0, 0)];
      entries := entries[i := entries[i].(addr := start)];
      entries := entries[i + 1 := entries[i + 1].(addr := end)];
      if kind.White? {
        entries := entries[i := entries[i].(black := 0, white := 1)];
        entries := entries[i + 1 := entries[i + 1].(black := 0, white := -1)];
      } else {
        entries := entries[i := entries[i].(black := 1, white := 0)];
        entries := entries[i + 1 := entries[i + 1].(black := -1, white := 0)];
      }
    }

    /** Calls the library sort. */
    method SortEntries()
      modifies this
      ensures SortedByAddress(entries) && multiset(entries) == old(multiset(entries))
    {
      entries := Sort(entries);
    }

    /** Adds up the entries at the address of entry `i0`. */
    static method SumGroup(es: seq<Entry>, i0: nat, bs0: int, ws0: int) returns (i: nat, bs: int, ws: int)
      requires i0 < |es| && SortedByAddress(es) && es[|es| - 1].addr > 0
      requires bs0 == Total(es[..i0], Black) && ws0 == Total(es[..i0], White)
      ensures i0 < i <= |es| && es[i - 1].addr == es[i0].addr
      ensures i < |es| ==> es[i - 1].addr < es[i].addr
      ensures bs == Total(es[..i], Black) && ws == Total(es[..i], White)
    {
      TotalStep(es, i0, Black);
      TotalStep(es, i0, White);
      i, bs, ws := i0 + 1, bs0 + es[i0].black, ws0 + es[i0].white;
      while AddressAt(es, i) == es[i0].addr
        invariant i0 < i <= |es| && es[i - 1].addr == es[i0].addr
        invariant bs == Total(es[..i], Black) && ws == Total(es[..i], White)
        decreases |es| - i
      {
        TotalStep(es, i, Black);
        TotalStep(es, i, White);
        i, bs, ws := i + 1, bs + es[i].black, ws + es[i].white;
      }
    }

    /** The black-minus-white regions of all ranges added so far, as CIDR blocks; nothing when there are no
        entries. A list whose every boundary is address 0 may not be collapsed: the inner loop would run past
        the entries. */
    method Collapse(ghost rs: seq<Range>) returns (cidrs: Option<seq<Block>>)
      requires ValidRanges(rs) && multiset(entries) == multiset(EntriesOf(rs))
      requires entries != [] ==> exists e :: e in entries && e.addr > 0
      modifies this
      ensures multiset(entries) == old(multiset(entries))
      ensures cidrs.None? <==> old(entries) == []
      ensures cidrs.Some? ==> Canonical(cidrs.value, BlackMinusWhite(rs))
    {
      if |entries| == 0 {
        return None;
      }
      SortEntries();
      LastPositive(entries, old(entries));
      var l := Sweep(entries, rs);
      return Some(l);
    }

    static method Sweep(es: seq<Entry>, ghost rs: seq<Range>) returns (l: seq<Block>)
      requires IsSorting(es, rs) && es != [] && es[|es| - 1].addr > 0
      ensures Canonical(l, BlackMinusWhite(rs))
    {
      SortingBounded(es, rs);
      SweptStart(es, rs);
      l := [];
      var i, bs, ws, state, bstart := 0, 0, 0, 0, 0;
      while i < |es|
        invariant Swept(es, BlackMinusWhite(rs), i, l, state, bstart)
        invariant bs == Total(es[..i], Black) && ws == Total(es[..i], White)
        decreases |es| - i
      {
        var laststate, addr := state, es[i].addr;
        ghost var before, i0, bstart0 := l, i, bstart;
        i, bs, ws := SumGroup(es, i, bs, ws);
        SumsDecide(es, rs, i, addr);
        if state == 1 && bs == 0 {
          state := 0;
        } else if state == 0 && bs > 0 {
          state := 1;
        }
        if ws > 0 {
          state := 0;
        }
        if laststate == 0 && state == 1 {
          bstart := addr;
        }
        if laststate == 1 && state == 0 {
          var nadded;
          l, nadded := IpRangeToCidrList(l, bstart, addr - 1);
        }
        SweptStep(es, rs, i0, i, before, laststate, bstart0, l, state, bstart);
      }
      AllClosed(es, rs);
    }
  }
}
