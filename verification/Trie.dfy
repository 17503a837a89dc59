/** The binary radix trie. Each inner node names the one bit it branches on; these bits need not grow
    along a path, so what makes a walk find a key is that the key took the same turns when it was stored. */
module Trie {
  import opened Words
  import opened Wrappers

  type Key = seq<Byte>

  /** Bit `n` of a key, most significant first. */
  predicate KeyBit(k: Key, n: nat)
    requires n < 8 * |k|
  {
    Bit(k[n / 8], 7 - n % 8)
  }

  /** The nodes below and at one node. */
  datatype Shape = Nil | Node(node: Trie, key: Option<Key>, branch: nat, left: Shape, right: Shape) {

    ghost function Nodes(): set<Trie> {
      if Nil? then {} else {node} + left.Nodes() + right.Nodes()
    }

    /** The keys at the leaves. */
    ghost function Keys(): set<Key> {
      if Nil? then {} else
      left.Keys() + right.Keys() + if IsLeaf() && key.Some? then {key.value} else {}
    }

    /** The bits that inner nodes branch on. */
    ghost function Branches(): set<nat> {
      if Nil? || IsLeaf() then {} else {branch} + left.Branches() + right.Branches()
    }

    ghost predicate IsLeaf() {
      Node? && left.Nil? && right.Nil?
    }

    ghost function Kid(bit: bool): Shape
      requires Node?
    {
      if bit then right else left
    }

    ghost function WithKid(bit: bool, kid: Shape): Shape
      requires Node?
    {
      if bit then this.(right := kid) else this.(left := kid)
    }

    /** Keys of `klen` bytes at every leaf, on the side of each inner node that its bit tells. */
    ghost predicate Consistent(klen: nat) {
      Node? ==>
        && (IsLeaf() ==> key.Some? && |key.value| == klen)
        && (!IsLeaf() ==> key.None? && branch < 8 * klen && left.Consistent(klen) && right.Consistent(klen))
        && (!IsLeaf() ==> (forall k :: k in left.Keys() ==> |k| == klen && !KeyBit(k, branch)))
        && (!IsLeaf() ==> (forall k :: k in right.Keys() ==> |k| == klen && KeyBit(k, branch)))
    }

    /** Where following the bits of `k` ends. */
    ghost function Walk(k: Key): Shape {
      if Nil? || IsLeaf() || branch >= 8 * |k| then this else Kid(KeyBit(k, branch)).Walk(k)
    }

    /** The bits that the walk of `k` branches on. */
    ghost function Met(k: Key): set<nat> {
      if Nil? || IsLeaf() || branch >= 8 * |k| then {} else {branch} + Kid(KeyBit(k, branch)).Met(k)
    }

    /** The last node on that way. */
    ghost function Site(k: Key): Shape {
      if Nil? || IsLeaf() || branch >= 8 * |k| || Kid(KeyBit(k, branch)).Nil? then this
      else Kid(KeyBit(k, branch)).Site(k)
    }

    /** Puts `site` in the place of the last node on that way. */
    ghost function Replace(k: Key, site: Shape): Shape {
      if Nil? || IsLeaf() || branch >= 8 * |k| || Kid(KeyBit(k, branch)).Nil? then site
      else WithKid(KeyBit(k, branch), Kid(KeyBit(k, branch)).Replace(k, site))
    }
  }

  /** Whatever leaf a walk ends at holds a stored key. */
  lemma {:induction false} WalkEndsAtKey(s: Shape, klen: nat, k: Key)
    requires s.Consistent(klen) && |k| == klen && s.Walk(k).Node?
    ensures s.Walk(k).IsLeaf() && s.Walk(k).key.Some? && s.Walk(k).key.value in s.Keys()
  {
    if s.Node? && !s.IsLeaf() {
      WalkEndsAtKey(s.Kid(KeyBit(k, s.branch)), klen, k);
    }
  }

  /** `k` takes the turns of `stored` at every bit that the walk of `stored` meets. */
  ghost predicate TurnsAlike(s: Shape, stored: Key, k: Key) {
    forall b :: b in s.Met(stored) && b < 8 * |k| && b < 8 * |stored| ==> KeyBit(k, b) == KeyBit(stored, b)
  }

  ghost predicate EndsAt(s: Shape, k: Key, stored: Key) {
    s.Walk(k).IsLeaf() && s.Walk(k).key == Some(stored)
  }

  /** A walk ends at a stored key's leaf exactly when it takes the turns of that key. */
  lemma {:induction false} WalkFindsKey(s: Shape, klen: nat, stored: Key, k: Key)
    requires s.Consistent(klen) && stored in s.Keys() && |k| == klen && |stored| == klen
    ensures EndsAt(s, k, stored) <==> TurnsAlike(s, stored, k)
  {
    if !s.IsLeaf() {
      var kid := s.Kid(KeyBit(stored, s.branch));
      assert s.branch in s.Met(stored);
      if KeyBit(k, s.branch) == KeyBit(stored, s.branch) {
        WalkFindsKey(kid, klen, stored, k);
        assert TurnsAlike(kid, stored, k) <==> TurnsAlike(s, stored, k);
      } else if EndsAt(s, k, stored) {
        WalkEndsAtKey(s.Kid(KeyBit(k, s.branch)), klen, k);
        assert false;
      }
    }
  }

  lemma {:induction false} MetAreBranches(s: Shape, k: Key)
    ensures s.Met(k) <= s.Branches()
  {
    if s.Node? && !s.IsLeaf() && s.branch < 8 * |k| {
      MetAreBranches(s.Kid(KeyBit(k, s.branch)), k);
    }
  }

  // ---------------------------------------------------------------- insertion on shapes

  /** The first bit in which the keys differ. */
  ghost predicate FirstDifference(a: Key, b: Key, bit: nat) {
    && bit < 8 * |a| && bit < 8 * |b| && KeyBit(a, bit) != KeyBit(b, bit)
    && forall i :: 0 <= i < bit ==> KeyBit(a, i) == KeyBit(b, i)
  }

  /** Storing `k` adds branch bits only where `k` and a stored key first differ; the first branch of all is on bit 0. */
  ghost predicate BranchesFrom(s': Shape, s: Shape, k: Key) {
    forall b :: b in s'.Branches() ==> BranchFrom(b, s, k)
  }

  ghost predicate BranchFrom(b: nat, s: Shape, k: Key) {
    b == 0 || b in s.Branches() || exists stored :: stored in s.Keys() && FirstDifference(stored, k, b)
  }

  /** What storing `k` promises, where `found` says that the leaf its walk ends at already matches it. */
  ghost predicate Stored(s': Shape, s: Shape, k: Key, found: bool) {
    && (found ==> s' == s)
    && (!found ==> s'.Keys() == s.Keys() + {k})
    && BranchesFrom(s', s, k)
  }

  /** How the last node on the way changes: an inner node gets the missing kid, a leaf becomes an inner node over
      the old key and the new one. */
  ghost predicate Grown(site: Shape, k: Key, site': Shape) {
    && site.Node? && site'.Node? && site'.node == site.node
    && if site.IsLeaf() then
         && site.key.Some? && site'.key.None? && FirstDifference(site.key.value, k, site'.branch)
         && site'.Kid(KeyBit(k, site'.branch)).IsLeaf() && site'.Kid(KeyBit(k, site'.branch)).key == Some(k)
         && site'.Kid(!KeyBit(k, site'.branch)).IsLeaf() && site'.Kid(!KeyBit(k, site'.branch)).key == site.key
       else
         && site.branch < 8 * |k| && site.Kid(KeyBit(k, site.branch)).Nil?
         && site'.Kid(KeyBit(k, site.branch)).IsLeaf() && site'.Kid(KeyBit(k, site.branch)).key == Some(k)
         && site' == site.WithKid(KeyBit(k, site.branch), site'.Kid(KeyBit(k, site.branch)))
  }

  /** Along the way of `k` nothing changes but the last node, which grows. */
  ghost predicate GrownOnWay(s': Shape, s: Shape, k: Key)
    decreases s
  {
    if s.Nil? || s.IsLeaf() || s.branch >= 8 * |k| || s.Kid(KeyBit(k, s.branch)).Nil? then Grown(s, k, s')
    else
      var bit := KeyBit(k, s.branch);
      s'.Node? && s' == s.WithKid(bit, s'.Kid(bit)) && GrownOnWay(s'.Kid(bit), s.Kid(bit), k)
  }

  /** What storing `k` does to the shape: nothing when a match was found, a first branch on bit 0 over an empty trie,
      else growth at the end of the way. */
  ghost predicate Inserted(s': Shape, s: Shape, k: Key, found: bool) {
    if found then s' == s
    else if s.IsLeaf() && s.key.None? then
      && |k| > 0 && s'.Node? && s'.key.None? && s'.branch == 0 && s'.Kid(!KeyBit(k, 0)).Nil?
      && s'.Kid(KeyBit(k, 0)).IsLeaf() && s'.Kid(KeyBit(k, 0)).key == Some(k)
    else GrownOnWay(s', s, k)
  }

  lemma {:induction false} ReplaceGrows(s: Shape, k: Key, site': Shape)
    requires s.Node? && Grown(s.Site(k), k, site')
    ensures GrownOnWay(s.Replace(k, site'), s, k)
  {
    if !s.IsLeaf() && s.branch < 8 * |k| && s.Kid(KeyBit(k, s.branch)).Node? {
      ReplaceGrows(s.Kid(KeyBit(k, s.branch)), k, site');
    }
  }

  /** Growth lets stored keys meet what they met; the new key meets what it met before. Only a split leaf makes one
      bit more, met by its own key and the new one: the first in which the two differ. */
  lemma {:induction false} GrowthMet(s: Shape, klen: nat, k: Key, s': Shape, x: Key)
    requires s.Node? && s.Consistent(klen) && |k| == |x| == klen && GrownOnWay(s', s, k)
    requires x == k || x in s.Keys()
    ensures s.Met(x) <= s'.Met(x)
    ensures forall b :: b in s'.Met(x) ==> b in s.Met(x) || SplitsAt(s, k, x, b)
    decreases s
  {
    if !s.IsLeaf() && s.Kid(KeyBit(k, s.branch)).Node? {
      var bit := KeyBit(k, s.branch);
      if KeyBit(x, s.branch) == bit {
        GrowthMet(s.Kid(bit), klen, k, s'.Kid(bit), x);
      }
    }
  }

  /** `b` is the bit at which storing `k` splits a leaf, and the leaf holds `x` or `x` is the new key. */
  ghost predicate SplitsAt(s: Shape, k: Key, x: Key, b: nat) {
    && s.Site(k).IsLeaf() && s.Site(k).key.Some? && FirstDifference(s.Site(k).key.value, k, b)
    && s.Site(k).key.value in s.Keys() && (x == k || x == s.Site(k).key.value)
  }

  lemma {:induction false} GrowthKeys(s: Shape, klen: nat, k: Key, site': Shape)
    requires s.Node? && s.Consistent(klen) && |k| == klen && Grown(s.Site(k), k, site')
    ensures s.Replace(k, site').Keys() == s.Keys() + {k}
  {
    if !s.IsLeaf() && !s.Kid(KeyBit(k, s.branch)).Nil? {
      GrowthKeys(s.Kid(KeyBit(k, s.branch)), klen, k, site');
    }
  }

  /** Growing at the end of the way stores the key, keeps every other key and keeps every turn right. */
  lemma {:induction false} GrowthKeeps(s: Shape, klen: nat, k: Key, site': Shape)
    requires s.Node? && s.Consistent(klen) && |k| == klen && Grown(s.Site(k), k, site')
    ensures s.Replace(k, site').Consistent(klen)
    ensures s.Replace(k, site').Keys() == s.Keys() + {k}
    ensures BranchesFrom(s.Replace(k, site'), s, k)
  {
    GrowthKeys(s, klen, k, site');
    if s.IsLeaf() {
      assert s.key.value in s.Keys();
    } else if !s.Kid(KeyBit(k, s.branch)).Nil? {
      GrowthKeeps(s.Kid(KeyBit(k, s.branch)), klen, k, site');
    }
  }

  /** `t` is the root of nodes in the heap shaped like `s`, all of them distinct. */
  ghost predicate Repr(t: Trie?, s: Shape)
    reads s.Nodes()`key, s.Nodes()`branch, s.Nodes()`kid0, s.Nodes()`kid1
    decreases s
  {
    && (s.Nil? ==> t == null)
    && (s.Node? ==>
      && t == s.node && s.node.key == s.key && s.node.branch == s.branch
      && Repr(s.node.kid0, s.left) && Repr(s.node.kid1, s.right)
      && s.node !in s.left.Nodes() && s.node !in s.right.Nodes() && s.left.Nodes() !! s.right.Nodes())
  }

  lemma {:induction false} SiteInside(s: Shape, k: Key)
    requires s.Node?
    ensures s.Site(k).Node? && s.Site(k).Nodes() <= s.Nodes() && s.Site(k).node in s.Nodes()
  {
    if !s.IsLeaf() && s.branch < 8 * |k| && s.Kid(KeyBit(k, s.branch)).Node? {
      SiteInside(s.Kid(KeyBit(k, s.branch)), k);
    }
  }

  lemma {:induction false} ReplaceNodes(s: Shape, k: Key, site': Shape)
    requires s.Node?
    ensures s.Replace(k, site').Nodes() <= s.Nodes() + site'.Nodes()
    ensures s.Site(k).Node? && site'.Node? && site'.node == s.Site(k).node ==>
              s.Replace(k, site').Node? && s.Replace(k, site').node == s.node
  {
    if !s.IsLeaf() && s.branch < 8 * |k| && s.Kid(KeyBit(k, s.branch)).Node? {
      ReplaceNodes(s.Kid(KeyBit(k, s.branch)), k, site');
    }
  }

  /** When only the last node on the way changes, the whole shape changes by replacing it. */
  twostate lemma {:induction false} SiteReplaced(new t: Trie, new s: Shape, new k: Key, new site': Shape,
      new rest: set<Trie>)
    requires old(allocated(t)) && old(allocated(s)) && old(allocated(rest))
    requires s.Node? && old(Repr(t, s))
    requires s.Site(k).Node? && site'.Node? && site'.node == s.Site(k).node && Repr(site'.node, site')
    requires unchanged(rest) && s.Nodes() <= rest + {site'.node}
    requires forall o: object :: o in site'.Nodes() && o in s.Nodes() ==> o in s.Site(k).Nodes()
    ensures Repr(t, s.Replace(k, site'))
  {
    SiteInside(s, k);
    if !s.IsLeaf() && s.branch < 8 * |k| && s.Kid(KeyBit(k, s.branch)).Node? {
      var bit := KeyBit(k, s.branch);
      SiteInside(s.Kid(bit), k);
      ReplaceNodes(s.Kid(bit), k, site');
      SiteReplaced(s.Kid(bit).node, s.Kid(bit), k, site', rest);
    }
  }

  /** Different keys of one length differ in some bit. */
  lemma SomeBitDiffers(a: Key, b: Key)
    requires |a| == |b| && a != b
    ensures exists i :: 0 <= i < 8 * |a| && KeyBit(a, i) != KeyBit(b, i)
  {
    var j :| 0 <= j < |a| && a[j] != b[j];
    if BitsAgree(a[j], b[j], 0, 8) {
      assert Pow2(8) == 256;
      FloorEqualIffBitsAgree(a[j], b[j], 0, 8);
    }
    var n :| 0 <= n < 8 && Bit(a[j], n) != Bit(b[j], n);
    var i := 8 * j + (7 - n);
    assert i / 8 == j && 7 - i % 8 == n;
    assert KeyBit(a, i) != KeyBit(b, i);
  }

  class Trie {
    var key: Option<Key>
    var branch: nat
    var kid0: Trie?
    var kid1: Trie?
    const cmp: (Key, Key) -> bool
    /** Of a root: all nodes of the trie. */
    ghost var shape: Shape

    constructor (key: Option<Key>, cmp: (Key, Key) -> bool)
      ensures this.key == key && branch == 0 && kid0 == null && kid1 == null && this.cmp == cmp
      ensures shape == Node(this, key, 0, Nil, Nil) && Repr(this, shape)
    {
      this.key, this.branch, this.kid0, this.kid1 := key, 0, null, null;
      this.cmp := cmp;
      new;
      shape := Node(this, key, 0, Nil, Nil);
    }

    /** A root over keys of `klen` bytes. */
    ghost predicate Valid(klen: nat)
      reads this, shape.Nodes()
    {
      && shape.Node? && shape.node == this && Repr(this, shape)
      && if shape.IsLeaf() && key.None? then branch == 0 else shape.Consistent(klen)
    }

    /** The answer depends on the leaf at which the walk ends. */
    ghost predicate Finds(k: Key)
      reads this
    {
      var end := shape.Walk(k);
      end.IsLeaf() && end.key.Some? && cmp(end.key.value, k)
    }

    method Contains(k: Key) returns (r: bool)
      requires Valid(|k|) && |k| > 0
      ensures r <==> Finds(k)
    {
      var t: Trie? := this;
      ghost var sub := shape;
      while t != null && (t.kid0 != null || t.kid1 != null)
        invariant Repr(t, sub)
        invariant sub.Walk(k) == shape.Walk(k)
        decreases sub
      {
        if t.branch >= 8 * |k| {
          return false;
        }
        sub := sub.Kid(KeyBit(k, t.branch));
        t := if KeyBit(k, t.branch) then t.kid1 else t.kid0;
      }
      return t != null && t.key.Some? && cmp(t.key.value, k);
    }

    /** Follows the bits of `k` to the last node on the way: a leaf, or an inner node that lacks the next kid. */
    method FindSite(k: Key) returns (t: Trie, ghost sub: Shape)
      requires Valid(|k|) && |k| > 0 && !(shape.IsLeaf() && key.None?)
      ensures sub == shape.Site(k) && sub.Node? && sub.node == t && t in shape.Nodes() && Repr(t, sub)
      ensures sub.Consistent(|k|) && sub.Nodes() <= shape.Nodes() && sub.Walk(k) == shape.Walk(k)
      ensures !sub.IsLeaf() ==> sub.branch < 8 * |k| && sub.Kid(KeyBit(k, sub.branch)).Nil?
    {
      t := this;
      sub := shape;
      while t.kid0 != null || t.kid1 != null
        invariant sub.Node? && Repr(t, sub) && sub.Consistent(|k|) && sub.Nodes() <= shape.Nodes()
        invariant sub.Site(k) == shape.Site(k) && sub.Walk(k) == shape.Walk(k)
        decreases sub
      {
        if t.branch >= 8 * |k| {
          break;
        }
        var kid := if KeyBit(k, t.branch) then t.kid1 else t.kid0;
        if kid == null {
          return;
        }
        sub := sub.Kid(KeyBit(k, t.branch));
        t := kid;
      }
    }

    /** Stores a key unless the leaf its walk ends at already matches it. */
    method Insert(k: Key)
      requires Valid(|k|) && |k| > 0 && cmp(k, k)
      modifies shape.Nodes()
      ensures Valid(|k|) && Stored(shape, old(shape), k, old(Finds(k))) && fresh(shape.Nodes() - old(shape.Nodes()))
      ensures Inserted(shape, old(shape), k, old(Finds(k)))
    {
      assert Repr(kid0, shape.left) && Repr(kid1, shape.right);
      if kid0 == null && kid1 == null && key.None? {
        InsertFirst(k);
      } else {
        InsertFurther(k);
      }
    }

    method InsertFirst(k: Key)
      requires Valid(|k|) && |k| > 0 && shape.IsLeaf() && key.None?
      modifies this
      ensures Valid(|k|) && Stored(shape, old(shape), k, old(Finds(k))) && fresh(shape.Nodes() - old(shape.Nodes()))
      ensures Inserted(shape, old(shape), k, old(Finds(k)))
    {
      var leaf := new Trie(Some(k), cmp);
      if KeyBit(k, 0) {
        kid1 := leaf;
        shape := Node(this, None, 0, Nil, leaf.shape);
      } else {
        kid0 := leaf;
        shape := Node(this, None, 0, leaf.shape, Nil);
      }
    }

    method InsertFurther(k: Key)
      requires Valid(|k|) && |k| > 0 && cmp(k, k) && !(shape.IsLeaf() && key.None?)
      modifies shape.Nodes()
      ensures Valid(|k|) && Stored(shape, old(shape), k, old(Finds(k))) && fresh(shape.Nodes() - old(shape.Nodes()))
      ensures Inserted(shape, old(shape), k, old(Finds(k)))
    {
      assert allocated(shape.Nodes());
      var t, sub := FindSite(k);
      assert shape.Nodes() == old(shape.Nodes());
      if t.kid0 == null && t.kid1 == null && cmp(t.key.value, k) {
        return;
      }
      label Found:
      GrowAt(t, k, sub);
      assert forall o :: o in shape.Nodes() && o !in old(shape.Nodes()) ==> fresh@Found(o);
    }

    method GrowAt(t: Trie, k: Key, ghost sub: Shape)
      requires Valid(|k|) && |k| > 0 && shape.Consistent(|k|)
      requires sub == shape.Site(k) && sub.Node? && Repr(t, sub) && sub.Nodes() <= shape.Nodes()
      requires if sub.IsLeaf() then sub.key.Some? && |sub.key.value| == |k| && sub.key.value != k
               else sub.branch < 8 * |k| && sub.Kid(KeyBit(k, sub.branch)).Nil?
      modifies shape.Nodes()
      ensures Valid(|k|) && Stored(shape, old(shape), k, false) && fresh(shape.Nodes() - old(shape.Nodes()))
      ensures GrownOnWay(shape, old(shape), k)
    {
      hide Grown, GrownOnWay;
      assert old(allocated(shape.Nodes()));
      ghost var rest := shape.Nodes();
      var _, site' := Grow(t, k, sub);
      SiteReplaced(this, shape, k, site', rest - {t});
      ReplaceNodes(shape, k, site');
      GrowthKeeps(shape, |k|, k, site');
      ReplaceGrows(shape, k, site');
      shape := shape.Replace(k, site');
    }

    method Grow(t: Trie, k: Key, ghost sub: Shape) returns (leaf: bool, ghost site': Shape)
      requires sub.Node? && Repr(t, sub)
      requires if sub.IsLeaf() then sub.key.Some? && |sub.key.value| == |k| && sub.key.value != k
               else sub.branch < 8 * |k| && sub.Kid(KeyBit(k, sub.branch)).Nil?
      modifies t`key, t`branch, t`kid0, t`kid1
      ensures Grown(sub, k, site') && Repr(t, site') && fresh(site'.Nodes() - sub.Nodes())
    {
      leaf := t.kid0 == null && t.kid1 == null;
      if leaf {
        site' := Split(t, k, sub);
      } else {
        site' := AddKid(t, k, sub);
      }
    }

    /** Gives the inner node `t` its missing kid. */
    method AddKid(t: Trie, k: Key, ghost sub: Shape) returns (ghost site': Shape)
      requires sub.Node? && !sub.IsLeaf() && Repr(t, sub) && sub.branch < 8 * |k| && sub.Kid(KeyBit(k, sub.branch)).Nil?
      modifies t`kid0, t`kid1
      ensures Grown(sub, k, site') && Repr(t, site') && fresh(site'.Nodes() - sub.Nodes())
    {
      assert allocated(sub.Nodes());
      var leaf := new Trie(Some(k), cmp);
      site' := sub.WithKid(KeyBit(k, t.branch), leaf.shape);
      if KeyBit(k, t.branch) {
        t.kid1 := leaf;
      } else {
        t.kid0 := leaf;
      }
    }

    /** Makes the leaf `t` an inner node over its own key and `k`, branching where the two differ. */
    method Split(t: Trie, k: Key, ghost sub: Shape) returns (ghost site': Shape)
      requires sub.IsLeaf() && Repr(t, sub) && t.key.Some? && |t.key.value| == |k| && t.key.value != k
      modifies t`key, t`branch, t`kid0, t`kid1
      ensures Grown(sub, k, site') && Repr(t, site') && fresh(site'.Nodes() - sub.Nodes())
    {
      var bit := 0;
      while bit < 8 * |k| && KeyBit(t.key.value, bit) == KeyBit(k, bit)
        invariant bit <= 8 * |k|
        invariant forall i :: 0 <= i < bit ==> KeyBit(t.key.value, i) == KeyBit(k, i)
      {
        bit := bit + 1;
      }
      SomeBitDiffers(t.key.value, k);
      var val := KeyBit(k, bit);
      var new_ := new Trie(Some(k), cmp);
      var old_ := new Trie(t.key, cmp);
      site' := Node(t, None, bit, if val then old_.shape else new_.shape, if val then new_.shape else old_.shape);
      t.branch := bit;
      if val {
        t.kid1, t.kid0 := new_, old_;
      } else {
        t.kid0, t.kid1 := new_, old_;
      }
      t.key := None;
    }
  }

  predicate BytesEqual(a: Key, b: Key) {
    a == b
  }

  /** With byte comparison a trie finds exactly the keys stored in it. */
  lemma FindsExactlyStored(t: Trie, klen: nat, k: Key)
    requires t.Valid(klen) && t.cmp == BytesEqual && |k| == klen
    ensures t.Finds(k) <==> k in t.shape.Keys()
  {
    if t.shape.Consistent(klen) {
      if k in t.shape.Keys() {
        WalkFindsKey(t.shape, klen, k, k);
      }
      if t.Finds(k) {
        WalkEndsAtKey(t.shape, klen, k);
      }
    }
  }

  /** For keys of one length, whatever their number and order, a key is found exactly when it was inserted. */
  method Build(keys: seq<Key>, klen: nat) returns (t: Trie)
    requires klen > 0 && forall k :: k in keys ==> |k| == klen
    ensures t.Valid(klen)
    ensures forall k: Key :: |k| == klen ==> (t.Finds(k) <==> k in keys)
  {
    hide Inserted, KeyBit;
    t := new Trie(None, BytesEqual);
    for i := 0 to |keys|
      invariant t.Valid(klen) && t.cmp == BytesEqual && fresh(t.shape.Nodes())
      invariant t.shape.Keys() == set k | k in keys[..i]
    {
      FindsExactlyStored(t, klen, keys[i]);
      label Before:
      t.Insert(keys[i]);
      assert forall o :: o in t.shape.Nodes() && o !in old@Before(t.shape.Nodes()) ==> fresh@Before(o);
    }
    assert keys[..|keys|] == keys;
    forall k: Key | |k| == klen ensures t.Finds(k) <==> k in keys {
      FindsExactlyStored(t, klen, k);
    }
  }
}
