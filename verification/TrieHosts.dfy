/** Single hosts of both families in one trie, as the list of trapped addresses holds them. */
module TrieHosts {
  import opened Words
  import opened Wrappers
  import opened RangeToCidr
  import opened IpMatch
  import opened AddressList
  import opened Trie
  import opened TrieBlacklist

  /** An address with its full prefix length. */
  predicate IsHost(t: AddressText) {
    Acceptable(t) && t.maskbits == if t.colon then 128 else 32
  }

  /** An IPv4 address is one word with zeros behind it. */
  predicate IsQuery(b: Quad, af: Family) {
    af != Unspecified && (af == Inet ==> b[1] == b[2] == b[3] == 0)
  }

  /** The host has this address. */
  predicate IsHostAt(t: AddressText, b: Quad, af: Family) {
    FamilyOfText(t) == af && NetworkOf(t).address == b
  }

  /** Hosts of different families with the same first word. */
  predicate Clash(t: AddressText, u: AddressText) {
    FamilyOfText(t) != FamilyOfText(u) && NetworkOf(t).address[0] == NetworkOf(u).address[0]
  }

  ghost predicate Hosts(ts: seq<AddressText>) {
    (forall t :: t in ts ==> IsHost(t)) && (forall t, u :: t in ts && u in ts ==> !Clash(t, u))
  }

  // ---------------------------------------------------------------- what a host matches

  lemma FullWord(a: nat)
    requires a < U32
    ensures BitAnd(a, Imask(32)) == a && BitAnd(a, Imask(0)) == 0
  {
    ImaskClearsHostBits(a, 32);
    FullMasks();
    AndZero(a);
  }

  lemma HostNetwork(t: AddressText)
    requires IsHost(t)
    ensures var n := NetworkOf(t);
            && n.mask == MaskOf(t.maskbits) && n.address[0] == t.parsed.value[0]
            && (t.colon ==> n.address == t.parsed.value)
            && (!t.colon ==> n.address[1] == n.address[2] == n.address[3] == 0)
  {
    hide BitAnd, Imask;
    FullWord(t.parsed.value[0]);
    FullWord(t.parsed.value[1]);
    FullWord(t.parsed.value[2]);
    FullWord(t.parsed.value[3]);
  }

  /** A host matches its own address, and in the other family whatever has the same first word; an IPv4 host does not
      look further. */
  lemma HostMatches(t: AddressText, b: Quad, af: Family)
    requires IsHost(t) && IsQuery(b, af)
    ensures TextMatches(t, b, af) <==>
            if FamilyOfText(t) == af then IsHostAt(t, b, af) else NetworkOf(t).address[0] == b[0]
  {
    hide BitAnd, Imask;
    EntryMatches(t, b, af);
    HostNetwork(t);
    FullWord(b[0]);
    FullWord(b[1]);
    FullWord(b[2]);
    FullWord(b[3]);
  }

  lemma HostQuery(t: AddressText)
    requires IsHost(t)
    ensures IsQuery(NetworkOf(t).address, FamilyOfText(t))
  {
    HostNetwork(t);
  }

  /** Without a clash no host is taken for another. */
  lemma HostsSeparate(ts: seq<AddressText>)
    requires Hosts(ts)
    ensures Separate(ts)
  {
    hide EntryBytes, NetworkOf;
    forall t, u | t in ts && u in ts && EntriesMatch(KeyOf(t), KeyOf(u)) ensures KeyOf(t) == KeyOf(u) {
      var a, af := NetworkOf(u).address, FamilyOfText(u);
      HostQuery(u);
      EntryReadsBack(FamilyOfText(t), NetworkOf(t).address, NetworkOf(t).mask);
      EntryReadsBack(af, a, NetworkOf(u).mask);
      EntryMatches(t, a, af);
      HostMatches(t, a, af);
      assert !Clash(t, u);
      HostNetwork(t);
      HostNetwork(u);
    }
  }

  // ---------------------------------------------------------------- where hosts differ

  /** Outside the address two entries with equal families and masks have equal bits. */
  lemma DifferOnlyInAddress(af: Family, a: Quad, b: Quad, m: Quad, i: nat)
    requires i < 288 && (i < 32 || i >= 160)
    ensures KeyBit(EntryBytes(af, a, m), i) == KeyBit(EntryBytes(af, b, m), i)
  {
    assert i / 8 < 4 || i / 8 >= 20;
  }

  /** Before the mask two entries with equal families and addresses have equal bits. */
  lemma DifferOnlyInMask(af: Family, a: Quad, m: Quad, n: Quad, i: nat)
    requires i < 160
    ensures KeyBit(EntryBytes(af, a, m), i) == KeyBit(EntryBytes(af, a, n), i)
  {
    assert i / 8 < 20;
  }

  lemma FamiliesDiffer(a: Quad, m: Quad, b: Quad, n: Quad)
    ensures KeyBit(EntryBytes(Inet, a, m), 4) != KeyBit(EntryBytes(Inet6, b, n), 4)
  {
    assert !Bit(2, 3) && Bit(10, 3);
  }

  lemma HostsDiffer(t: AddressText, u: AddressText, i: nat)
    requires IsHost(t) && IsHost(u) && FirstDifference(KeyOf(t), KeyOf(u), i)
    ensures i < 160
  {
    hide EntryBytes, NetworkOf, KeyBit;
    var n, n' := NetworkOf(t), NetworkOf(u);
    HostNetwork(t);
    HostNetwork(u);
    if FamilyOfText(t) == FamilyOfText(u) {
      if i >= 160 {
        DifferOnlyInAddress(FamilyOfText(t), n.address, n'.address, n.mask, i);
      }
    } else {
      FamiliesDiffer(n.address, n.mask, n'.address, n'.mask);
      FamiliesDiffer(n'.address, n'.mask, n.address, n.mask);
    }
  }

  lemma HostBranches(s: Shape, added: seq<AddressText>, i: nat)
    requires Explains(s, added) && Hosts(added) && i in s.Branches()
    ensures i < 160
  {
    hide KeyOf, Clash;
    assert BranchExplained(s, i);
    if i != 0 {
      var k1, k2 :| k1 in s.Keys() && k2 in s.Keys() && FirstDifference(k1, k2, i);
      assert IsEntry(k1, added) && IsEntry(k2, added);
      var t1 :| t1 in added && k1 == KeyOf(t1);
      var t2 :| t2 in added && k2 == KeyOf(t2);
      HostsDiffer(t1, t2, i);
    }
  }

  // ---------------------------------------------------------------- what the trie answers

  /** A host is found under its address, whatever hosts of both families were added and in what order. */
  lemma HostIsFound(s: Shape, added: seq<AddressText>, t: AddressText, b: Quad, af: Family)
    requires s.Consistent(36) && Explains(s, added) && Hosts(added) && t in added && IsHostAt(t, b, af)
    ensures Hit(s, QueryKey(b, af))
  {
    hide EntryBytes, NetworkOf, KeyBit, Clash, EntriesMatch, Separate;
    var q, k := QueryKey(b, af), KeyOf(t);
    HostsSeparate(added);
    MetAreBranches(s, k);
    forall i | i in s.Met(k) && i < 288 ensures KeyBit(q, i) == KeyBit(k, i) {
      HostBranches(s, added, i);
      DifferOnlyInMask(af, b, NetworkOf(t).mask, ZERO, i);
    }
    WalkFindsKey(s, 36, k, q);
    HostQuery(t);
    HostMatches(t, b, af);
    StoredMatches(t, b, af);
  }

  /** Where no host of the other family has the first word of the address, the trie answers as the scan: it finds
      exactly the hosts that were added. */
  lemma HostsAnswer(s: Shape, added: seq<AddressText>, b: Quad, af: Family)
    requires s.Consistent(36) && Explains(s, added) && Hosts(added) && IsQuery(b, af)
    requires forall t :: t in added && FamilyOfText(t) != af ==> NetworkOf(t).address[0] != b[0]
    ensures Hit(s, QueryKey(b, af)) <==> ScanHit(added, b, af)
    ensures Hit(s, QueryKey(b, af)) <==> exists t :: t in added && IsHostAt(t, b, af)
  {
    hide KeyOf, QueryKey, NetworkOf, Hit, Explains, Clash, TextMatches;
    forall t | t in added ensures TextMatches(t, b, af) <==> IsHostAt(t, b, af) {
      HostMatches(t, b, af);
    }
    if t :| t in added && IsHostAt(t, b, af) {
      HostIsFound(s, added, t, b, af);
    }
    if Hit(s, QueryKey(b, af)) {
      HitIsScanHit(s, added, b, af);
    }
  }

  /** With a host of either family in the trie, the address of another one's first word is lost: the scan accepts it and
      the trie refuses it. */
  lemma FirstWordLost(s0: Shape, s1: Shape, s2: Shape, t: AddressText, u: AddressText, b: Quad)
    requires Hosts([t, u]) && FamilyOfText(t) == Inet && FamilyOfText(u) == Inet6
    requires IsQuery(b, Inet) && b[0] == NetworkOf(u).address[0]
    requires s0.IsLeaf() && s0.key.None?
    requires Inserted(s1, s0, KeyOf(t), Hit(s0, KeyOf(t)))
    requires Inserted(s2, s1, KeyOf(u), Hit(s1, KeyOf(u)))
    ensures ScanHit([t, u], b, Inet) && !Hit(s2, QueryKey(b, Inet))
  {
    hide EntryBytes, NetworkOf, KeyBit, EntriesMatch, TextMatches, FirstDifference;
    assert t in [t, u] && u in [t, u] && !Clash(t, u);
    HostMatches(u, b, Inet);
    HostMatches(t, b, Inet);
    StoredMatches(t, b, Inet);
    var q, k, k' := QueryKey(b, Inet), KeyOf(t), KeyOf(u);
    HeadBits(NetworkOf(t).address, NetworkOf(t).mask, NetworkOf(u).address, NetworkOf(u).mask, b);
    HostsSeparate([t, u]);
    var bit := KeyBit(k, 0);
    assert s1.Kid(bit).IsLeaf() && s1.Kid(bit).key == Some(k) && s1.Walk(k') == s1.Kid(bit);
    assert !Hit(s1, k');
    assert !s1.IsLeaf() && GrownOnWay(s2, s1, k');
    assert GrownOnWay(s2.Kid(bit), s1.Kid(bit), k');
    var site := s2.Kid(bit);
    FirstAtMost4(k, k', site.branch);
    assert site.Walk(q) == site.Kid(KeyBit(k, site.branch));
    assert s2.Walk(q) == site.Walk(q);
  }

  lemma FirstAtMost4(k: Key, k': Key, i: nat)
    requires |k| == |k'| == 36 && KeyBit(k, 4) != KeyBit(k', 4) && FirstDifference(k, k', i)
    ensures i <= 4 && KeyBit(k, i) != KeyBit(k', i)
  {
  }

  /** The bits of the family. */
  lemma HeadBits(a: Quad, m: Quad, a': Quad, m': Quad, b: Quad)
    ensures forall i :: 0 <= i <= 4 ==> KeyBit(EntryBytes(Inet, b, ZERO), i) == KeyBit(EntryBytes(Inet, a, m), i)
    ensures KeyBit(EntryBytes(Inet, a, m), 0) == KeyBit(EntryBytes(Inet6, a', m'), 0)
    ensures KeyBit(EntryBytes(Inet, a, m), 4) != KeyBit(EntryBytes(Inet6, a', m'), 4)
  {
    FamiliesDiffer(a, m, a', m');
    assert !Bit(2, 7) && !Bit(10, 7);
  }
}
