/** Loading a list of networks into trie storage, as the daemon does with the lists it is sent. Whether the trie then
    answers as a scan of the list depends on the order of the networks. */
module TrieLoads {
  import opened Words
  import opened Wrappers
  import opened Cidr
  import opened IpMatch
  import opened Blacklist
  import opened AddressList
  import opened Trie
  import opened TrieBlacklist

  // ---------------------------------------------------------------- shortest prefix first

  ghost predicate NoLonger(t: AddressText, u: AddressText) {
    t.Scanned? && u.Scanned? ==> t.maskbits <= u.maskbits
  }

  /** No network comes before one of a shorter prefix. */
  ghost predicate ShortestFirst(ts: seq<AddressText>) {
    forall i, j :: 0 <= i < j < |ts| ==> NoLonger(ts[i], ts[j])
  }

  // ---------------------------------------------------------------- loading

  ghost predicate IsSound(s: Shape) {
    s.Consistent(36) || (s.IsLeaf() && s.key.None?)
  }

  /** The trie before the `i`-th network, and that insertion. */
  ghost predicate Stage(shapes: seq<Shape>, texts: seq<AddressText>, i: nat)
    requires |shapes| == |texts| + 1 && i <= |texts|
  {
    && IsSound(shapes[i]) && Explains(shapes[i], texts[..i])
    && (i < |texts| ==> Inserted(shapes[i + 1], shapes[i], KeyOf(texts[i]), Hit(shapes[i], KeyOf(texts[i]))))
  }

  /** The shapes that the trie goes through while the networks are added. */
  ghost predicate Grows(shapes: seq<Shape>, texts: seq<AddressText>) {
    |shapes| == |texts| + 1 && forall i :: 0 <= i <= |texts| ==> Stage(shapes, texts, i)
  }

  /** When each network was added the walk of its key met no bit behind its prefix. */
  ghost predicate WalksWithin(shapes: seq<Shape>, texts: seq<AddressText>, n: nat)
    requires n <= |texts| < |shapes|
  {
    forall i :: 0 <= i < n ==> BranchesWithin(shapes[i], texts[i])
  }

  ghost predicate AnswersAsScan(s: Shape, texts: seq<AddressText>, af: Family) {
    forall b: Quad :: Hit(s, QueryKey(b, af)) <==> ScanHit(texts, b, af)
  }

  lemma {:induction false} GrownWithinIff(shapes: seq<Shape>, texts: seq<AddressText>, af: Family, n: nat)
    requires Grows(shapes, texts) && Apart(texts, af) && n <= |texts|
    ensures AllWithin(shapes[n], texts[..n]) <==> WalksWithin(shapes, texts, n)
  {
    hide KeyOf, TextMatches, Disjoint, Inserted, Hit, Explains, BranchesWithin;
    if n > 0 {
      GrownWithinIff(shapes, texts, af, n - 1);
      assert texts[..n] == texts[..n - 1] + [texts[n - 1]];
      assert forall u :: u in texts[..n] ==> u in texts;
      assert Apart(texts[..n], af);
      assert Stage(shapes, texts, n - 1) && Stage(shapes, texts, n);
      StaysWithinIff(shapes[n - 1], texts[..n - 1], shapes[n], texts[n - 1], af);
    }
  }

  /** The trie of a list without overlaps answers as the scan of the list if and only if, when each network was added,
      the walk of its key met no bit behind its prefix. */
  lemma LoadedAnswersIff(shapes: seq<Shape>, texts: seq<AddressText>, af: Family)
    requires Grows(shapes, texts) && Apart(texts, af) && af != Unspecified
    ensures AnswersAsScan(shapes[|texts|], texts, af) <==> WalksWithin(shapes, texts, |texts|)
  {
    hide KeyOf, QueryKey, TextMatches, Disjoint, Inserted, Hit, Explains, BranchesWithin, Apart, ScanHit;
    GrownWithinIff(shapes, texts, af, |texts|);
    assert Stage(shapes, texts, |texts|) && texts[..|texts|] == texts;
    AnswersAsScanIff(shapes[|texts|], texts, af);
  }

  /** So it does for a list that has its shortest prefixes first, whatever their lengths. */
  lemma ShortestFirstAnswers(shapes: seq<Shape>, texts: seq<AddressText>, af: Family)
    requires Grows(shapes, texts) && Apart(texts, af) && af != Unspecified && ShortestFirst(texts)
    ensures AnswersAsScan(shapes[|texts|], texts, af)
  {
    hide KeyOf, QueryKey, TextMatches, Disjoint, Inserted, Hit, Explains, BranchesWithin, ScanHit, AnswersAsScan;
    forall i | 0 <= i < |texts| ensures BranchesWithin(shapes[i], texts[i]) {
      assert Stage(shapes, texts, i);
      assert forall u :: u in texts[..i] ==> u in texts;
      assert Apart(texts[..i], af) && OfFamily(texts[i], af);
      forall u | u in texts[..i] && u.Scanned? ensures u.maskbits <= texts[i].maskbits {
        var j :| 0 <= j < i && texts[j] == u;
        assert NoLonger(texts[j], texts[i]);
      }
      ShortestFirstStaysWithin(shapes[i], texts[..i], texts[i], af);
    }
    LoadedAnswersIff(shapes, texts, af);
  }

  /** Loads the networks of a list. */
  method Load(texts: seq<AddressText>, ghost af: Family) returns (list: TrieBlacklist, ghost shapes: seq<Shape>)
    requires forall t :: t in texts ==> FamilyKnown(t)
    ensures list.Valid() && list.added == texts
    ensures Grows(shapes, texts) && shapes[|texts|] == list.trie.shape
    ensures Apart(texts, af) && af != Unspecified ==>
              (AnswersAsScan(list.trie.shape, texts, af) <==> WalksWithin(shapes, texts, |texts|))
    ensures Apart(texts, af) && af != Unspecified && ShortestFirst(texts) ==>
              AnswersAsScan(list.trie.shape, texts, af)
  {
    hide Apart, FamilyKnown, Inserted, Explains, Hit, AnswersAsScan, WalksWithin, ShortestFirst, KeyOf, Grows;
    list := new TrieBlacklist();
    shapes := [list.trie.shape];
    GrowsFromNothing(list.trie.shape);
    assert texts[..0] == [];
    for i := 0 to |texts|
      invariant list.Valid() && fresh(list) && fresh(list.trie.shape.Nodes()) && list.added == texts[..i]
      invariant |shapes| == i + 1 && shapes[i] == list.trie.shape && Grows(shapes, texts[..i])
    {
      label Before:
      var _ := list.Add(texts[i]);
      GrowsOn(shapes, texts[..i], list.trie.shape, texts[i]);
      shapes := shapes + [list.trie.shape];
      assert forall o :: o in list.trie.shape.Nodes() && o !in old@Before(list.trie.shape.Nodes()) ==> fresh@Before(o);
      assert texts[..i + 1] == texts[..i] + [texts[i]];
    }
    assert texts[..|texts|] == texts;
    if Apart(texts, af) && af != Unspecified {
      LoadedAnswersIff(shapes, texts, af);
      if ShortestFirst(texts) {
        ShortestFirstAnswers(shapes, texts, af);
      }
    }
  }

  lemma GrowsFromNothing(s: Shape)
    requires IsSound(s) && Explains(s, [])
    ensures Grows([s], [])
  {
    hide Explains;
  }

  lemma GrowsOn(shapes: seq<Shape>, ts: seq<AddressText>, s: Shape, t: AddressText)
    requires Grows(shapes, ts) && IsSound(s) && Explains(s, ts + [t])
    requires Inserted(s, shapes[|ts|], KeyOf(t), Hit(shapes[|ts|], KeyOf(t)))
    ensures Grows(shapes + [s], ts + [t])
  {
    hide Explains, Inserted, KeyOf, Hit, IsSound;
    var more, all := shapes + [s], ts + [t];
    forall i | 0 <= i <= |all| ensures Stage(more, all, i) {
      if i < |all| {
        assert Stage(shapes, ts, i) && all[..i] == ts[..i];
      } else {
        assert all[..i] == all;
      }
    }
  }

  // ---------------------------------------------------------------- collapsed lists

  /** The blocks of a collapsed blacklist are networks without overlap. */
  lemma CollapsedApart(rs: seq<Range>, cidrs: seq<Block>, texts: seq<AddressText>)
    requires ValidRanges(rs) && Canonical(cidrs, BlackMinusWhite(rs))
    requires |texts| == |cidrs| && forall i :: 0 <= i < |cidrs| ==>
             cidrs[i].addr < U32 && texts[i] == CidrText(cidrs[i])
    ensures Apart(texts, Inet)
  {
    hide KeyOf, TextMatches;
    var s := BlackMinusWhite(rs);
    forall i | 0 <= i < |cidrs| ensures Maximal(cidrs[i], s) && OfFamily(texts[i], Inet) {
      assert Maximal(cidrs[i], s);
      NotWholeSpace(rs, cidrs[i]);
    }
    forall i, j | 0 <= i < |cidrs| && 0 <= j < |cidrs|
      ensures KeyOf(texts[i]) == KeyOf(texts[j]) || Disjoint(texts[i], texts[j], Inet)
    {
      if b: Quad :| TextMatches(texts[i], b, Inet) && TextMatches(texts[j], b, Inet) {
        NotWholeSpace(rs, cidrs[i]);
        NotWholeSpace(rs, cidrs[j]);
        BlockMatches(cidrs[i], b);
        BlockMatches(cidrs[j], b);
        MaximalMeetEqual(cidrs[i], cidrs[j], s, b[0]);
      }
    }
  }

  // ---------------------------------------------------------------- a wider network added late

  /** Two disjoint networks added first leave their first difference on the way of whatever is added third. */
  lemma ThirdMeetsDifference(s0: Shape, s1: Shape, s2: Shape, s3: Shape, a: AddressText, b: AddressText,
                             c: AddressText, af: Family, i: nat)
    requires OfFamily(a, af) && OfFamily(b, af) && OfFamily(c, af) && Disjoint(a, b, af)
    requires FirstDifference(KeyOf(a), KeyOf(b), i)
    requires s0.IsLeaf() && s0.key.None? && s2.Consistent(36)
    requires Inserted(s1, s0, KeyOf(a), Hit(s0, KeyOf(a)))
    requires Inserted(s2, s1, KeyOf(b), Hit(s1, KeyOf(b)))
    requires Inserted(s3, s2, KeyOf(c), Hit(s2, KeyOf(c)))
    ensures i in s3.Met(KeyOf(c))
  {
    hide KeyOf;
    FamilyBits(a, b, 0);
    FamilyBits(a, c, 0);
    var bit := KeyBit(KeyOf(a), 0);
    assert s1.Kid(bit).IsLeaf() && s1.Kid(bit).key == Some(KeyOf(a)) && s1.Walk(KeyOf(b)) == s1.Kid(bit);
    if Hit(s1, KeyOf(b)) {
      MatchingEntriesMeet(a, b, af);
      assert false;
    }
    assert !s1.IsLeaf() && GrownOnWay(s2, s1, KeyOf(b));
    assert GrownOnWay(s2.Kid(bit), s1.Kid(bit), KeyOf(b));
    assert Grown(s1.Kid(bit), KeyOf(b), s2.Kid(bit));
    SameFirstDifference(KeyOf(a), KeyOf(b), i, s2.Kid(bit).branch);
    assert i in s2.Kid(bit).Met(KeyOf(c)) && i in s2.Met(KeyOf(c));
    if !Hit(s2, KeyOf(c)) {
      GrowthMet(s2, 36, KeyOf(c), s3, KeyOf(c));
    }
  }

  lemma SameFirstDifference(a: Key, b: Key, i: nat, j: nat)
    requires FirstDifference(a, b, i) && FirstDifference(a, b, j)
    ensures i == j
  {
  }

  /** Two disjoint networks that agree on the prefix of a third make the trie lose an address of that third when it
      is added after them, whatever the three are. */
  lemma WiderThirdLoses(s0: Shape, s1: Shape, s2: Shape, s3: Shape, a: AddressText, b: AddressText, c: AddressText,
                        af: Family, i: nat) returns (q: Quad)
    requires af != Unspecified && Apart([a, b, c], af) && Disjoint(a, b, af)
    requires FirstDifference(KeyOf(a), KeyOf(b), i) && c.Scanned? && 32 + c.maskbits <= i
    requires s0.IsLeaf() && s0.key.None? && s2.Consistent(36) && s3.Consistent(36) && Explains(s3, [a, b, c])
    requires Inserted(s1, s0, KeyOf(a), Hit(s0, KeyOf(a)))
    requires Inserted(s2, s1, KeyOf(b), Hit(s1, KeyOf(b)))
    requires Inserted(s3, s2, KeyOf(c), Hit(s2, KeyOf(c)))
    ensures TextMatches(c, q, af) && ScanHit([a, b, c], q, af) && !Hit(s3, QueryKey(q, af))
  {
    hide KeyOf, QueryKey, TextMatches, Disjoint, Inserted, Hit, Explains;
    assert a in [a, b, c] && b in [a, b, c] && c in [a, b, c];
    ThirdMeetsDifference(s0, s1, s2, s3, a, b, c, af, i);
    assert !BitWithin(c, i);
    q := LosesAnAddress(s3, [a, b, c], af, c);
  }

  const HOST1: AddressText := Scanned(false, Some([0x0a00_0001, 0, 0, 0]), 32)
  const HOST2: AddressText := Scanned(false, Some([0x0a00_0002, 0, 0, 0]), 32)
  const WIDE: AddressText := Scanned(false, Some([0x1400_0000, 0, 0, 0]), 8)

  /** Bit 3 of an IPv4 address, counted from its first: bit 4 of its first byte. */
  lemma BitOfFirstByte(a: Quad)
    ensures AddrBit(a, 3) == Bit(a[0] / 0x100_0000, 4)
  {
    hide Bit;
    BitShift8(a[0], 20);
    BitShift8(a[0] / 256, 12);
    BitShift8(a[0] / 256 / 256, 4);
    assert a[0] / 256 / 256 / 256 == a[0] / 0x100_0000;
  }

  lemma FirstBytes()
    ensures AddrBit(HOST1.parsed.value, 3) == AddrBit(HOST2.parsed.value, 3) == false
    ensures AddrBit(WIDE.parsed.value, 3) == AddrBit(LOST, 3) == true
  {
    BitOfFirstByte(HOST1.parsed.value);
    BitOfFirstByte(HOST2.parsed.value);
    BitOfFirstByte(WIDE.parsed.value);
    BitOfFirstByte(LOST);
    assert !Bit(10, 4) && Bit(20, 4);
  }

  lemma LastBits()
    ensures !AddrBit(HOST1.parsed.value, 30) && AddrBit(HOST2.parsed.value, 30)
    ensures !AddrBit(WIDE.parsed.value, 30) && AddrBit(LOST, 30)
  {
    assert !Bit(0x0a00_0001, 1) && Bit(0x0a00_0002, 1) && !Bit(0x1400_0000, 1) && Bit(0x1400_0002, 1);
  }

  /** Addresses whose first words agree in all but the last two bits. */
  lemma AgreeBefore30(a: Quad, b: Quad, p: nat)
    requires p < 30 && Floor(a[0], 2) == Floor(b[0], 2)
    ensures AddrBit(a, p) == AddrBit(b, p)
  {
    hide Bit, Floor;
    FloorKeepsHighBits(a[0], 2, 31 - p);
    FloorKeepsHighBits(b[0], 2, 31 - p);
  }

  /** The three are disjoint, and the keys of the first two differ first in bit 30 of the address. */
  lemma ThreeNetworks()
    ensures Apart([HOST1, HOST2, WIDE], Inet) && Disjoint(HOST1, HOST2, Inet)
    ensures FirstDifference(KeyOf(HOST1), KeyOf(HOST2), 62)
  {
    hide KeyOf, TextMatches, Disjoint, Bit, AddrBit;
    FirstBytes();
    LastBits();
    DifferInBit(HOST1, HOST2, 30);
    DifferInBit(HOST1, WIDE, 3);
    DifferInBit(HOST2, WIDE, 3);
    forall i | 0 <= i < 62 ensures KeyBit(KeyOf(HOST1), i) == KeyBit(KeyOf(HOST2), i) {
      if i < 32 {
        FamilyBits(HOST1, HOST2, i);
      } else {
        HostsAgree(i - 32);
      }
    }
  }

  lemma HostsAgree(p: nat)
    requires p < 30
    ensures KeyBit(KeyOf(HOST1), 32 + p) == KeyBit(KeyOf(HOST2), 32 + p)
  {
    hide KeyOf, Bit, AddrBit, NetworkOf, KeyBit;
    KeyOfBit(HOST1, p);
    KeyOfBit(HOST2, p);
    MaskedBit(HOST1, p);
    MaskedBit(HOST2, p);
    assert Floor(0x0a00_0001, 2) == Floor(0x0a00_0002, 2);
    AgreeBefore30(HOST1.parsed.value, HOST2.parsed.value, p);
  }

  /** Networks that differ in a bit of both prefixes are disjoint, and so are their keys there. */
  lemma DifferInBit(t: AddressText, u: AddressText, p: nat)
    requires OfFamily(t, Inet) && OfFamily(u, Inet) && p < t.maskbits && p < u.maskbits
    requires AddrBit(t.parsed.value, p) != AddrBit(u.parsed.value, p)
    ensures Disjoint(t, u, Inet) && Disjoint(u, t, Inet) && KeyBit(KeyOf(t), 32 + p) != KeyBit(KeyOf(u), 32 + p)
  {
    hide KeyOf;
    KeyOfBit(t, p);
    KeyOfBit(u, p);
    MaskedBit(t, p);
    MaskedBit(u, p);
    forall b: Quad ensures !(TextMatches(t, b, Inet) && TextMatches(u, b, Inet)) {
      assert AddrBit(b, p) != AddrBit(t.parsed.value, p) || AddrBit(b, p) != AddrBit(u.parsed.value, p);
    }
  }

  const LOST: Quad := [0x1400_0002, 0, 0, 0]

  lemma RefusedByBit(t: AddressText, b: Quad, p: nat)
    requires OfFamily(t, Inet) && p < t.maskbits && AddrBit(t.parsed.value, p) != AddrBit(b, p)
    ensures !TextMatches(t, b, Inet)
  {
  }

  /** 20.0.0.2 lies in the third network only. */
  lemma LostAddress()
    ensures TextMatches(WIDE, LOST, Inet) && !TextMatches(HOST1, LOST, Inet) && !TextMatches(HOST2, LOST, Inet)
  {
    hide Bit, AddrBit, TextMatches;
    FirstBytes();
    RefusedByBit(HOST1, LOST, 3);
    RefusedByBit(HOST2, LOST, 3);
    WideHoldsLost();
  }

  lemma WideHoldsLost()
    ensures TextMatches(WIDE, LOST, Inet)
  {
    hide Bit, AddrBit;
    assert Floor(0x1400_0000, 2) == Floor(0x1400_0002, 2);
    forall p | 0 <= p < 8 ensures AddrBit(WIDE.parsed.value, p) == AddrBit(LOST, p) {
      AgreeBefore30(WIDE.parsed.value, LOST, p);
    }
  }

  /** Its key leaves that network's key at the bit where the other two first differ. */
  lemma LostTurn()
    ensures KeyBit(QueryKey(LOST, Inet), 62) != KeyBit(KeyOf(WIDE), 62)
  {
    hide KeyOf, Bit, AddrBit, KeyBit, QueryKey, NetworkOf, EntryBytes;
    LastBits();
    KeyOfBit(WIDE, 30);
    MaskedBit(WIDE, 30);
    QueryBit(LOST, Inet, 30);
  }

  /** Loads three networks into a trie and asks for an address of the third whose key leaves that network's key where
      the first two first differ. */
  method AskAfterThree(a: AddressText, b: AddressText, c: AddressText, q: Quad, af: Family, ghost i: nat)
    returns (r: bool)
    requires FamilyKnown(a) && FamilyKnown(b) && FamilyKnown(c)
    requires af != Unspecified && Apart([a, b, c], af) && Disjoint(a, b, af)
    requires !TextMatches(a, q, af) && !TextMatches(b, q, af)
    requires FirstDifference(KeyOf(a), KeyOf(b), i) && KeyBit(QueryKey(q, af), i) != KeyBit(KeyOf(c), i)
    ensures !r
  {
    hide *;
    var list := new TrieBlacklist();
    ghost var s0 := list.trie.shape;
    var _ := list.Add(a);
    ghost var s1 := list.trie.shape;
    var _ := list.Add(b);
    ghost var s2 := list.trie.shape;
    var _ := list.Add(c);
    assert list.added == [a, b, c];
    ThirdRefuses(s0, s1, s2, list.trie.shape, a, b, c, q, af, i);
    r := list.Match(q, af);
  }

  lemma ThirdRefuses(s0: Shape, s1: Shape, s2: Shape, s3: Shape, a: AddressText, b: AddressText, c: AddressText,
                     q: Quad, af: Family, i: nat)
    requires Apart([a, b, c], af) && Disjoint(a, b, af) && !TextMatches(a, q, af) && !TextMatches(b, q, af)
    requires FirstDifference(KeyOf(a), KeyOf(b), i) && KeyBit(QueryKey(q, af), i) != KeyBit(KeyOf(c), i)
    requires s0.IsLeaf() && s0.key.None? && s2.Consistent(36)
    requires Inserted(s1, s0, KeyOf(a), Hit(s0, KeyOf(a)))
    requires Inserted(s2, s1, KeyOf(b), Hit(s1, KeyOf(b)))
    requires Inserted(s3, s2, KeyOf(c), Hit(s2, KeyOf(c)))
    ensures forall t :: t in [a, b, c] ==> !Reached(s3, t, q, af)
  {
    hide KeyOf, QueryKey, TextMatches, Disjoint, Inserted, Hit;
    assert a in [a, b, c] && b in [a, b, c] && c in [a, b, c];
    ThirdMeetsDifference(s0, s1, s2, s3, a, b, c, af, i);
  }

  method ScanThree(a: AddressText, b: AddressText, c: AddressText, q: Quad, af: Family) returns (r: bool)
    requires af != Unspecified
    ensures r <==> ScanHit([a, b, c], q, af)
  {
    hide TextMatches;
    var list := new AddressList();
    var _ := list.Add(a);
    var _ := list.Add(b);
    var _ := list.Add(c);
    assert list.added == [a, b, c];
    r := list.Match(q, af);
  }

  /** 10.0.0.1/32, 10.0.0.2/32 and 20.0.0.0/8, in the order in which collapsing lists them: the scan accepts 20.0.0.2
      and the trie refuses it. */
  method LateWiderNetworkIsLost() returns (byTrie: bool, byList: bool)
    ensures !byTrie && byList
  {
    hide KeyOf, QueryKey, TextMatches, Disjoint, Apart, FirstDifference;
    ThreeNetworks();
    LostAddress();
    LostTurn();
    byTrie := AskAfterThree(HOST1, HOST2, WIDE, LOST, Inet, 62);
    byList := ScanThree(HOST1, HOST2, WIDE, LOST, Inet);
    assert WIDE in [HOST1, HOST2, WIDE];
  }

  // ---------------------------------------------------------------- the three as a collapsed list

  const RANGES: seq<Range> := [Range(0x0a00_0001, 0x0a00_0003, Black), Range(0x1400_0000, 0x1500_0000, Black)]
  const BLOCKS: seq<Block> := [Block(0x0a00_0001, 32), Block(0x0a00_0002, 32), Block(0x1400_0000, 8)]

  lemma Covered(x: int)
    ensures x in BlackMinusWhite(RANGES) <==> 0x0a00_0001 <= x < 0x0a00_0003 || 0x1400_0000 <= x < 0x1500_0000
  {
    assert RANGES[0] in RANGES && RANGES[1] in RANGES;
  }

  lemma Pow2Of24()
    ensures Pow2(24) == 0x100_0000 && Pow2(25) == 0x200_0000
  {
    assert Pow2(8) == 0x100;
    Pow2Sum(8, 8);
    Pow2Sum(16, 8);
  }

  lemma BlocksMaximal()
    ensures forall c :: c in BLOCKS ==> Maximal(c, BlackMinusWhite(RANGES))
  {
    var s := BlackMinusWhite(RANGES);
    forall x ensures x in s <==> 0x0a00_0001 <= x < 0x0a00_0003 || 0x1400_0000 <= x < 0x1500_0000 {
      Covered(x);
    }
    HostMaximal(0x0a00_0001, s);
    HostMaximal(0x0a00_0002, s);
    WideMaximal(s);
  }

  lemma HostMaximal(a: nat, s: iset<int>)
    requires a in s && a < U32 && (if a % 2 == 0 then a + 1 !in s else a - 1 !in s)
    ensures Maximal(Block(a, 32), s)
  {
    var c := Block(a, 32);
    assert Pow2(0) == 1 && Pow2(1) == 2 && Floor(a, 0) == a && Floor(a, 1) == 2 * (a / 2);
    assert Size(c) == 1 && Parent(c) == Block(2 * (a / 2), 31) && Size(Parent(c)) == 2;
    var x := if a % 2 == 0 then a + 1 else a - 1;
    assert InBlock(Parent(c), x);
  }

  lemma WideMaximal(s: iset<int>)
    requires forall x :: 0x1400_0000 <= x < 0x1500_0000 ==> x in s
    requires 0x13ff_ffff !in s && 0x1500_0000 !in s
    ensures Maximal(Block(0x1400_0000, 8), s)
  {
    hide Pow2, Floor;
    var c := Block(0x1400_0000, 8);
    Pow2Of24();
    MultipleAligned(20, 24);
    FloorBounds(0x1400_0000, 25);
    var x := if Floor(0x1400_0000, 25) == 0x1400_0000 then 0x1500_0000 else 0x13ff_ffff;
    assert InBlock(Parent(c), x);
  }

  /** The three networks, in this order, are what two black ranges collapse to. */
  lemma ThreeAreCollapsed()
    ensures ValidRanges(RANGES) && Canonical(BLOCKS, BlackMinusWhite(RANGES))
    ensures [HOST1, HOST2, WIDE] == [CidrText(BLOCKS[0]), CidrText(BLOCKS[1]), CidrText(BLOCKS[2])]
  {
    hide Maximal;
    BlocksMaximal();
    Pow2Of24();
    assert Pow2(0) == 1;
    assert BLOCKS[0] in BLOCKS && BLOCKS[1] in BLOCKS && BLOCKS[2] in BLOCKS;
    forall x | x in BlackMinusWhite(RANGES) ensures Listed(BLOCKS, x) {
      Covered(x);
      var c := if x == 0x0a00_0001 then BLOCKS[0] else if x == 0x0a00_0002 then BLOCKS[1] else BLOCKS[2];
      assert InBlock(c, x);
    }
  }
}
