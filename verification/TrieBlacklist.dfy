/** Networks in trie storage. A key is the memory of one entry: family, address, mask. */
module TrieBlacklist {
  import opened Words
  import opened Wrappers
  import opened RangeToCidr
  import opened IpMatch
  import opened AddressList
  import opened Trie

  // ---------------------------------------------------------------- entries as bytes

  /** Byte `i` of a word in network byte order. */
  function WordByte(w: nat, i: nat): Byte
    requires i < 4
    decreases 3 - i
  {
    if i == 3 then w % 256 else WordByte(w / 256, i + 1)
  }

  function FamilyByte(af: Family): Byte {
    match af case Unspecified => 0 case Inet => 2 case Inet6 => 10
  }

  function EntryByte(af: Family, address: Quad, mask: Quad, i: nat): Byte
    requires i < 36
  {
    if i == 0 then FamilyByte(af) else if i < 4 then 0
    else if i < 20 then WordByte(address[(i - 4) / 4], (i - 4) % 4) else WordByte(mask[(i - 20) / 4], (i - 20) % 4)
  }

  /** The memory of `struct Blacklist_trie_entry`, its padding zeroed. */
  function EntryBytes(af: Family, address: Quad, mask: Quad): (k: Key)
    ensures |k| == 36
  {
    seq(36, i requires 0 <= i < 36 => EntryByte(af, address, mask, i))
  }

  function WordOf(b0: Byte, b1: Byte, b2: Byte, b3: Byte): (w: nat)
    ensures w < U32
  {
    var high: nat := b0;
    256 * (256 * (256 * high + b1) + b2) + b3
  }

  function WordAt(k: Key, i: nat): (w: nat)
    requires i + 4 <= |k|
    ensures w < U32
  {
    WordOf(k[i], k[i + 1], k[i + 2], k[i + 3])
  }

  function QuadAt(k: Key, i: nat): Quad
    requires i + 16 <= |k|
  {
    [WordAt(k, i), WordAt(k, i + 4), WordAt(k, i + 8), WordAt(k, i + 12)]
  }

  function FamilyOf(k: Key): Family
    requires |k| == 36
  {
    if k[0] == 2 then Inet else if k[0] == 10 then Inet6 else Unspecified
  }

  lemma WordBytes(w: nat, x: nat, y: nat, z: nat)
    requires x == w / 256 && y == x / 256 && z == y / 256
    ensures WordByte(w, 3) == w % 256 && WordByte(w, 2) == x % 256 && WordByte(w, 1) == y % 256
            && WordByte(w, 0) == z % 256
  {
    assert WordByte(x, 2) == y % 256 && WordByte(y, 2) == z % 256;
    assert WordByte(x, 1) == WordByte(y, 2);
  }

  lemma WordReadsBack(w: nat)
    requires w < U32
    ensures WordOf(WordByte(w, 0), WordByte(w, 1), WordByte(w, 2), WordByte(w, 3)) == w
  {
    var x := w / 256;
    var y := x / 256;
    var z := y / 256;
    WordBytes(w, x, y, z);
    assert z < 256;
    assert 256 * z + y % 256 == y && 256 * y + x % 256 == x && 256 * x + w % 256 == w;
  }

  lemma QuadReadsBack(k: Key, i: nat, q: Quad)
    requires i + 16 <= |k| && forall j :: 0 <= j < 16 ==> k[i + j] == WordByte(q[j / 4], j % 4)
    ensures QuadAt(k, i) == q
  {
    forall j | 0 <= j < 4 ensures WordAt(k, i + 4 * j) == q[j] {
      forall b | 0 <= b < 4 ensures k[i + (4 * j + b)] == WordByte(q[j], b) {
        assert (4 * j + b) / 4 == j && (4 * j + b) % 4 == b;
      }
      assert k[i + (4 * j + 0)] == WordByte(q[j], 0) && k[i + (4 * j + 1)] == WordByte(q[j], 1);
      assert k[i + (4 * j + 2)] == WordByte(q[j], 2) && k[i + (4 * j + 3)] == WordByte(q[j], 3);
      WordReadsBack(q[j]);
    }
    var r := QuadAt(k, i);
    assert r[0] == WordAt(k, i + 4 * 0) && r[1] == WordAt(k, i + 4 * 1);
    assert r[2] == WordAt(k, i + 4 * 2) && r[3] == WordAt(k, i + 4 * 3);
  }

  lemma EntryReadsBack(af: Family, address: Quad, mask: Quad)
    ensures FamilyOf(EntryBytes(af, address, mask)) == af
    ensures QuadAt(EntryBytes(af, address, mask), 4) == address
    ensures QuadAt(EntryBytes(af, address, mask), 20) == mask
  {
    var k := EntryBytes(af, address, mask);
    forall j | 0 <= j < 16
      ensures k[4 + j] == WordByte(address[j / 4], j % 4) && k[20 + j] == WordByte(mask[j / 4], j % 4)
    {
    }
    QuadReadsBack(k, 4, address);
    QuadReadsBack(k, 20, mask);
  }

  /** The comparison the trie is given: the stored network against the address and family of the other entry. */
  predicate EntriesMatch(stored: Key, other: Key) {
    |stored| == 36 && |other| == 36
    && IpMatchAddr(QuadAt(stored, 4), QuadAt(stored, 20), QuadAt(other, 4), FamilyOf(other))
  }

  lemma BitShift8(a: nat, i: nat)
    ensures Bit(a, i + 8) == Bit(a / 256, i)
  {
    assert a / 2 / 2 / 2 / 2 / 2 / 2 / 2 / 2 == a / 256;
    assert Bit(a, i + 8) == Bit(a / 2, i + 7) == Bit(a / 2 / 2, i + 6) == Bit(a / 2 / 2 / 2, i + 5);
    assert Bit(a / 2 / 2 / 2, i + 5) == Bit(a / 2 / 2 / 2 / 2, i + 4) == Bit(a / 2 / 2 / 2 / 2 / 2, i + 3);
    assert Bit(a / 2 / 2 / 2 / 2 / 2, i + 3) == Bit(a / 2 / 2 / 2 / 2 / 2 / 2, i + 2);
    assert Bit(a / 2 / 2 / 2 / 2 / 2 / 2, i + 2) == Bit(a / 2 / 2 / 2 / 2 / 2 / 2 / 2, i + 1);
  }

  lemma BitOverMultiple(x: nat, r: nat, i: nat)
    requires Floor(x, i + 1) == x
    ensures Bit(x + r, i) == Bit(r, i)
  {
    if i > 0 {
      BitOverMultiple(x / 2, r / 2, i - 1);
    }
  }

  lemma BitLowByte(a: nat, i: nat)
    requires i < 8
    ensures Bit(a % 256, i) == Bit(a, i)
  {
    var q := a / 256;
    MultipleAligned(q, 8);
    assert Pow2(8) == 256;
    AlignedFiner(256 * q, i + 1, 8);
    BitOverMultiple(256 * q, a % 256, i);
  }

  lemma MultipleAligned(q: nat, n: nat)
    ensures Floor(Pow2(n) * q, n) == Pow2(n) * q
  {
    if n > 0 {
      assert Pow2(n) * q == 2 * (Pow2(n - 1) * q);
      MultipleAligned(q, n - 1);
    }
  }

  /** Bit `n` of the bytes of a word is bit `31 - n` of the word. */
  lemma WordBits(w: nat, n: nat)
    requires w < U32 && n < 32
    ensures Bit(WordByte(w, n / 8), 7 - n % 8) == Bit(w, 31 - n)
  {
    WordBitsFrom(w, n, 0);
  }

  lemma {:induction false} WordBitsFrom(w: nat, n: nat, shift: nat)
    requires n < 32 && shift <= 3 - n / 8
    ensures Bit(WordByte(w, n / 8 + shift), 7 - n % 8) == Bit(w, 31 - n - 8 * shift)
    decreases 3 - shift
  {
    if n / 8 + shift == 3 {
      BitLowByte(w, 7 - n % 8);
    } else {
      WordBitsFrom(w / 256, n, shift + 1);
      BitShift8(w, 31 - n - 8 * (shift + 1));
    }
  }

  lemma EntryBits(af: Family, a: Quad, m: Quad, n: nat)
    requires n < 128
    ensures KeyBit(EntryBytes(af, a, m), 32 + n) == AddrBit(a, n)
  {
    var j, r := n / 32, n % 32;
    assert (32 + n) / 8 == 4 + 4 * j + r / 8 && (32 + n) % 8 == r % 8;
    assert (4 * j + r / 8) / 4 == j && (4 + 4 * j + r / 8) % 4 == r / 8;
    WordBits(a[j], r);
  }

  // ---------------------------------------------------------------- stored networks

  /** What the code asks of an added text: the family must be known, or later insertions would compare a missing key. */
  predicate FamilyKnown(t: AddressText) {
    t.Scanned? && 0 < t.maskbits <= 128
  }

  /** The key that adding a text inserts. */
  function KeyOf(t: AddressText): (k: Key)
    ensures |k| == 36
  {
    EntryBytes(FamilyOfText(t), NetworkOf(t).address, NetworkOf(t).mask)
  }

  lemma AndTwice(a: nat, k: nat)
    requires a < U32 && k <= 32
    ensures BitAnd(BitAnd(a, Imask(k)), Imask(k)) == BitAnd(a, Imask(k))
  {
    ImaskClearsHostBits(a, k);
    FloorBounds(a, 32 - k);
    ImaskClearsHostBits(Floor(a, 32 - k), k);
    FloorNest(a, 32 - k, 32 - k);
  }

  lemma MaskedTwice(t: AddressText, j: nat)
    requires j < 4
    ensures BitAnd(NetworkOf(t).address[j], NetworkOf(t).mask[j]) == NetworkOf(t).address[j]
  {
    AndZero(0);
    if Acceptable(t) {
      AndTwice(t.parsed.value[j], OnesInWord(t.maskbits, j));
    }
  }

  lemma EntryMatchesItself(t: AddressText)
    requires FamilyKnown(t)
    ensures EntriesMatch(KeyOf(t), KeyOf(t))
  {
    EntryReadsBack(FamilyOfText(t), NetworkOf(t).address, NetworkOf(t).mask);
    MaskedTwice(t, 0);
    MaskedTwice(t, 1);
    MaskedTwice(t, 2);
    MaskedTwice(t, 3);
  }

  /** The key of a query: an entry without mask. */
  function QueryKey(b: Quad, af: Family): (k: Key)
    ensures |k| == 36
  {
    EntryBytes(af, b, ZERO)
  }

  /** A stored entry against a query. */
  lemma StoredMatches(t: AddressText, b: Quad, af: Family)
    requires af != Unspecified
    ensures EntriesMatch(KeyOf(t), QueryKey(b, af)) <==> TextMatches(t, b, af)
  {
    EntryReadsBack(FamilyOfText(t), NetworkOf(t).address, NetworkOf(t).mask);
    EntryReadsBack(af, b, ZERO);
    EntryMatches(t, b, af);
  }

  lemma FloorLowBits(a: nat, e: nat, i: nat)
    requires i < e
    ensures !Bit(Floor(a, e), i)
  {
    if i > 0 {
      FloorLowBits(a / 2, e - 1, i - 1);
    }
  }

  /** A masked network keeps the bits of its prefix and has zeros behind it. */
  lemma MaskedBit(t: AddressText, i: nat)
    requires Acceptable(t) && i < 128
    ensures AddrBit(NetworkOf(t).address, i) == (i < t.maskbits && AddrBit(t.parsed.value, i))
  {
    hide Bit, Floor, BitAnd, Imask;
    var j := i / 32;
    var a, k := t.parsed.value[j], OnesInWord(t.maskbits, j);
    assert NetworkOf(t).address[j] == BitAnd(a, Imask(k));
    ImaskClearsHostBits(a, k);
    if i < t.maskbits {
      FloorKeepsHighBits(a, 32 - k, 31 - i % 32);
    } else {
      FloorLowBits(a, 32 - k, 31 - i % 32);
    }
  }

  // ---------------------------------------------------------------- networks of one family

  predicate OfFamily(t: AddressText, af: Family) {
    Acceptable(t) && FamilyOfText(t) == af
  }

  /** No address lies in both networks. */
  ghost predicate Disjoint(t: AddressText, u: AddressText, af: Family) {
    forall b: Quad :: !(TextMatches(t, b, af) && TextMatches(u, b, af))
  }

  /** Networks of one family, any two of them equal or disjoint, as collapsing a list yields them. */
  ghost predicate Apart(ts: seq<AddressText>, af: Family) {
    && (forall t :: t in ts ==> OfFamily(t, af))
    && (forall t, u :: t in ts && u in ts ==> KeyOf(t) == KeyOf(u) || Disjoint(t, u, af))
  }

  /** One family and one prefix length. */
  ghost predicate SameClass(t: AddressText, u: AddressText) {
    Acceptable(t) && Acceptable(u) && t.colon == u.colon && t.maskbits == u.maskbits
  }

  ghost predicate Uniform(ts: seq<AddressText>, colon: bool) {
    && (forall t :: t in ts ==> Acceptable(t) && t.colon == colon)
    && (forall t, u :: t in ts && u in ts ==> SameClass(t, u))
  }

  /** A network holds its own address. */
  lemma HoldsItsAddress(t: AddressText, af: Family)
    requires OfFamily(t, af)
    ensures TextMatches(t, NetworkOf(t).address, af)
  {
    hide EntryBytes;
    EntryMatchesItself(t);
    EntryReadsBack(FamilyOfText(t), NetworkOf(t).address, NetworkOf(t).mask);
    EntryMatches(t, NetworkOf(t).address, af);
  }

  /** A stored entry that matches another is equal to it or overlaps it. */
  lemma MatchingEntriesMeet(t: AddressText, u: AddressText, af: Family)
    requires OfFamily(t, af) && OfFamily(u, af) && EntriesMatch(KeyOf(t), KeyOf(u))
    ensures !Disjoint(t, u, af)
  {
    hide EntryBytes;
    EntryReadsBack(FamilyOfText(t), NetworkOf(t).address, NetworkOf(t).mask);
    EntryReadsBack(FamilyOfText(u), NetworkOf(u).address, NetworkOf(u).mask);
    EntryMatches(t, NetworkOf(u).address, af);
    HoldsItsAddress(u, af);
  }

  /** Entries of one family and one prefix length match only if they are the same. */
  lemma UniformMatchIsEqual(t: AddressText, u: AddressText)
    requires SameClass(t, u) && EntriesMatch(KeyOf(t), KeyOf(u))
    ensures KeyOf(t) == KeyOf(u)
  {
    hide EntryBytes;
    var n, n' := NetworkOf(t), NetworkOf(u);
    EntryReadsBack(FamilyOfText(t), n.address, n.mask);
    EntryReadsBack(FamilyOfText(u), n'.address, n'.mask);
    assert n.mask == n'.mask;
    forall j | 0 <= j < 4 ensures n.address[j] == n'.address[j] {
      MaskedTwice(u, j);
      AndZero(t.parsed.value[j]);
      AndZero(u.parsed.value[j]);
    }
    assert n.address == n'.address;
  }

  /** Networks of one family and one prefix length are equal or disjoint. */
  lemma UniformApart(ts: seq<AddressText>, af: Family)
    requires af != Unspecified && Uniform(ts, af == Inet6)
    ensures Apart(ts, af)
  {
    hide KeyOf;
    forall t, u | t in ts && u in ts ensures KeyOf(t) == KeyOf(u) || Disjoint(t, u, af) {
      assert SameClass(t, u);
      if b: Quad :| TextMatches(t, b, af) && TextMatches(u, b, af) {
        SharedPrefixMatches(t, u, b, af);
        UniformMatchIsEqual(t, u);
      }
    }
  }

  /** Of two networks with a common address the one of the shorter prefix matches the other's entry. */
  lemma SharedPrefixMatches(t: AddressText, u: AddressText, b: Quad, af: Family)
    requires OfFamily(t, af) && OfFamily(u, af) && t.maskbits <= u.maskbits
    requires TextMatches(t, b, af) && TextMatches(u, b, af)
    ensures EntriesMatch(KeyOf(t), KeyOf(u))
  {
    hide EntryBytes;
    var a := NetworkOf(u).address;
    forall i | 0 <= i < t.maskbits ensures AddrBit(t.parsed.value, i) == AddrBit(a, i) {
      MaskedBit(u, i);
      assert AddrBit(t.parsed.value, i) == AddrBit(b, i) == AddrBit(u.parsed.value, i);
    }
    EntryMatches(t, a, af);
    EntryReadsBack(FamilyOfText(t), NetworkOf(t).address, NetworkOf(t).mask);
    EntryReadsBack(FamilyOfText(u), a, NetworkOf(u).mask);
  }

  /** Disjoint networks first differ within the shorter prefix of the two. */
  lemma DisjointDifferWithin(t: AddressText, u: AddressText, af: Family, i: nat)
    requires OfFamily(t, af) && OfFamily(u, af) && Disjoint(t, u, af)
    requires FirstDifference(KeyOf(t), KeyOf(u), i)
    ensures 32 <= i < 32 + t.maskbits && i < 32 + u.maskbits
  {
    if t.maskbits <= u.maskbits {
      DisjointDifferWithinFirst(t, u, af, i);
    } else {
      DisjointDifferWithinFirst(u, t, af, i);
    }
  }

  lemma DisjointDifferWithinFirst(t: AddressText, u: AddressText, af: Family, i: nat)
    requires OfFamily(t, af) && OfFamily(u, af) && Disjoint(t, u, af) && t.maskbits <= u.maskbits
    requires i < 288 && KeyBit(KeyOf(t), i) != KeyBit(KeyOf(u), i)
    requires forall j :: 0 <= j < i ==> KeyBit(KeyOf(t), j) == KeyBit(KeyOf(u), j)
    ensures 32 <= i < 32 + t.maskbits
  {
    if i < 32 {
      FamilyBits(t, u, i);
    } else if i >= 32 + t.maskbits {
      AgreeingMeet(t, u, af);
      assert false;
    }
  }

  /** Keys that agree on the shorter prefix are those of networks with a common address. */
  lemma AgreeingMeet(t: AddressText, u: AddressText, af: Family)
    requires OfFamily(t, af) && OfFamily(u, af) && t.maskbits <= u.maskbits
    requires forall j :: 0 <= j < 32 + t.maskbits ==> KeyBit(KeyOf(t), j) == KeyBit(KeyOf(u), j)
    ensures !Disjoint(t, u, af)
  {
    hide KeyOf, NetworkOf, Bit, KeyBit;
    var a := NetworkOf(u).address;
    forall p | 0 <= p < t.maskbits ensures AddrBit(t.parsed.value, p) == AddrBit(a, p) {
      assert KeyBit(KeyOf(t), 32 + p) == KeyBit(KeyOf(u), 32 + p);
      KeyOfBit(t, p);
      KeyOfBit(u, p);
      MaskedBit(t, p);
    }
    HoldsItsAddress(u, af);
    assert TextMatches(t, a, af);
  }

  lemma KeyOfBit(t: AddressText, p: nat)
    requires p < 128
    ensures KeyBit(KeyOf(t), 32 + p) == AddrBit(NetworkOf(t).address, p)
  {
    EntryBits(FamilyOfText(t), NetworkOf(t).address, NetworkOf(t).mask, p);
  }

  lemma QueryBit(b: Quad, af: Family, p: nat)
    requires p < 128
    ensures KeyBit(QueryKey(b, af), 32 + p) == AddrBit(b, p)
  {
    EntryBits(af, b, ZERO, p);
  }

  lemma FamilyBits(t: AddressText, u: AddressText, i: nat)
    requires i < 32 && FamilyOfText(t) == FamilyOfText(u)
    ensures KeyBit(KeyOf(t), i) == KeyBit(KeyOf(u), i)
  {
    assert i / 8 < 4;
  }

  /** A query that a stored entry matches takes the same turn as that entry at every bit of the prefix. */
  lemma QueryFollowsEntry(t: AddressText, b: Quad, af: Family, i: nat)
    requires OfFamily(t, af) && TextMatches(t, b, af)
    requires i == 0 || 32 <= i < 32 + t.maskbits
    ensures KeyBit(QueryKey(b, af), i) == KeyBit(KeyOf(t), i)
  {
    if i > 0 {
      var p := i - 32;
      EntryBits(af, NetworkOf(t).address, NetworkOf(t).mask, p);
      QueryBit(b, af, p);
      MaskedBit(t, p);
      assert AddrBit(t.parsed.value, p) == AddrBit(b, p);
    }
  }

  // ---------------------------------------------------------------- an address that differs in one bit

  function FlipWord(w: nat, n: nat): nat {
    if n == 0 then (if w % 2 == 1 then w - 1 else w + 1) else 2 * FlipWord(w / 2, n - 1) + w % 2
  }

  lemma FlipWordBit(w: nat, n: nat, i: nat)
    ensures Bit(FlipWord(w, n), i) == (Bit(w, i) != (i == n))
  {
    if n > 0 && i > 0 {
      FlipWordBit(w / 2, n - 1, i - 1);
    }
  }

  lemma FlipWordBelow(w: nat, n: nat, m: nat)
    requires w < Pow2(m) && n < m
    ensures FlipWord(w, n) < Pow2(m)
  {
    if n > 0 {
      FlipWordBelow(w / 2, n - 1, m - 1);
    }
  }

  function FlipBit(a: Quad, p: nat): Quad
    requires p < 128
  {
    Pow2Of32();
    FlipWordBelow(a[p / 32], 31 - p % 32, 32);
    a[p / 32 := FlipWord(a[p / 32], 31 - p % 32)]
  }

  lemma FlippedBit(a: Quad, p: nat, i: nat)
    requires p < 128 && i < 128
    ensures AddrBit(FlipBit(a, p), i) == (AddrBit(a, i) != (i == p))
  {
    hide Bit, FlipWord;
    FlipWordBit(a[p / 32], 31 - p % 32, 31 - i % 32);
  }

  /** Behind the prefix of a network there is for every bit an address in the network that differs from it there. */
  lemma AddressBehindPrefix(t: AddressText, af: Family, i: nat) returns (b: Quad)
    requires OfFamily(t, af) && 32 + t.maskbits <= i < 32 + Width(af)
    ensures TextMatches(t, b, af) && KeyBit(QueryKey(b, af), i) != KeyBit(KeyOf(t), i)
  {
    hide FlipBit, NetworkOf, EntryBytes;
    var a, p := NetworkOf(t).address, i - 32;
    b := FlipBit(a, p);
    forall j | 0 <= j < t.maskbits ensures AddrBit(t.parsed.value, j) == AddrBit(b, j) {
      FlippedBit(a, p, j);
      MaskedBit(t, j);
    }
    FlippedBit(a, p, p);
    QueryBit(b, af, p);
    KeyOfBit(t, p);
  }

  // ---------------------------------------------------------------- the trie over added texts

  ghost predicate IsEntry(k: Key, added: seq<AddressText>) {
    exists t :: t in added && k == KeyOf(t)
  }

  ghost predicate BranchExplained(s: Shape, i: nat) {
    i == 0 || exists k, k' :: k in s.Keys() && k' in s.Keys() && FirstDifference(k, k', i)
  }

  /** No entry is taken for another one on insertion. */
  ghost predicate Separate(ts: seq<AddressText>) {
    forall t, u :: t in ts && u in ts && EntriesMatch(KeyOf(t), KeyOf(u)) ==> KeyOf(t) == KeyOf(u)
  }

  lemma ApartSeparate(ts: seq<AddressText>, af: Family)
    requires Apart(ts, af)
    ensures Separate(ts)
  {
    hide KeyOf, TextMatches, Disjoint, EntriesMatch;
    forall t, u | t in ts && u in ts && EntriesMatch(KeyOf(t), KeyOf(u)) ensures KeyOf(t) == KeyOf(u) {
      MatchingEntriesMeet(t, u, af);
    }
  }

  /** The keys of the trie are entries of the added texts, and where none is taken for another no text is missing. */
  ghost predicate Explains(s: Shape, added: seq<AddressText>) {
    && (forall k :: k in s.Keys() ==> IsEntry(k, added))
    && (forall i :: i in s.Branches() ==> BranchExplained(s, i))
    && (Separate(added) ==> forall t :: t in added ==> KeyOf(t) in s.Keys())
  }

  /** The walk for `q` ends at a leaf that matches it. */
  ghost predicate Hit(s: Shape, q: Key) {
    s.Walk(q).IsLeaf() && s.Walk(q).key.Some? && EntriesMatch(s.Walk(q).key.value, q)
  }

  /** The linear scan over the added texts accepts the address. */
  ghost predicate ScanHit(added: seq<AddressText>, b: Quad, af: Family) {
    exists t :: t in added && TextMatches(t, b, af)
  }

  /** A trie hit is a hit of the linear scan. */
  lemma HitIsScanHit(s: Shape, added: seq<AddressText>, b: Quad, af: Family)
    requires s.Consistent(36) && Explains(s, added) && af != Unspecified && Hit(s, QueryKey(b, af))
    ensures ScanHit(added, b, af)
  {
    var q := QueryKey(b, af);
    WalkEndsAtKey(s, 36, q);
    assert IsEntry(s.Walk(q).key.value, added);
    var t :| t in added && s.Walk(q).key.value == KeyOf(t);
    StoredMatches(t, b, af);
  }

  /** The address lies in the network, and its key takes the turns of the network's key. */
  ghost predicate Reached(s: Shape, t: AddressText, b: Quad, af: Family) {
    TextMatches(t, b, af) && TurnsAlike(s, KeyOf(t), QueryKey(b, af))
  }

  /** An address in a network is found exactly when its key takes the turns of the network's key. */
  lemma HitIffReached(s: Shape, added: seq<AddressText>, b: Quad, af: Family, t: AddressText)
    requires s.Consistent(36) && Explains(s, added) && af != Unspecified && Apart(added, af)
    requires t in added && TextMatches(t, b, af)
    ensures Hit(s, QueryKey(b, af)) <==> Reached(s, t, b, af)
  {
    hide KeyOf, QueryKey, EntriesMatch, TextMatches, Hit, Explains;
    ApartSeparate(added, af);
    forall v | v in added && TextMatches(v, b, af) ensures KeyOf(v) == KeyOf(t) {
      assert !Disjoint(t, v, af);
    }
    AloneHitIff(s, added, b, af, t);
  }

  /** The same for entries of whatever families, where no other network holds the address. */
  lemma AloneHitIff(s: Shape, added: seq<AddressText>, b: Quad, af: Family, t: AddressText)
    requires s.Consistent(36) && Explains(s, added) && af != Unspecified && Separate(added)
    requires t in added && TextMatches(t, b, af)
    requires forall v :: v in added && TextMatches(v, b, af) ==> KeyOf(v) == KeyOf(t)
    ensures Hit(s, QueryKey(b, af)) <==> Reached(s, t, b, af)
  {
    hide KeyOf, QueryKey, EntriesMatch, TextMatches, Separate;
    var q, k := QueryKey(b, af), KeyOf(t);
    assert k in s.Keys();
    WalkFindsKey(s, 36, k, q);
    StoredMatches(t, b, af);
    if Hit(s, q) {
      WalkEndsAtKey(s, 36, q);
      assert IsEntry(s.Walk(q).key.value, added);
      var v :| v in added && s.Walk(q).key.value == KeyOf(v);
      StoredMatches(v, b, af);
    }
  }

  /** Every branch bit on the way of an entry is bit 0 or lies inside that entry's prefix. */
  ghost predicate BranchesWithin(s: Shape, t: AddressText) {
    forall i :: i in s.Met(KeyOf(t)) ==> BitWithin(t, i)
  }

  ghost predicate BitWithin(t: AddressText, i: nat) {
    t.Scanned? && (i == 0 || 32 <= i < 32 + t.maskbits)
  }

  ghost predicate AllWithin(s: Shape, added: seq<AddressText>) {
    forall t :: t in added ==> BranchesWithin(s, t)
  }

  /** Between disjoint networks every branch bit is bit 0 or a bit of the address. */
  lemma BranchInAddress(s: Shape, added: seq<AddressText>, af: Family, i: nat)
    requires Explains(s, added) && Apart(added, af) && i in s.Branches() && i != 0
    ensures exists t :: t in added && 32 <= i < 32 + t.maskbits
  {
    hide KeyOf;
    assert BranchExplained(s, i);
    var k1, k2 :| k1 in s.Keys() && k2 in s.Keys() && FirstDifference(k1, k2, i);
    assert IsEntry(k1, added) && IsEntry(k2, added);
    var t1 :| t1 in added && k1 == KeyOf(t1);
    var t2 :| t2 in added && k2 == KeyOf(t2);
    DisjointDifferWithin(t1, t2, af, i);
  }

  /** An entry whose way meets a bit behind its prefix loses an address: one that the scan accepts and the trie
      refuses. */
  lemma LosesAnAddress(s: Shape, added: seq<AddressText>, af: Family, t: AddressText) returns (b: Quad)
    requires s.Consistent(36) && Explains(s, added) && af != Unspecified && Apart(added, af)
    requires t in added && !BranchesWithin(s, t)
    ensures TextMatches(t, b, af) && !Hit(s, QueryKey(b, af))
  {
    hide KeyOf, QueryKey;
    var i :| i in s.Met(KeyOf(t)) && !BitWithin(t, i);
    MetAreBranches(s, KeyOf(t));
    BranchInAddress(s, added, af, i);
    b := AddressBehindPrefix(t, af, i);
    HitIffReached(s, added, b, af, t);
  }

  /** Where the way of an entry meets only bits of its prefix the trie finds every address of the network. */
  lemma WithinLosesNone(s: Shape, added: seq<AddressText>, af: Family, t: AddressText, b: Quad)
    requires s.Consistent(36) && Explains(s, added) && af != Unspecified && Apart(added, af)
    requires t in added && BranchesWithin(s, t) && TextMatches(t, b, af)
    ensures Hit(s, QueryKey(b, af))
  {
    hide KeyOf, QueryKey;
    HitIffReached(s, added, b, af, t);
    forall i | i in s.Met(KeyOf(t)) && i < 288 ensures KeyBit(QueryKey(b, af), i) == KeyBit(KeyOf(t), i) {
      assert BitWithin(t, i);
      QueryFollowsEntry(t, b, af, i);
    }
  }

  lemma WithinAnswers(s: Shape, added: seq<AddressText>, b: Quad, af: Family)
    requires s.Consistent(36) && Explains(s, added) && af != Unspecified && Apart(added, af) && AllWithin(s, added)
    ensures Hit(s, QueryKey(b, af)) <==> ScanHit(added, b, af)
  {
    hide KeyOf, QueryKey, TextMatches, Disjoint;
    if Hit(s, QueryKey(b, af)) {
      HitIsScanHit(s, added, b, af);
    }
    if t :| t in added && TextMatches(t, b, af) {
      WithinLosesNone(s, added, af, t, b);
    }
  }

  // ---------------------------------------------------------------- insertion

  /** What an insertion keeps, whether it stored the key or found a matching one. */
  lemma InsertionExplained(s: Shape, added: seq<AddressText>, s': Shape, t: AddressText)
    requires Explains(s, added)
    requires Stored(s', s, KeyOf(t), Hit(s, KeyOf(t))) && (Hit(s, KeyOf(t)) ==> s.Consistent(36))
    ensures Explains(s', added + [t])
  {
    hide KeyOf, TextMatches;
    var k, added' := KeyOf(t), added + [t];
    assert t in added' && forall u :: u in added ==> u in added';
    forall x | x in s'.Keys() ensures IsEntry(x, added') {
      if x in s.Keys() {
        assert IsEntry(x, added);
        var u :| u in added && x == KeyOf(u);
      }
    }
    forall i | i in s'.Branches() ensures BranchExplained(s', i) {
      assert BranchFrom(i, s, k);
      if i in s.Branches() {
        assert BranchExplained(s, i);
      }
    }
    if Separate(added') {
      assert Separate(added);
      if Hit(s, k) {
        FoundIsEqual(s, added, t);
      }
    }
  }

  /** Where none is taken for another, a match found on insertion is the entry itself. */
  lemma FoundIsEqual(s: Shape, added: seq<AddressText>, t: AddressText)
    requires s.Consistent(36) && Explains(s, added) && Separate(added + [t]) && Hit(s, KeyOf(t))
    ensures KeyOf(t) in s.Keys()
  {
    hide KeyOf, EntriesMatch;
    WalkEndsAtKey(s, 36, KeyOf(t));
    assert IsEntry(s.Walk(KeyOf(t)).key.value, added);
    var v :| v in added && s.Walk(KeyOf(t)).key.value == KeyOf(v);
    assert v in added + [t] && t in added + [t];
  }

  /** A trie that an insertion went into is not empty. */
  lemma HoldsSomeKey(s: Shape, s': Shape, k: Key)
    requires Inserted(s', s, k, Hit(s, k))
    ensures !(s'.IsLeaf() && s'.key.None?)
  {
    hide EntriesMatch;
    if GrownOnWay(s', s, k) && s.Node? && s.branch < 8 * |k| && s.Kid(KeyBit(k, s.branch)).Node? {
      var bit := KeyBit(k, s.branch);
      assert GrownOnWay(s'.Kid(bit), s.Kid(bit), k);
    }
  }

  /** No texts without overlap were added to an empty trie. */
  lemma EmptyHoldsNone(s: Shape, added: seq<AddressText>, af: Family)
    requires Explains(s, added) && Apart(added, af) && s.IsLeaf() && s.key.None?
    ensures forall t :: t !in added
  {
    hide KeyOf, TextMatches, Disjoint, EntriesMatch;
    ApartSeparate(added, af);
    assert s.Keys() == {};
    assert forall t :: t in added ==> KeyOf(t) in s.Keys();
  }

  /** An insertion keeps the agreement with the scan exactly when the walk of the new key met no bit behind its
      prefix. */
  lemma StaysWithinIff(s: Shape, added: seq<AddressText>, s': Shape, t: AddressText, af: Family)
    requires Explains(s, added) && Explains(s', added + [t]) && Apart(added + [t], af)
    requires s.Consistent(36) || (s.IsLeaf() && s.key.None?)
    requires Inserted(s', s, KeyOf(t), Hit(s, KeyOf(t)))
    ensures AllWithin(s', added + [t]) <==> AllWithin(s, added) && BranchesWithin(s, t)
  {
    hide KeyOf, TextMatches, Disjoint;
    var k, added' := KeyOf(t), added + [t];
    assert t in added' && forall u :: u in added ==> u in added';
    assert Apart(added, af);
    if !Hit(s, k) && s.IsLeaf() && s.key.None? {
      EmptyHoldsNone(s, added, af);
      assert s'.Met(k) == {0};
    } else if !Hit(s, k) {
      forall u | u in added'
        ensures BranchesWithin(s', u) <==> BranchesWithin(s, u)
      {
        GrowthWithin(s, added, s', t, af, u);
      }
    }
  }

  /** Growth adds to the ways of stored entries, and to that of the new one, only bits inside their prefixes. */
  lemma GrowthWithin(s: Shape, added: seq<AddressText>, s': Shape, t: AddressText, af: Family, u: AddressText)
    requires s.Node? && s.Consistent(36) && Explains(s, added) && Apart(added + [t], af) && u in added + [t]
    requires GrownOnWay(s', s, KeyOf(t))
    ensures BranchesWithin(s', u) <==> BranchesWithin(s, u)
  {
    hide KeyOf, TextMatches, Disjoint;
    var k, x := KeyOf(t), KeyOf(u);
    assert forall v :: v in added ==> v in added + [t];
    assert t in added + [t];
    assert Apart(added, af);
    ApartSeparate(added, af);
    GrowthMet(s, 36, k, s', x);
    forall b | b in s'.Met(x) && b !in s.Met(x) ensures BitWithin(u, b) {
      assert SplitsAt(s, k, x, b);
      assert IsEntry(s.Site(k).key.value, added);
      var v :| v in added && s.Site(k).key.value == KeyOf(v);
      if x == k {
        DisjointDifferWithin(v, u, af, b);
      } else {
        DisjointDifferWithin(u, t, af, b);
      }
    }
  }

  /** Whoever adds networks in the order of their prefix lengths, shortest first, keeps the agreement with the scan. */
  lemma ShortestFirstStaysWithin(s: Shape, added: seq<AddressText>, t: AddressText, af: Family)
    requires Explains(s, added) && Apart(added, af) && t.Scanned?
    requires forall u :: u in added && u.Scanned? ==> u.maskbits <= t.maskbits
    ensures BranchesWithin(s, t)
  {
    hide KeyOf;
    MetAreBranches(s, KeyOf(t));
    forall i | i in s.Met(KeyOf(t)) && i != 0 ensures BitWithin(t, i) {
      BranchInAddress(s, added, af, i);
    }
  }

  /** Over one prefix length every way branches within it. */
  lemma UniformWithin(s: Shape, added: seq<AddressText>, t: AddressText, af: Family)
    requires Explains(s, added) && af != Unspecified && Uniform(added, af == Inet6) && t in added
    ensures BranchesWithin(s, t)
  {
    hide KeyOf, TextMatches, Disjoint;
    UniformApart(added, af);
    forall u | u in added ensures u.maskbits <= t.maskbits {
      assert SameClass(u, t);
    }
    ShortestFirstStaysWithin(s, added, t, af);
  }

  /** An empty trie finds nothing, and no texts without overlap were added to it. */
  lemma EmptyAnswers(s: Shape, added: seq<AddressText>, b: Quad, af: Family)
    requires Explains(s, added) && s.IsLeaf() && s.key.None?
    ensures !Hit(s, QueryKey(b, af))
    ensures Apart(added, af) ==> !ScanHit(added, b, af)
  {
    hide KeyOf, QueryKey, TextMatches, Disjoint;
    if Apart(added, af) {
      EmptyHoldsNone(s, added, af);
    }
  }

  /** Over networks of which no two overlap an address is found exactly when its key takes its network's turns. */
  lemma ApartAnswers(s: Shape, added: seq<AddressText>, b: Quad, af: Family)
    requires s.Consistent(36) && Explains(s, added) && af != Unspecified && Apart(added, af)
    ensures Hit(s, QueryKey(b, af)) <==> exists t :: t in added && Reached(s, t, b, af)
  {
    hide KeyOf, QueryKey, TextMatches, Disjoint, Hit, Explains, Apart, TurnsAlike;
    if Hit(s, QueryKey(b, af)) {
      HitIsScanHit(s, added, b, af);
      var t :| t in added && TextMatches(t, b, af);
      HitIffReached(s, added, b, af, t);
    }
    forall t | t in added && Reached(s, t, b, af) ensures Hit(s, QueryKey(b, af)) {
      HitIffReached(s, added, b, af, t);
    }
  }

  /** Over entries of one family and one prefix length the trie answers as the scan does. */
  lemma UniformAnswers(s: Shape, added: seq<AddressText>, b: Quad, af: Family)
    requires s.Consistent(36) && Explains(s, added) && af != Unspecified && Uniform(added, af == Inet6)
    ensures Hit(s, QueryKey(b, af)) <==> ScanHit(added, b, af)
  {
    UniformApart(added, af);
    forall t | t in added ensures BranchesWithin(s, t) {
      UniformWithin(s, added, t, af);
    }
    WithinAnswers(s, added, b, af);
  }

  /** Over networks of one family of which no two overlap, the trie answers every query of that family as the scan
      does exactly when the way of every entry branches only on bit 0 and inside the entry's own prefix. */
  lemma AnswersAsScanIff(s: Shape, added: seq<AddressText>, af: Family)
    requires Explains(s, added) && af != Unspecified && Apart(added, af)
    requires s.Consistent(36) || (s.IsLeaf() && s.key.None?)
    ensures (forall b: Quad :: Hit(s, QueryKey(b, af)) <==> ScanHit(added, b, af)) <==> AllWithin(s, added)
  {
    hide KeyOf, QueryKey, TextMatches, Hit;
    if !s.Consistent(36) {
      EmptyHoldsNone(s, added, af);
      forall b: Quad ensures !Hit(s, QueryKey(b, af)) {
        EmptyAnswers(s, added, b, af);
      }
    } else if AllWithin(s, added) {
      forall b: Quad ensures Hit(s, QueryKey(b, af)) <==> ScanHit(added, b, af) {
        WithinAnswers(s, added, b, af);
      }
    } else {
      var t :| t in added && !BranchesWithin(s, t);
      var b := LosesAnAddress(s, added, af, t);
      assert ScanHit(added, b, af);
    }
  }

  class TrieBlacklist {
    var count: nat
    const trie: Trie
    ghost var added: seq<AddressText>

    ghost predicate Valid()
      reads this, trie, trie.shape.Nodes()
    {
      count == |added| && trie.Valid(36) && trie.cmp == EntriesMatch && Explains(trie.shape, added)
    }

    constructor ()
      ensures Valid() && fresh(trie.shape.Nodes()) && added == [] && trie.shape.IsLeaf() && trie.shape.key.None?
    {
      count, added := 0, [];
      trie := new Trie(None, EntriesMatch);
      new;
      assert trie.shape.IsLeaf() && trie.shape.Branches() == {};
    }

    /** A trie match is always a match of the linear scan. Over networks of which no two overlap an address is found
        exactly when its key takes the turns of its network's key, so the two agree where every entry's way branches
        inside its prefix; over one prefix length that is so whatever order the entries were added in. */
    method Match(source: Quad, af: Family) returns (r: bool)
      requires Valid() && af != Unspecified
      ensures r <==> Hit(trie.shape, QueryKey(source, af))
      ensures r ==> ScanHit(added, source, af)
      ensures Apart(added, af) ==> (r <==> exists t :: t in added && Reached(trie.shape, t, source, af))
      ensures Apart(added, af) && AllWithin(trie.shape, added) ==> (r <==> ScanHit(added, source, af))
      ensures Uniform(added, af == Inet6) ==> (r <==> ScanHit(added, source, af))
    {
      hide KeyOf, QueryKey, TextMatches, Disjoint;
      r := trie.Contains(QueryKey(source, af));
      assert r <==> Hit(trie.shape, QueryKey(source, af));
      if !trie.shape.Consistent(36) {
        EmptyAnswers(trie.shape, added, source, af);
        if Uniform(added, af == Inet6) {
          UniformApart(added, af);
        }
      } else {
        if r {
          HitIsScanHit(trie.shape, added, source, af);
        }
        if Apart(added, af) {
          ApartAnswers(trie.shape, added, source, af);
          if AllWithin(trie.shape, added) {
            WithinAnswers(trie.shape, added, source, af);
          }
        }
        if Uniform(added, af == Inet6) {
          UniformAnswers(trie.shape, added, source, af);
        }
      }
    }

    method Add(address: AddressText) returns (ret: int)
      requires Valid() && FamilyKnown(address)
      modifies this, trie.shape.Nodes()
      ensures Valid() && fresh(trie.shape.Nodes() - old(trie.shape.Nodes()))
      ensures added == old(added) + [address]
      ensures ret == if Acceptable(address) then 0 else -1
      ensures Inserted(trie.shape, old(trie.shape), KeyOf(address), old(Hit(trie.shape, KeyOf(address))))
      ensures trie.shape.Consistent(36)
    {
      hide KeyOf, Inserted, Hit, Explains, Acceptable, FamilyKnown;
      assert allocated(trie.shape.Nodes());
      var k;
      ret, k := ReadEntry(address);
      count, added := count + 1, added + [address];
      label Read:
      InsertEntry(trie, k, old(added), address);
      assert forall o :: o in trie.shape.Nodes() && o !in old(trie.shape.Nodes()) ==> fresh@Read(o);
    }

    static method ReadEntry(address: AddressText) returns (ret: int, k: Key)
      requires FamilyKnown(address)
      ensures ret == if Acceptable(address) then 0 else -1
      ensures k == KeyOf(address) && EntriesMatch(k, k)
    {
      var n, m, af;
      ret, n, m, af := IpStrToAddrMask(address);
      EntryMatchesItself(address);
      k := EntryBytes(af, n, m);
    }

    static method InsertEntry(trie: Trie, k: Key, ghost added: seq<AddressText>, ghost address: AddressText)
      requires trie.Valid(36) && trie.cmp == EntriesMatch && Explains(trie.shape, added)
      requires k == KeyOf(address) && EntriesMatch(k, k)
      modifies trie.shape.Nodes()
      ensures trie.Valid(36) && fresh(trie.shape.Nodes() - old(trie.shape.Nodes()))
      ensures Explains(trie.shape, added + [address])
      ensures Inserted(trie.shape, old(trie.shape), k, old(Hit(trie.shape, k))) && trie.shape.Consistent(36)
    {
      hide KeyOf, Inserted, Explains;
      assert trie.Finds(k) <==> Hit(trie.shape, k);
      trie.Insert(k);
      HoldsSomeKey(old(trie.shape), trie.shape, k);
      InsertionExplained(old(trie.shape), added, trie.shape, address);
    }
  }
}
