/** Network masks and the test whether an address lies in a network. */
module IpMatch {
  import opened Words
  import opened RangeToCidr
  import opened Wrappers

  datatype Family = Unspecified | Inet | Inet6

  /** The four 32-bit words of an address, most significant first. IPv4 uses word 0 only. */
  type Quad = q: seq<nat> | |q| == 4 && forall i :: 0 <= i < 4 ==> q[i] < U32 witness [0, 0, 0, 0]

  const ZERO: Quad := [0, 0, 0, 0]

  /** What scanning `address/maskbits` gives: `colon` tells the family, `parsed` is the address read for it. */
  datatype AddressText = Unscannable | Scanned(colon: bool, parsed: Option<Quad>, maskbits: nat)

  /** Bit `i` of an address, counted from its first bit. */
  predicate AddrBit(a: Quad, i: nat)
    requires i < 128
  {
    Bit(a[i / 32], 31 - i % 32)
  }

  /** The first `n` bits of both addresses agree. */
  predicate SamePrefix(a: Quad, b: Quad, n: nat) {
    forall i :: 0 <= i < n && i < 128 ==> AddrBit(a, i) == AddrBit(b, i)
  }

  predicate Acceptable(t: AddressText) {
    t.Scanned? && t.parsed.Some? && 0 < t.maskbits <= (if t.colon then 128 else 32)
  }

  /** How many leading ones word `j` of a mask of `bits` ones has. */
  function OnesInWord(bits: nat, j: nat): (k: nat)
    ensures k <= 32
  {
    if bits <= 32 * j then 0 else if bits - 32 * j >= 32 then 32 else bits - 32 * j
  }

  /** A mask of `bits` leading ones. */
  function MaskOf(bits: nat): Quad {
    [Imask(OnesInWord(bits, 0)), Imask(OnesInWord(bits, 1)), Imask(OnesInWord(bits, 2)), Imask(OnesInWord(bits, 3))]
  }

  function AndWords(a: Quad, m: Quad): Quad {
    AndBelow(a[0], m[0]); AndBelow(a[1], m[1]); AndBelow(a[2], m[2]); AndBelow(a[3], m[3]);
    [BitAnd(a[0], m[0]), BitAnd(a[1], m[1]), BitAnd(a[2], m[2]), BitAnd(a[3], m[3])]
  }

  datatype Network = Network(address: Quad, mask: Quad)

  /** The network a text stands for; a text that is not acceptable stands for the network of all addresses. */
  function NetworkOf(t: AddressText): Network {
    if Acceptable(t) then Network(AndWords(t.parsed.value, MaskOf(t.maskbits)), MaskOf(t.maskbits))
    else Network(ZERO, ZERO)
  }

  function FamilyOfText(t: AddressText): Family {
    if t.Scanned? && 0 < t.maskbits <= 128 then (if t.colon then Inet6 else Inet) else Unspecified
  }

  lemma ImaskValue(k: nat)
    requires k <= 32
    ensures Pow2(32 - k) <= U32 && Imask(k) == U32 - Pow2(32 - k)
  {
    Pow2Of32();
    hide Pow2;
    var p := Pow2(32 - k);
    Pow2Monotone(32 - k, 32);
    assert 0xffff_ffff * p == U32 * (p - 1) + (U32 - p);
  }

  /** Network and mask of an address with a prefix length. A text that is not acceptable leaves both zero. */
  method IpStrToAddrMask(t: AddressText) returns (ret: int, n: Quad, m: Quad, af: Family)
    ensures ret == if Acceptable(t) then 0 else -1
    ensures Network(n, m) == NetworkOf(t) && af == FamilyOfText(t)
  {
    n, m, af := ZERO, ZERO, Unspecified;
    if t.Unscannable? || t.maskbits == 0 || t.maskbits > 128 {
      return -1, n, m, af;
    }
    af := if t.colon then Inet6 else Inet;
    if af == Inet && t.maskbits > 32 {
      return -1, n, m, af;
    }
    if t.parsed.None? {
      return -1, n, m, af;
    }
    n := t.parsed.value;
    m := MaskWords(t.maskbits);
    var i := 0;
    while i < 4
      invariant 0 <= i <= 4
      invariant forall k :: 0 <= k < i ==> n[k] == BitAnd(t.parsed.value[k], m[k])
      invariant forall k :: i <= k < 4 ==> n[k] == t.parsed.value[k]
    {
      AndBelow(n[i], m[i]);
      n := n[i := BitAnd(n[i], m[i])];
      i := i + 1;
    }
    assert n == AndWords(t.parsed.value, m);
    ret := 0;
  }

  lemma AndBelow(a: nat, b: nat)
    ensures BitAnd(a, b) <= a
  {
  }

  lemma FullMasks()
    ensures Imask(0) == 0 && Imask(32) == 0xffff_ffff
  {
    ImaskValue(32);
    assert Pow2(0) == 1;
  }

  lemma NextOne(i: nat)
    requires i < 32
    ensures BitOr(Imask(31 - i), Pow2(i)) == Imask(32 - i) < U32
  {
    hide Imask, Pow2, BitOr;
    ImaskValue(31 - i);
    ImaskValue(32 - i);
    Pow2Of32();
    OrExtendsHighOnes(i, 32);
  }

  /** Fills whole words while 32 ones remain, then sets the rest bit by bit from the top. */
  method MaskWords(bits: nat) returns (m: Quad)
    requires bits <= 128
    ensures m == MaskOf(bits)
  {
    hide Imask, Pow2, BitOr;
    FullMasks();
    m := ZERO;
    var maskbits, j := bits, 0;
    while maskbits >= 32
      invariant 0 <= j <= 4 && bits == maskbits + 32 * j
      invariant forall k :: 0 <= k < j ==> m[k] == 0xffff_ffff
      invariant forall k :: j <= k < 4 ==> m[k] == 0
    {
      m := m[j := 0xffff_ffff];
      j, maskbits := j + 1, maskbits - 32;
    }
    ghost var whole := m;
    var i := 31;
    while i > 31 - maskbits
      invariant 31 - maskbits <= i <= 31
      invariant m == if j < 4 then whole[j := Imask(31 - i)] else whole
    {
      NextOne(i);
      m := m[j := BitOr(m[j], Pow2(i))];
      i := i - 1;
    }
  }

  /** The test of one address against one network. */
  function IpMatchAddr(a: Quad, m: Quad, b: Quad, af: Family): bool {
    match af
    case Inet => a[0] == BitAnd(b[0], m[0])
    case Inet6 =>
      && a[0] == BitAnd(b[0], m[0])
      && a[1] == BitAnd(b[1], m[1])
      && a[2] == BitAnd(b[2], m[2])
      && a[3] == BitAnd(b[3], m[3])
    case Unspecified => false
  }

  lemma WordsAgree(a: nat, b: nat, k: nat)
    requires a < U32 && b < U32 && k <= 32
    ensures BitAnd(a, Imask(k)) == BitAnd(b, Imask(k)) <==> BitsAgree(a, b, 32 - k, 32)
  {
    Pow2Of32();
    ImaskClearsHostBits(a, k);
    ImaskClearsHostBits(b, k);
    FloorEqualIffBitsAgree(a, b, 32 - k, 32);
  }

  lemma PrefixByWords(a: Quad, b: Quad, n: nat, w: nat)
    requires n <= 32 * w && w <= 4
    ensures SamePrefix(a, b, n) <==> forall j :: 0 <= j < w ==> BitsAgree(a[j], b[j], 32 - OnesInWord(n, j), 32)
  {
    if SamePrefix(a, b, n) {
      forall j | 0 <= j < w ensures BitsAgree(a[j], b[j], 32 - OnesInWord(n, j), 32) {
        forall i | 32 - OnesInWord(n, j) <= i < 32 ensures Bit(a[j], i) == Bit(b[j], i) {
          var p := 32 * j + (31 - i);
          assert p / 32 == j && p % 32 == 31 - i && p < n;
          assert AddrBit(a, p) == AddrBit(b, p);
        }
      }
    } else {
      var p :| 0 <= p < n && p < 128 && AddrBit(a, p) != AddrBit(b, p);
      var j, i := p / 32, 31 - p % 32;
      assert p == 32 * j + (31 - i);
      assert 32 - OnesInWord(n, j) <= i < 32 && j < w;
      assert !BitsAgree(a[j], b[j], 32 - OnesInWord(n, j), 32);
    }
  }

  function Width(af: Family): nat {
    if af == Inet then 32 else 128
  }

  /** An address matches a network exactly when it shares the network's first bits, as many as the prefix length
      and the width of the address allow. */
  lemma MatchIsPrefixAgreement(net: Quad, bits: nat, b: Quad, af: Family)
    requires af != Unspecified && bits <= 128
    ensures IpMatchAddr(AndWords(net, MaskOf(bits)), MaskOf(bits), b, af) <==>
            SamePrefix(net, b, if bits <= Width(af) then bits else Width(af))
  {
    var w := if af == Inet then 1 else 4;
    var k := if bits <= Width(af) then bits else Width(af);
    PrefixByWords(net, b, k, w);
    var n, m := AndWords(net, MaskOf(bits)), MaskOf(bits);
    forall j | 0 <= j < w
      ensures n[j] == BitAnd(b[j], m[j]) <==> BitsAgree(net[j], b[j], 32 - OnesInWord(k, j), 32)
    {
      assert OnesInWord(k, j) == OnesInWord(bits, j);
      WordsAgree(net[j], b[j], OnesInWord(bits, j));
    }
  }
}
