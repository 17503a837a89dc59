/** Networks in list storage: added as text, matched one after the other. */
module AddressList {
  import opened Words
  import opened Wrappers
  import opened Cidr
  import opened RangeToCidr
  import opened IpMatch
  import opened Blacklist

  /** What one added text matches. A text that cannot be read stays in the list and matches every address;
      the family of the text plays no part. */
  ghost predicate TextMatches(t: AddressText, b: Quad, af: Family) {
    Acceptable(t) ==>
      SamePrefix(t.parsed.value, b, if t.maskbits <= Width(af) then t.maskbits else Width(af))
  }

  lemma EntryMatches(t: AddressText, b: Quad, af: Family)
    requires af != Unspecified
    ensures IpMatchAddr(NetworkOf(t).address, NetworkOf(t).mask, b, af) <==> TextMatches(t, b, af)
  {
    if Acceptable(t) {
      MatchIsPrefixAgreement(t.parsed.value, t.maskbits, b, af);
    } else {
      AndZero(b[0]);
      AndZero(b[1]);
      AndZero(b[2]);
      AndZero(b[3]);
    }
  }

  class AddressList {
    var entries: seq<Network>
    ghost var added: seq<AddressText>

    ghost predicate Valid()
      reads this
    {
      |entries| == |added| && forall i :: 0 <= i < |added| ==> entries[i] == NetworkOf(added[i])
    }

    constructor ()
      ensures Valid() && added == []
    {
      entries, added := [], [];
    }

    method Add(address: AddressText) returns (ret: int)
      requires Valid()
      modifies this
      ensures Valid() && added == old(added) + [address]
      ensures ret == if Acceptable(address) then 0 else -1
    {
      var n, m, af;
      ret, n, m, af := IpStrToAddrMask(address);
      entries := entries + [Network(n, m)];
      added := added + [address];
    }

    method Match(source: Quad, af: Family) returns (r: bool)
      requires Valid() && af != Unspecified
      ensures r <==> exists t :: t in added && TextMatches(t, source, af)
    {
      var i := 0;
      while i < |entries|
        invariant 0 <= i <= |entries|
        invariant forall k :: 0 <= k < i ==> !TextMatches(added[k], source, af)
      {
        EntryMatches(added[i], source, af);
        if IpMatchAddr(entries[i].address, entries[i].mask, source, af) {
          assert added[i] in added;
          return true;
        }
        i := i + 1;
      }
      return false;
    }
  }

  /** The text of a CIDR block, read back: the dotted quad names the same address. */
  function CidrText(c: Block): AddressText
    requires c.addr < U32
  {
    Scanned(false, Some([c.addr, 0, 0, 0]), c.bits)
  }

  lemma BlockMatches(c: Block, b: Quad)
    requires IsBlock(c) && c.bits > 0
    ensures TextMatches(CidrText(c), b, Inet) <==> InBlock(c, b[0])
  {
    hide Pow2, Floor, BitAnd, Imask;
    Pow2Of32();
    var net: Quad := [c.addr, 0, 0, 0];
    PrefixByWords(net, b, c.bits, 1);
    FloorEqualIffBitsAgree(c.addr, b[0], 32 - c.bits, 32);
    InBlockIsFloor(c, b[0]);
    assert SamePrefix(net, b, c.bits) <==> BitsAgree(net[0], b[0], 32 - OnesInWord(c.bits, 0), 32);
  }

  /** A list to which the blocks of a collapsed blacklist were added matches exactly the addresses that are in a
      black range and in no white one. */
  lemma ReloadedMatchesExactly(rs: seq<Range>, cidrs: seq<Block>, texts: seq<AddressText>, b: Quad)
    requires ValidRanges(rs) && Canonical(cidrs, BlackMinusWhite(rs))
    requires |texts| == |cidrs| && forall i :: 0 <= i < |cidrs| ==>
             cidrs[i].addr < U32 && texts[i] == CidrText(cidrs[i])
    ensures (exists t :: t in texts && TextMatches(t, b, Inet)) <==> b[0] in BlackMinusWhite(rs)
  {
    forall i | 0 <= i < |cidrs|
      ensures Maximal(cidrs[i], BlackMinusWhite(rs))
      ensures TextMatches(texts[i], b, Inet) <==> InBlock(cidrs[i], b[0])
    {
      assert Maximal(cidrs[i], BlackMinusWhite(rs));
      NotWholeSpace(rs, cidrs[i]);
      BlockMatches(cidrs[i], b);
    }
    if b[0] in BlackMinusWhite(rs) {
      var c :| c in cidrs && InBlock(c, b[0]);
      var i :| 0 <= i < |cidrs| && cidrs[i] == c;
      assert texts[i] in texts;
    }
  }

  lemma NotWholeSpace(rs: seq<Range>, c: Block)
    requires ValidRanges(rs) && IsBlock(c) && Within(c, BlackMinusWhite(rs))
    ensures c.bits > 0
  {
    Pow2Of32();
    assert !InRange(rs, Black, c.addr + U32 - 1);
    assert InBlock(c, c.addr + U32 - 1) ==> c.addr + U32 - 1 in BlackMinusWhite(rs);
  }
}
