/** The grammar of a blacklist feed: one address, network or range to a line. */
module SpamdParser {
  import opened Wrappers
  import opened Words
  import opened Lexer
  import opened Numerals
  import opened SpamdLexer
  import B = Blacklist

  const IPV4_QUADS := 4

  /** `start` and `end` are the bytes read so far; `ranges` are those given to the blacklist. */
  datatype Parser = Parser(rest: string, curr: Token, start: seq<Byte>, end: seq<Byte>, kind: B.Kind,
      ranges: seq<B.Range>)

  datatype Out = Out(ok: bool, p: Parser)

  /** Four bytes as a number. */
  function Joined(quads: seq<Byte>): (n: nat)
    requires |quads| == IPV4_QUADS
    ensures n < U32
  {
    AddressOf(Octets(quads[0], quads[1], quads[2], quads[3]))
  }

  // ---------------------------------------------------------------- tokens

  function Left(p: Parser): nat {
    |p.rest| + if p.curr == Eof then 0 else 1
  }

  predicate IsParser(p: Parser) {
    |p.start| == |p.end| == IPV4_QUADS && IsToken(p.curr) && forall r :: r in p.ranges ==> r.start < U32 && r.end < U32
  }

  function Advance(p: Parser): (q: Parser)
    ensures Left(q) <= |p.rest|
    ensures IsParser(p) ==> IsParser(q)
  {
    var r := NextTok(p.rest);
    p.(rest := r.rest, curr := r.token)
  }

  function SkipEols(p: Parser): (q: Parser)
    ensures Left(q) <= |p.rest|
    ensures IsParser(p) ==> IsParser(q)
    decreases |p.rest|
  {
    var q := Advance(p);
    if q.curr == Eol then SkipEols(q) else q
  }

  function Accept(p: Parser, t: Token): (o: Out)
    ensures Left(o.p) <= Left(p)
    ensures o.ok ==> p.curr == t && (t != Eof ==> Left(o.p) < Left(p))
    ensures !o.ok ==> p.curr != t && o.p == p
    ensures IsParser(p) ==> IsParser(o.p)
  {
    if p.curr != t then Out(false, p) else Out(true, if t == Eol then SkipEols(p) else Advance(p))
  }

  // ---------------------------------------------------------------- grammar

  predicate IsInt(t: Token) {
    t.Int6? || t.Int8?
  }

  /** The bytes of an address from byte `i` on, into `start` or `end`. */
  function Address(p: Parser, first: bool, i: nat): (o: Out)
    requires IsParser(p) && i <= IPV4_QUADS
    ensures Left(o.p) <= Left(p) && IsParser(o.p) && o.p.ranges == p.ranges && o.p.kind == p.kind
    decreases IPV4_QUADS - i
  {
    if i == IPV4_QUADS then Out(true, p)
    else if !IsInt(p.curr) then Out(false, p)
    else
      var q := Advance(if first then p.(start := p.start[i := p.curr.i]) else p.(end := p.end[i := p.curr.i]));
      if i == IPV4_QUADS - 1 then Address(q, first, i + 1) else
      var dot := Accept(q, Dot);
      if dot.ok then Address(dot.p, first, i + 1) else dot
  }

  /** Adding one to the last address of a range wraps around at the end of the address space. */
  function AfterLast(last: nat): (n: nat)
    ensures n < U32
  {
    (last + 1) % U32
  }

  function Add(p: Parser, start: nat, end: nat): Parser {
    p.(ranges := p.ranges + [B.Range(start, end, p.kind)])
  }

  /** The last address of an entry that starts at `start`: given by a prefix length, by another address or by itself. */
  function LastOf(p: Parser, start: nat): (r: (Out, nat))
    requires IsParser(p)
    ensures Left(r.0.p) <= Left(p) && IsParser(r.0.p)
  {
    var slash := Accept(p, Slash);
    if slash.ok then
      if slash.p.curr.Int6? then (Out(true, Advance(slash.p)), (start + Pow2(32 - slash.p.curr.i) + U32 - 1) % U32)
      else (Out(false, slash.p), 0)
    else
    var dash := Accept(p, Dash);
    if dash.ok then
      var b := Address(dash.p, false, 0);
      (b, if b.ok then Joined(b.p.end) else 0)
    else (Out(true, p), start)
  }

  function Entry(p: Parser): (o: Out)
    requires IsParser(p)
    ensures Left(o.p) <= Left(p) && IsParser(o.p)
  {
    var a := Address(p, true, 0);
    if !a.ok then a else
    var start := Joined(a.p.start);
    var last := LastOf(a.p, start);
    if last.0.ok then Out(true, Add(last.0.p, start, AfterLast(last.1))) else last.0
  }

  function Entries(p: Parser): (o: Out)
    requires IsParser(p)
    ensures o.ok && IsParser(o.p)
    decreases Left(p)
  {
    var eol := Accept(p, Eol);
    if !eol.ok then Out(true, eol.p) else
    var e := Entry(eol.p);
    if e.ok then Entries(e.p) else Out(true, e.p)
  }

  function Start(p: Parser, kind: B.Kind): (o: Out)
    requires IsParser(p)
    ensures IsParser(o.p)
  {
    var q := Accept(Advance(p.(kind := kind)), Eol).p;
    var e := Entry(q);
    if e.ok then Accept(Entries(e.p).p, Eof) else Accept(e.p, Eof)
  }

  // ---------------------------------------------------------------- the parser in place

  class SpamdParser {
    const lexer: Lexer
    const blacklist: B.Blacklist
    var curr: Token
    var start: seq<Byte>
    var end: seq<Byte>
    var kind: B.Kind
    ghost var ranges: seq<B.Range>

    ghost predicate Valid()
      reads this, lexer, blacklist
    {
      && lexer.Valid() && IsParser(View()) && blacklist.entries == B.EntriesOf(ranges)
    }

    ghost function View(): Parser
      requires lexer.Valid()
      reads this, lexer
    {
      Parser(lexer.Rest(), curr, start, end, kind, ranges)
    }

    constructor (src: string, blacklist: B.Blacklist, ghost ranges: seq<B.Range>)
      requires B.ValidRanges(ranges) && blacklist.entries == B.EntriesOf(ranges)
      ensures Valid() && fresh(lexer) && this.blacklist == blacklist
      ensures View() == Parser(src, Eof, [0, 0, 0, 0], [0, 0, 0, 0], B.Black, ranges)
    {
      lexer := new Lexer(src);
      this.blacklist := blacklist;
      curr, start, end, kind := Eof, [0, 0, 0, 0], [0, 0, 0, 0], B.Black;
      this.ranges := ranges;
    }

    method Next()
      requires Valid()
      modifies this`curr, lexer
      ensures Valid() && View() == Advance(old(View()))
    {
      curr := NextToken(lexer);
    }

    method Take(t: Token) returns (ok: bool)
      requires Valid()
      modifies this`curr, lexer
      ensures Valid() && Out(ok, View()) == Accept(old(View()), t)
    {
      if curr != t {
        return false;
      }
      Next();
      if t == Eol {
        while curr == Eol
          invariant Valid() && ranges == old(ranges)
          invariant SkipEols(old(View())) == if curr == Eol then SkipEols(View()) else View()
          decreases Left(View())
        {
          Next();
        }
      }
      return true;
    }

    method ParseAddress(first: bool) returns (ok: bool)
      requires Valid()
      modifies this, lexer
      ensures Valid() && Out(ok, View()) == Address(old(View()), first, 0)
    {
      hide Accept, NextTok;
      var i := 0;
      while i < IPV4_QUADS && IsInt(curr)
        invariant 0 <= i <= IPV4_QUADS && Valid()
        invariant Address(old(View()), first, 0) == Address(View(), first, i)
        decreases IPV4_QUADS - i
      {
        if first {
          start := start[i := curr.i];
        } else {
          end := end[i := curr.i];
        }
        Next();
        if i < IPV4_QUADS - 1 {
          var dot := Take(Dot);
          if !dot {
            return false;
          }
        }
        i := i + 1;
      }
      return i == IPV4_QUADS;
    }

    method AddRange(s: nat, e: nat)
      requires Valid() && s < U32 && e < U32
      modifies this, blacklist
      ensures Valid() && View() == Add(old(View()), s, e)
    {
      blacklist.AddRange(s, e, kind);
      ranges := ranges + [B.Range(s, e, kind)];
      assert ranges[..|ranges| - 1] == old(ranges);
    }

    method ParseLast(s: nat) returns (ok: bool, last: nat)
      requires Valid()
      modifies this, lexer
      ensures Valid() && (Out(ok, View()), last) == LastOf(old(View()), s)
    {
      hide Address, Accept, Advance, Joined, Pow2;
      last := 0;
      var slash := Take(Slash);
      if slash {
        if !curr.Int6? {
          return false, 0;
        }
        last := (s + Pow2(32 - curr.i) + U32 - 1) % U32;
        Next();
        return true, last;
      }
      var dash := Take(Dash);
      if dash {
        ok := ParseAddress(false);
        if ok {
          last := Joined(end);
        }
        return;
      }
      return true, s;
    }

    method ParseEntry() returns (ok: bool)
      requires Valid()
      modifies this, lexer, blacklist
      ensures Valid() && Out(ok, View()) == Entry(old(View()))
    {
      hide Address, LastOf, Joined, AfterLast;
      ok := ParseAddress(true);
      if ok {
        var s := Joined(start);
        var e;
        ok, e := ParseLast(s);
        if ok {
          AddRange(s, AfterLast(e));
        }
      }
    }

    method ParseEntries() returns (ok: bool)
      requires Valid()
      modifies this, lexer, blacklist
      ensures Valid() && Out(ok, View()) == Entries(old(View()))
      decreases Left(View())
    {
      var eol := Take(Eol);
      if eol {
        var e := ParseEntry();
        if e {
          var _ := ParseEntries();
        }
      }
      return true;
    }

    method ParseStart(kind: B.Kind) returns (ok: bool)
      requires Valid()
      modifies this, lexer, blacklist
      ensures Valid() && Out(ok, View()) == Start(old(View()), kind)
    {
      this.kind := kind;
      Next();
      var _ := Take(Eol);
      ok := ParseEntry();
      if ok {
        ok := ParseEntries();
        ok := Take(Eof);
      }
      if !ok {
        ok := Take(Eof);
      }
    }
  }
}
