/** A feed written with any blanks, comments and blank lines is read as the ranges of its entries. */
module SpamdFeed {
  import opened Wrappers
  import opened Words
  import opened Cidr
  import opened Lexer
  import opened Numerals
  import opened SpamdLexer
  import opened SpamdParser
  import B = Blacklist

  // ---------------------------------------------------------------- entries

  datatype Item = Single(a: Octets) | Net(n: Octets, bits: nat) | Span(from: Octets, to: Octets)

  predicate IsItem(item: Item) {
    item.Net? ==> item.bits <= MAX_INT6
  }

  function AddressTokens(ip: Octets): seq<Token> {
    [IntToken(ip.a), Dot, IntToken(ip.b), Dot, IntToken(ip.c), Dot, IntToken(ip.d)]
  }

  function ItemTokens(item: Item): seq<Token> {
    match item
    case Single(a) => AddressTokens(a)
    case Net(n, bits) => AddressTokens(n) + [Slash, IntToken(bits)]
    case Span(from, to) => AddressTokens(from) + [Dash] + AddressTokens(to)
  }

  /** The first and the last address an entry stands for, as the parser computes the last. */
  function FirstOf(item: Item): nat {
    match item case Single(a) => AddressOf(a) case Net(n, _) => AddressOf(n) case Span(from, _) => AddressOf(from)
  }

  function FinalOf(item: Item): nat
    requires IsItem(item)
  {
    match item
    case Single(a) => AddressOf(a)
    case Net(n, bits) => (AddressOf(n) + Pow2(32 - bits) + U32 - 1) % U32
    case Span(_, to) => AddressOf(to)
  }

  function RangeOf(item: Item, kind: B.Kind): B.Range
    requires IsItem(item)
  {
    B.Range(FirstOf(item), AfterLast(FinalOf(item)), kind)
  }

  function RangesOf(items: seq<Item>, kind: B.Kind): seq<B.Range>
    requires forall i :: 0 <= i < |items| ==> IsItem(items[i])
  {
    if items == [] then [] else [RangeOf(items[0], kind)] + RangesOf(items[1..], kind)
  }

  // ---------------------------------------------------------------- spelling

  predicate IsGap(g: string) {
    forall i :: 0 <= i < |g| ==> Skipped(g[i])
  }

  /** A line: a gap before every token of its entry and one at the end, then perhaps a comment. */
  datatype Row = Row(item: Option<Item>, gaps: seq<string>, comment: Option<string>)

  function RowTokens(row: Row): seq<Token> {
    if row.item.Some? then ItemTokens(row.item.value) else []
  }

  predicate IsRow(row: Row) {
    && (row.item.Some? ==> IsItem(row.item.value))
    && |row.gaps| == |RowTokens(row)| + 1 && (forall i :: 0 <= i < |row.gaps| ==> IsGap(row.gaps[i]))
    && (row.comment.Some? ==> '\n' !in row.comment.value)
  }

  predicate Spellable(t: Token) {
    t != Eof && t != Eol && (IsInt(t) ==> 0 <= t.i <= MAX_INT8 && t == IntToken(t.i))
  }

  function Spell(t: Token): string
    requires Spellable(t)
  {
    match t
    case Int6(i) => Decimal(i)
    case Int8(i) => Decimal(i)
    case Dot => "."
    case Dash => "-"
    case _ => "/"
  }

  predicate AllSpellable(ts: seq<Token>) {
    forall i :: 0 <= i < |ts| ==> Spellable(ts[i])
  }

  predicate AreGaps(gaps: seq<string>) {
    forall i :: 0 <= i < |gaps| ==> IsGap(gaps[i])
  }

  function PrintTokens(ts: seq<Token>, gaps: seq<string>): string
    requires AllSpellable(ts) && |gaps| == |ts| + 1
  {
    if ts == [] then gaps[0] else gaps[0] + Spell(ts[0]) + PrintTokens(ts[1..], gaps[1..])
  }

  lemma ItemSpellable(item: Item)
    requires IsItem(item)
    ensures AllSpellable(ItemTokens(item))
  {
  }

  /** A row before its line end. */
  function PrintRow(row: Row): string
    requires IsRow(row)
  {
    if row.item.Some? then ItemSpellable(row.item.value); PrintTokens(RowTokens(row), row.gaps) + Comment(row.comment)
    else PrintTokens([], row.gaps) + Comment(row.comment)
  }

  function Comment(c: Option<string>): string {
    if c.Some? then "#" + c.value else ""
  }

  predicate AreRows(rows: seq<Row>) {
    forall i :: 0 <= i < |rows| ==> IsRow(rows[i])
  }

  /** Rows with a line end behind each, which the last may lack. */
  datatype Feed = Feed(rows: seq<Row>, closed: bool)

  function LineEnd(feed: Feed): string {
    if |feed.rows| == 1 && !feed.closed then "" else "\n"
  }

  function PrintFeed(feed: Feed): string
    requires AreRows(feed.rows)
    decreases feed.rows
  {
    if feed.rows == [] then ""
    else PrintRow(feed.rows[0]) + (LineEnd(feed) + PrintFeed(feed.(rows := feed.rows[1..])))
  }

  function Items(rows: seq<Row>): seq<Item> {
    if rows == [] then [] else (if rows[0].item.Some? then [rows[0].item.value] else []) + Items(rows[1..])
  }

  // ---------------------------------------------------------------- tokens

  lemma {:induction false} GapSkipped(g: string, t: string)
    requires IsGap(g)
    ensures NextTok(g + t) == NextTok(t)
    decreases g
  {
    if g == "" {
      assert g + t == t;
    } else {
      GapSkipped(g[1..], t);
      assert (g + t)[1..] == g[1..] + t;
    }
  }

  lemma RowEnds(c: Option<string>, t: string)
    requires (c.Some? ==> '\n' !in c.value) && AtEnd(t)
    ensures NextTok(Comment(c) + t) == if t == "" then Scan(Eof, "") else Scan(Eol, t[1..])
  {
    if c.Some? {
      var u := c.value + t;
      assert Comment(c) + t == "#" + u;
      assert ("#" + u)[1..] == u;
      CommentSkipped(c.value, t);
    } else {
      assert Comment(c) + t == t;
    }
  }

  lemma {:induction false} NumberScans(n: nat, t: string)
    requires n <= MAX_INT8
    ensures ScanInt(Decimal(n) + t, 0) == ScanInt(t, n)
  {
    if n < 10 {
      assert (Decimal(n) + t)[1..] == t;
    } else {
      var last := [DigitChar(n % 10)];
      NumberScans(n / 10, last + t);
      assert Decimal(n) + t == Decimal(n / 10) + (last + t);
      assert (last + t)[1..] == t;
    }
  }

  lemma NumberToken(n: nat, t: string)
    requires n <= MAX_INT8 && (t == "" || !IsDigit(t[0]))
    ensures NextTok(Decimal(n) + t) == Scan(IntToken(n), t)
  {
    var u := Decimal(n) + t;
    NumberScans(n, t);
    DecimalDigits(n);
    assert ScanInt(u, 0) == ScanInt(u[1..], Digit(u[0]));
  }

  lemma SpelledToken(t: Token, u: string)
    requires Spellable(t) && (IsInt(t) ==> u == "" || !IsDigit(u[0]))
    ensures NextTok(Spell(t) + u) == Scan(t, u)
  {
    if IsInt(t) {
      NumberToken(t.i, u);
    } else {
      assert (Spell(t) + u)[1..] == u;
    }
  }

  /** No number is followed by a number. */
  ghost predicate Separated(ts: seq<Token>) {
    forall i, j :: 0 <= i < j < |ts| && j == i + 1 && IsInt(ts[i]) ==> !IsInt(ts[j])
  }

  /** What follows a number does not start with a digit. */
  lemma NoDigitFirst(ts: seq<Token>, gaps: seq<string>, t: string)
    requires AllSpellable(ts) && |gaps| == |ts| + 1 && AreGaps(gaps) && (ts != [] ==> !IsInt(ts[0]))
    requires t == "" || !IsDigit(t[0])
    ensures var u := PrintTokens(ts, gaps) + t; u == "" || !IsDigit(u[0])
  {
    assert IsGap(gaps[0]);
    if gaps[0] != "" {
      assert Skipped(gaps[0][0]);
    }
  }

  // ---------------------------------------------------------------- parsing tokens

  /** The parser at the start of `t`, its first token read. */
  function Reader(p: Parser, t: string): Parser {
    p.(curr := NextTok(t).token, rest := NextTok(t).rest)
  }

  /** The parser reads the tokens `ts`, the first of them as its current one, and then stands at the start of `t`. */
  predicate Faces(p: Parser, ts: seq<Token>, t: string)
    decreases ts
  {
    if ts == [] then p == Reader(p, t) else p.curr == ts[0] && Faces(Advance(p), ts[1..], t)
  }

  lemma {:induction false} PrintedFaces(ts: seq<Token>, gaps: seq<string>, t: string, p: Parser)
    requires AllSpellable(ts) && Separated(ts) && |gaps| == |ts| + 1 && AreGaps(gaps)
    requires (t == "" || !IsDigit(t[0])) && p == Reader(p, PrintTokens(ts, gaps) + t)
    ensures Faces(p, ts, t)
    decreases ts
  {
    hide NextTok, Spell;
    assert IsGap(gaps[0]);
    if ts == [] {
      GapSkipped(gaps[0], t);
    } else {
      var u := PrintTokens(ts[1..], gaps[1..]) + t;
      assert PrintTokens(ts, gaps) + t == gaps[0] + (Spell(ts[0]) + u);
      GapSkipped(gaps[0], Spell(ts[0]) + u);
      if IsInt(ts[0]) {
        NoDigitFirst(ts[1..], gaps[1..], t);
      }
      SpelledToken(ts[0], u);
      PrintedFaces(ts[1..], gaps[1..], t, Advance(p));
    }
  }

  function Quads(ip: Octets): seq<Byte> {
    [ip.a, ip.b, ip.c, ip.d]
  }

  lemma {:induction false} FacesOnlyText(p: Parser, q: Parser, ts: seq<Token>, t: string)
    requires Faces(p, ts, t) && q.curr == p.curr && q.rest == p.rest
    ensures Faces(q, ts, t)
    decreases ts
  {
    if ts != [] {
      FacesOnlyText(Advance(p), Advance(q), ts[1..], t);
    }
  }

  /** The parser with a byte read. */
  function WithByte(p: Parser, first: bool, i: nat, b: Byte): Parser
    requires IsParser(p) && i < IPV4_QUADS
  {
    if first then p.(start := p.start[i := b]) else p.(end := p.end[i := b])
  }

  /** And the dot after it, which the last byte does not have. */
  function AfterByte(p: Parser, first: bool, i: nat, b: Byte): Parser
    requires IsParser(p) && i < IPV4_QUADS
  {
    var q := Advance(WithByte(p, first, i, b));
    if i < IPV4_QUADS - 1 then Advance(q) else q
  }

  function DotAfter(i: nat): seq<Token> {
    if i < IPV4_QUADS - 1 then [Dot] else []
  }

  lemma ByteReads(p: Parser, first: bool, i: nat, b: Byte, more: seq<Token>, t: string)
    requires IsParser(p) && i < IPV4_QUADS && Faces(p, [IntToken(b)] + DotAfter(i) + more, t)
    ensures var q := AfterByte(p, first, i, b);
            && IsParser(q) && Faces(q, more, t) && Address(p, first, i) == Address(q, first, i + 1)
            && q == WithByte(p, first, i, b).(curr := q.curr, rest := q.rest)
  {
    hide NextTok;
    var ts := [IntToken(b)] + DotAfter(i) + more;
    var q := Advance(WithByte(p, first, i, b));
    FacesOnlyText(Advance(p), q, ts[1..], t);
    if i == IPV4_QUADS - 1 {
      assert ts[1..] == more;
    } else {
      assert ts[1..][1..] == more;
    }
  }

  /** What an address and `more` leave to read from byte `i` on. */
  function FromByte(ip: Octets, i: nat, more: seq<Token>): seq<Token>
    requires i <= IPV4_QUADS
    decreases IPV4_QUADS - i
  {
    if i == IPV4_QUADS then more else [IntToken(Quads(ip)[i])] + DotAfter(i) + FromByte(ip, i + 1, more)
  }

  /** Reading the bytes from `i` on. */
  lemma {:induction false} BytesRead(p: Parser, first: bool, i: nat, ip: Octets, more: seq<Token>, t: string)
    requires IsParser(p) && i <= IPV4_QUADS && Faces(p, FromByte(ip, i, more), t)
    requires forall k :: 0 <= k < i ==> (if first then p.start[k] else p.end[k]) == Quads(ip)[k]
    ensures var o := Address(p, first, i);
            && o.ok && Faces(o.p, more, t)
            && o.p == (if first then p.(start := Quads(ip)) else p.(end := Quads(ip)))
                      .(curr := o.p.curr, rest := o.p.rest)
    decreases IPV4_QUADS - i
  {
    hide NextTok, Faces, AfterByte;
    if i < IPV4_QUADS {
      var b := Quads(ip)[i];
      ByteReads(p, first, i, b, FromByte(ip, i + 1, more), t);
      hide Address, IntToken;
      var q := AfterByte(p, first, i, b);
      BytesRead(q, first, i + 1, ip, more, t);
    } else {
      assert (if first then p.start else p.end) == Quads(ip);
    }
  }

  lemma AddressReads(p: Parser, first: bool, ip: Octets, more: seq<Token>, t: string)
    requires IsParser(p) && Faces(p, AddressTokens(ip) + more, t)
    ensures var o := Address(p, first, 0);
            && o.ok && Faces(o.p, more, t)
            && o.p == (if first then p.(start := Quads(ip)) else p.(end := Quads(ip)))
                      .(curr := o.p.curr, rest := o.p.rest)
  {
    hide Faces, Address;
    FromFirstByte(ip, more);
    BytesRead(p, first, 0, ip, more, t);
  }

  lemma FromFirstByte(ip: Octets, more: seq<Token>)
    ensures FromByte(ip, 0, more) == AddressTokens(ip) + more
  {
    hide IntToken;
    assert FromByte(ip, 3, more) == [IntToken(ip.d)] + more;
    assert FromByte(ip, 2, more) == [IntToken(ip.c), Dot, IntToken(ip.d)] + more;
    assert FromByte(ip, 1, more) == [IntToken(ip.b), Dot, IntToken(ip.c), Dot, IntToken(ip.d)] + more;
  }

  lemma JoinedQuads(ip: Octets)
    ensures Joined(Quads(ip)) == AddressOf(ip)
  {
  }

  /** An entry adds its range, and leaves the parser at what follows it. */
  predicate Reads(p: Parser, item: Item, t: string)
    requires IsParser(p) && IsItem(item)
  {
    var o := Entry(p);
    o.ok && o.p == Reader(o.p, t) && o.p.kind == p.kind && o.p.ranges == p.ranges + [RangeOf(item, p.kind)]
  }

  lemma SingleReads(p: Parser, a: Octets, t: string)
    requires IsParser(p) && Faces(p, AddressTokens(a), t) && NextTok(t).token in {Eol, Eof}
    ensures Reads(p, Single(a), t)
  {
    hide NextTok, Address, AddressTokens, Joined, AddressOf, AfterLast;
    assert AddressTokens(a) + [] == AddressTokens(a);
    AddressReads(p, true, a, [], t);
    JoinedQuads(a);
  }

  lemma NetReads(p: Parser, n: Octets, bits: nat, t: string)
    requires IsParser(p) && bits <= MAX_INT6 && Faces(p, AddressTokens(n) + [Slash, IntToken(bits)], t)
    ensures Reads(p, Net(n, bits), t)
  {
    hide NextTok, Address, AddressTokens, Joined, AddressOf, AfterLast, Pow2;
    AddressReads(p, true, n, [Slash, IntToken(bits)], t);
    JoinedQuads(n);
    var q := Address(p, true, 0).p;
    assert [Slash, IntToken(bits)][1..] == [IntToken(bits)] && [IntToken(bits)][1..] == [];
    assert Faces(Advance(q), [IntToken(bits)], t);
    assert Faces(Advance(Advance(q)), [], t);
    assert Advance(q).curr == Int6(bits);
  }

  lemma SpanReads(p: Parser, from: Octets, to: Octets, t: string)
    requires IsParser(p) && Faces(p, AddressTokens(from) + ([Dash] + AddressTokens(to)), t)
    ensures Reads(p, Span(from, to), t)
  {
    hide NextTok, Address, AddressTokens, Joined, AddressOf, AfterLast;
    AddressReads(p, true, from, [Dash] + AddressTokens(to), t);
    JoinedQuads(from);
    assert ([Dash] + AddressTokens(to))[1..] == AddressTokens(to) && AddressTokens(to) + [] == AddressTokens(to);
    AddressReads(Advance(Address(p, true, 0).p), false, to, [], t);
    JoinedQuads(to);
  }

  lemma EntryReads(p: Parser, item: Item, t: string)
    requires IsParser(p) && IsItem(item) && Faces(p, ItemTokens(item), t) && NextTok(t).token in {Eol, Eof}
    ensures Reads(p, item, t)
  {
    hide Reads, Faces, NextTok, AddressTokens;
    match item
    case Single(a) => SingleReads(p, a, t);
    case Net(n, bits) => NetReads(p, n, bits, t);
    case Span(from, to) =>
      assert AddressTokens(from) + [Dash] + AddressTokens(to) == AddressTokens(from) + ([Dash] + AddressTokens(to));
      SpanReads(p, from, to, t);
  }

  // ---------------------------------------------------------------- parsing rows

  lemma RowFaces(row: Row, t: string, p: Parser)
    requires IsRow(row) && AtEnd(t) && p == Reader(p, PrintRow(row) + t)
    ensures Faces(p, RowTokens(row), Comment(row.comment) + t)
  {
    hide NextTok, Spell;
    var ts := RowTokens(row);
    var u := Comment(row.comment) + t;
    if row.item.Some? {
      ItemSpellable(row.item.value);
    }
    ItemSeparated(row);
    assert PrintRow(row) + t == PrintTokens(ts, row.gaps) + u;
    PrintedFaces(ts, row.gaps, u, p);
  }

  lemma ItemSeparated(row: Row)
    ensures Separated(RowTokens(row))
  {
    hide IntToken;
  }

  /** The parser stands at the end of a row, where `t` begins. */
  predicate Ended(p: Parser, t: string)
    requires AtEnd(t)
  {
    if t == "" then p.curr == Eof && p.rest == "" else p.curr == Eol && p.rest == t[1..]
  }

  lemma BlankRow(row: Row, t: string, p: Parser)
    requires IsRow(row) && row.item.None? && AtEnd(t) && p == Reader(p, PrintRow(row) + t)
    ensures Ended(p, t)
  {
    hide NextTok;
    RowFaces(row, t, p);
    RowEnds(row.comment, t);
  }

  predicate AreItems(items: seq<Item>) {
    forall i :: 0 <= i < |items| ==> IsItem(items[i])
  }

  lemma {:induction false} RowItems(rows: seq<Row>)
    requires AreRows(rows)
    ensures AreItems(Items(rows))
  {
    if rows != [] {
      assert IsRow(rows[0]);
      RowItems(rows[1..]);
    }
  }

  lemma EntryRow(row: Row, t: string, p: Parser)
    requires IsRow(row) && row.item.Some? && AtEnd(t) && IsParser(p) && p == Reader(p, PrintRow(row) + t)
    ensures IsItem(row.item.value) && p.curr != Eol
    ensures var e := Entry(p);
            e.ok && Ended(e.p, t) && e.p.kind == p.kind && e.p.ranges == p.ranges + [RangeOf(row.item.value, p.kind)]
  {
    hide NextTok, Entry, RangeOf;
    RowFaces(row, t, p);
    RowEnds(row.comment, t);
    EntryReads(p, row.item.value, Comment(row.comment) + t);
  }

  /** A row without a line end behind it. */
  lemma LastRowRead(row: Row, p: Parser)
    requires IsRow(row) && IsParser(p) && p.curr == Eol && p.rest == PrintRow(row)
    ensures AreItems(Items([row]))
    ensures var q := Entries(p).p;
            q.curr == Eof && q.kind == p.kind && q.ranges == p.ranges + RangesOf(Items([row]), p.kind)
  {
    hide NextTok, Entry, Entries, RangeOf, PrintRow;
    var q := Advance(p);
    assert PrintRow(row) + "" == PrintRow(row);
    if row.item.None? {
      BlankRow(row, "", q);
      NoMoreRows(p);
      assert p.ranges + [] == p.ranges;
    } else {
      EntryRow(row, "", q);
      EntryPassed(p);
      FeedEnds(Entry(q).p);
    }
  }

  /** At the end of a line: all entries of the other lines are read. */
  lemma {:induction false} RowsRead(feed: Feed, p: Parser)
    requires AreRows(feed.rows) && IsParser(p) && p.curr == Eol && p.rest == PrintFeed(feed)
    ensures AreItems(Items(feed.rows))
    ensures var q := Entries(p).p;
            q.curr == Eof && q.kind == p.kind && q.ranges == p.ranges + RangesOf(Items(feed.rows), p.kind)
    decreases feed.rows
  {
    var rows := feed.rows;
    RowItems(rows);
    if rows == [] {
      NoRows(p);
      assert p.ranges + [] == p.ranges;
    } else if LineEnd(feed) == "" {
      assert rows == [rows[0]];
      LastRowRead(rows[0], p);
    } else {
      hide NextTok, Entry, Entries, RangeOf, IsRow, PrintRow;
      assert IsRow(rows[0]);
      var others := feed.(rows := rows[1..]);
      var t := "\n" + PrintFeed(others);
      assert t[1..] == PrintFeed(others);
      var q := Advance(p);
      if rows[0].item.None? {
        BlankRow(rows[0], t, q);
        BlankPassed(p);
        RowsRead(others, q);
        assert [] + Items(rows[1..]) == Items(rows[1..]);
      } else {
        EntryRow(rows[0], t, q);
        EntryPassed(p);
        RowsRead(others, Entry(q).p);
        RangesNext(rows[0].item.value, Items(rows[1..]), p);
      }
    }
  }

  lemma FeedEnds(p: Parser)
    requires IsParser(p) && p.curr == Eof
    ensures Entries(p).p == p
  {
  }

  lemma NoMoreRows(p: Parser)
    requires IsParser(p) && p.curr == Eol && Advance(p).curr == Eof
    ensures Entries(p).p == Advance(p)
  {
    hide NextTok;
  }

  lemma NoRows(p: Parser)
    requires IsParser(p) && p.curr == Eol && p.rest == ""
    ensures Entries(p).p == p.(curr := Eof)
  {
  }

  lemma BlankPassed(p: Parser)
    requires IsParser(p) && p.curr == Eol && Advance(p).curr == Eol
    ensures Entries(p) == Entries(Advance(p))
  {
    hide NextTok, Entry;
  }

  lemma EntryPassed(p: Parser)
    requires IsParser(p) && p.curr == Eol && Advance(p).curr != Eol && Entry(Advance(p)).ok
    ensures Entries(p) == Entries(Entry(Advance(p)).p)
  {
    hide NextTok, Entry;
  }

  lemma RangesNext(item: Item, items: seq<Item>, p: Parser)
    requires IsItem(item) && AreItems(items)
    ensures p.ranges + [RangeOf(item, p.kind)] + RangesOf(items, p.kind) == p.ranges + RangesOf([item] + items, p.kind)
  {
    hide RangeOf, IsItem;
    assert ([item] + items)[1..] == items;
  }

  lemma StartIsEntries(p: Parser, kind: B.Kind)
    requires IsParser(p)
    ensures Start(p, kind) == Accept(Entries(p.(kind := kind, curr := Eol)).p, Eof)
  {
    hide NextTok, Entry;
  }

  /** The parser accepts every feed and adds exactly the ranges of its entries, in order. */
  lemma FeedReads(feed: Feed, p: Parser, kind: B.Kind)
    requires AreRows(feed.rows) && IsParser(p) && p.rest == PrintFeed(feed)
    ensures AreItems(Items(feed.rows))
    ensures Start(p, kind).ok && Start(p, kind).p.ranges == p.ranges + RangesOf(Items(feed.rows), kind)
  {
    hide Entries, PrintFeed, Start;
    StartIsEntries(p, kind);
    RowsRead(feed, p.(kind := kind, curr := Eol));
  }

  // ---------------------------------------------------------------- what the ranges cover

  /** The addresses an entry means. */
  predicate Means(item: Item, x: int)
    requires IsItem(item)
  {
    match item
    case Single(a) => x == AddressOf(a)
    case Net(n, bits) => AddressOf(n) <= x < AddressOf(n) + Pow2(32 - bits)
    case Span(from, to) => AddressOf(from) <= x <= AddressOf(to)
  }

  lemma NetSize(bits: nat)
    requires 1 <= bits <= 32
    ensures 0 < 2 * Pow2(32 - bits) <= U32
  {
    var e := 33 - bits;
    Pow2Monotone(e, 32);
    Pow2Of32();
    assert Pow2(e) == 2 * Pow2(e - 1);
  }

  /** One past the last address that an entry means. */
  function PastOf(item: Item): nat
    requires IsItem(item)
  {
    match item
    case Single(a) => AddressOf(a) + 1
    case Net(n, bits) => AddressOf(n) + Pow2(32 - bits)
    case Span(_, to) => AddressOf(to) + 1
  }

  lemma LastThenNext(s: nat)
    requires 0 < s < 2 * U32
    ensures AfterLast((s + U32 - 1) % U32) == if s < U32 then s else s - U32
  {
  }

  lemma NextAfter(last: nat)
    requires last < U32
    ensures AfterLast(last) == if last + 1 < U32 then last + 1 else last + 1 - U32
  {
  }

  lemma RangeEnds(item: Item, kind: B.Kind)
    requires IsItem(item) && FirstOf(item) < PastOf(item) && (item.Net? ==> item.bits >= 1)
    ensures FirstOf(item) < U32 && PastOf(item) <= FirstOf(item) + U32
    ensures RangeOf(item, kind).start == FirstOf(item)
    ensures RangeOf(item, kind).end == if PastOf(item) < U32 then PastOf(item) else PastOf(item) - U32
  {
    hide Pow2, AddressOf, AfterLast;
    match item
    case Single(a) => NextAfter(AddressOf(a));
    case Net(n, bits) =>
      NetSize(bits);
      LastThenNext(AddressOf(n) + Pow2(32 - bits));
    case Span(from, to) => NextAfter(AddressOf(to));
  }

  predicate Within(r: B.Range, x: int) {
    r.start <= x < r.end
  }

  /** The half-open range of an entry that means any address covers exactly those, if and only if the last address of
      all is not among them; otherwise its end wraps around and it covers none. */
  lemma RangeIsExactIff(item: Item, kind: B.Kind)
    requires IsItem(item) && FirstOf(item) < PastOf(item) && (item.Net? ==> item.bits >= 1)
    ensures (forall x :: Within(RangeOf(item, kind), x) <==> Means(item, x)) <==> PastOf(item) < U32
  {
    hide RangeOf, Pow2, AddressOf;
    RangeEnds(item, kind);
    assert Means(item, FirstOf(item));
    assert PastOf(item) >= U32 ==> !Within(RangeOf(item, kind), FirstOf(item));
  }

  // ---------------------------------------------------------------- from text to blocks

  lemma {:induction false} BoundaryKept(rs: seq<B.Range>, i: nat)
    requires B.ValidRanges(rs) && i < |rs| && rs[i].start <= rs[i].end
    ensures exists e :: e in B.EntriesOf(rs) && e.addr == rs[i].end
  {
    var n := |rs| - 1;
    var last := B.Boundaries(rs[n]);
    if i == n {
      assert last[1] in B.EntriesOf(rs);
    } else {
      BoundaryKept(rs[..n], i);
      var e :| e in B.EntriesOf(rs[..n]) && e.addr == rs[i].end;
      assert e in B.EntriesOf(rs);
    }
  }

  /** Reads one feed into a blacklist that holds some ranges already. */
  method ReadFeed(text: string, kind: B.Kind, blacklist: B.Blacklist, ghost feed: Feed, ghost rs: seq<B.Range>)
      returns (ok: bool)
    requires AreRows(feed.rows) && AreItems(Items(feed.rows)) && text == PrintFeed(feed)
    requires B.ValidRanges(rs) && blacklist.entries == B.EntriesOf(rs)
    modifies blacklist
    ensures ok && B.ValidRanges(rs + RangesOf(Items(feed.rows), kind))
    ensures blacklist.entries == B.EntriesOf(rs + RangesOf(Items(feed.rows), kind))
  {
    hide Start, PrintFeed, RangesOf;
    var parser := new SpamdParser(text, blacklist, rs);
    FeedReads(feed, parser.View(), kind);
    ok := parser.ParseStart(kind);
  }

  /** A black and a white feed, and the blocks of the addresses that the one lists and the other does not. */
  method Load(black: string, white: string, ghost blacks: Feed, ghost whites: Feed) returns (cidrs: Option<seq<Block>>)
    requires AreRows(blacks.rows) && black == PrintFeed(blacks) && AreItems(Items(blacks.rows))
    requires AreRows(whites.rows) && white == PrintFeed(whites) && AreItems(Items(whites.rows))
    requires exists r :: r in RangesOf(Items(blacks.rows), B.Black) && r.start <= r.end && r.end > 0
    ensures cidrs.Some?
    ensures Canonical(cidrs.value, B.BlackMinusWhite(RangesOf(Items(blacks.rows), B.Black)
                                                     + RangesOf(Items(whites.rows), B.White)))
  {
    hide PrintFeed, RangesOf;
    ghost var bs, ws := RangesOf(Items(blacks.rows), B.Black), RangesOf(Items(whites.rows), B.White);
    var blacklist := new B.Blacklist();
    var ok := ReadFeed(black, B.Black, blacklist, blacks, []);
    assert [] + bs == bs;
    ok := ReadFeed(white, B.White, blacklist, whites, bs);
    ghost var rs := bs + ws;
    ghost var r :| r in bs && r.start <= r.end && r.end > 0;
    ghost var i :| 0 <= i < |bs| && bs[i] == r;
    assert rs[i] == r;
    BoundaryKept(rs, i);
    cidrs := blacklist.Collapse(rs);
  }
}
