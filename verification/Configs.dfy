/** Whole configuration files: global assignments, includes and the three kinds of sections, with comments and blank
    lines between them, are read as what they say. */
module Configs {
  import opened Wrappers
  import opened Lexer
  import opened ConfigLexer
  import opened ConfigParser
  import opened ConfigPipe
  import opened ConfigSites
  import Hash

  // ---------------------------------------------------------------- what is written

  /** Blank lines and comments. */
  type Gap = seq<Option<string>>

  predicate IsGap(gap: Gap) {
    forall i :: 0 <= i < |gap| ==> gap[i].Some? ==> '\n' !in gap[i].value
  }

  function CommentLine(c: Option<string>): string {
    if c.Some? then "#" + c.value + "\n" else "\n"
  }

  function GapLines(gap: Gap): string {
    if gap == [] then "" else CommentLine(gap[0]) + GapLines(gap[1..])
  }

  /** The end of a line and the gap behind it. */
  function Break(gap: Gap): string {
    "\n" + GapLines(gap)
  }

  /** A line end between the parts of a list, or none. */
  type Lay = Option<Gap>

  predicate IsLay(lay: Lay) {
    lay.Some? ==> IsGap(lay.value)
  }

  function PrintLay(lay: Lay): string {
    if lay.Some? then Break(lay.value) else ""
  }

  predicate AreLays(lays: seq<Lay>) {
    forall i :: 0 <= i < |lays| ==> IsLay(lays[i])
  }

  /** An assignment; a list may go over several lines, with a line end before each item and before its bracket. */
  datatype Laid = Laid(line: Line, lays: seq<Lay>)

  predicate IsLaid(a: Laid) {
    && IsLine(a.line) && (a.line.value.Many? ==> |a.lays| == |a.line.value.vs| + 1)
    && AreLays(a.lays)
  }

  /** The other items of a list, up to its bracket. */
  function PrintRest(vs: seq<Value>, lays: seq<Lay>): string
    requires |lays| == |vs| + 1
    decreases |vs|
  {
    if vs == [] then PrintLay(lays[0]) + "]"
    else "," + (PrintLay(lays[0]) + (PrintItem(vs[0]) + PrintRest(vs[1..], lays[1..])))
  }

  function PrintLaidValue(v: Value, lays: seq<Lay>): string
    requires IsValue(v) && (v.Many? ==> |lays| == |v.vs| + 1)
  {
    if v.Many? then "[" + (PrintLay(lays[0]) + (PrintItem(v.vs[0]) + PrintRest(v.vs[1..], lays[1..]))) else PrintItem(v)
  }

  function PrintLaid(a: Laid): string
    requires IsLaid(a)
  {
    a.line.name + Sign(a.line.spaced) + PrintLaidValue(a.line.value, a.lays)
  }

  /** An assignment of a section, perhaps with a comma. */
  datatype Entry = Entry(laid: Laid, comma: bool, gap: Gap)

  datatype Item =
    | Global(laid: Laid)
    | Included(pattern: string)
    | Block(kind: Kind, name: string, gap: Gap, entries: seq<Entry>)

  /** An item and the gap behind it. */
  datatype Clause = Clause(item: Item, gap: Gap)

  predicate IsEntry(e: Entry) {
    IsLaid(e.laid) && IsGap(e.gap)
  }

  predicate AreEntries(es: seq<Entry>) {
    forall i :: 0 <= i < |es| ==> IsEntry(es[i])
  }

  predicate IsConfigItem(item: Item) {
    match item
    case Global(laid) => IsLaid(laid)
    case Included(pattern) => IsQuotable(pattern)
    case Block(_, name, gap, entries) => IsName(name) && IsGap(gap) && entries != [] && AreEntries(entries)
  }

  predicate IsFile(ss: seq<Clause>) {
    forall i :: 0 <= i < |ss| ==> IsConfigItem(ss[i].item) && IsGap(ss[i].gap)
  }

  function Keyword(kind: Kind): string {
    match kind case Plain => "section" case Black => "blacklist" case White => "whitelist"
  }

  function Comma(e: Entry): string {
    if e.comma then "," else ""
  }

  function PrintEntry(e: Entry): string
    requires IsEntry(e)
  {
    "\t" + PrintLaid(e.laid) + Comma(e) + Break(e.gap)
  }

  function PrintEntries(es: seq<Entry>): string
    requires AreEntries(es)
  {
    if es == [] then "" else PrintEntry(es[0]) + PrintEntries(es[1..])
  }

  function PrintConfigItem(item: Item): string
    requires IsConfigItem(item)
  {
    match item
    case Global(laid) => PrintLaid(laid)
    case Included(pattern) => "include \"" + pattern + "\""
    case Block(kind, name, gap, entries) => Keyword(kind) + " " + name + " {" + Break(gap) + PrintEntries(entries) + "}"
  }

  function PrintFile(ss: seq<Clause>): string
    requires IsFile(ss)
  {
    if ss == [] then "" else PrintConfigItem(ss[0].item) + Break(ss[0].gap) + PrintFile(ss[1..])
  }

  // ---------------------------------------------------------------- what it says

  function EntryLines(es: seq<Entry>): seq<Line> {
    if es == [] then [] else [es[0].laid.line] + EntryLines(es[1..])
  }

  /** A section of its kind, in place of one of the same kind and name. */
  function WithSection(c: Config, kind: Kind, name: string, vars: Vars): Config {
    match kind
    case Plain => c.(sections := c.sections[name := vars])
    case Black => c.(blacklists := c.blacklists[name := vars])
    case White => c.(whitelists := c.whitelists[name := vars])
  }

  function Globals(c: Config): Vars {
    if DEFAULT_SECTION in c.sections then c.sections[DEFAULT_SECTION] else map[]
  }

  /** What an item adds to a configuration. */
  function Says(c: Config, item: Item): Config {
    match item
    case Global(laid) =>
      WithSection(c, Plain, DEFAULT_SECTION, Globals(c)[laid.line.name := ValueAsRead(laid.line.value)])
    case Included(pattern) => c.(includes := c.includes + [Unescaped(pattern)])
    case Block(kind, name, _, entries) => WithSection(c, kind, name, Assigned(EntryLines(entries), map[]))
  }

  function AllSay(c: Config, ss: seq<Clause>): Config
    decreases |ss|
  {
    if ss == [] then c else AllSay(Says(c, ss[0].item), ss[1..])
  }

  // ---------------------------------------------------------------- tokens

  lemma BlankSkipped(c: string, t: string)
    requires c == " " || c == "\t"
    ensures NextTok(c + t) == NextTok(t)
  {
    assert (c + t)[1..] == t;
  }

  lemma CommentLineReads(c: Option<string>, t: string)
    requires c.Some? ==> '\n' !in c.value
    ensures NextTok(CommentLine(c) + t) == Scan(Eol, t)
  {
    CharTok("\n", t);
    if c.Some? {
      var u := c.value + ("\n" + t);
      assert CommentLine(c) + t == "#" + u && ("#" + u)[1..] == u;
      CommentSkipped(c.value, "\n" + t);
    }
  }

  /** Not at the end of a line. */
  predicate Begins(t: string) {
    NextTok(t).token != Eol
  }

  /** Ends of lines are skipped together with the gaps between them. */
  lemma {:induction false} GapReads(gap: Gap, t: string, p: Parser)
    requires IsGap(gap) && Begins(t) && p.curr == Eol && p.rest == GapLines(gap) + t
    ensures SkipEols(p) == Reader(p, t)
    decreases |gap|
  {
    hide NextTok;
    if gap == [] {
      assert GapLines(gap) + t == t;
    } else {
      var more := GapLines(gap[1..]) + t;
      assert GapLines(gap) + t == CommentLine(gap[0]) + more;
      CommentLineReads(gap[0], more);
      GapReads(gap[1..], t, Advance(p));
    }
  }

  /** At the end of a line, with a gap behind it. */
  lemma BreakReads(gap: Gap, t: string, p: Parser)
    requires IsGap(gap) && Begins(t) && p == Reader(p, Break(gap) + t)
    ensures Accept(p, Eol) == Out(true, Reader(p, t))
  {
    hide NextTok, SkipEols;
    assert Break(gap) + t == "\n" + (GapLines(gap) + t);
    CharTok("\n", GapLines(gap) + t);
    GapReads(gap, t, p);
  }

  predicate IsLowerWord(w: string) {
    w != "" && |w| <= MAX_STR_LEN && forall i :: 0 <= i < |w| ==> 'a' <= w[i] <= 'z'
  }

  predicate IsKeyword(w: string) {
    w in {"section", "include", "blacklist", "whitelist"}
  }

  lemma LowerKeyword(w: string)
    requires IsKeyword(w)
    ensures IsLowerWord(w)
  {
  }

  /** A word with a meaning of its own. */
  lemma KeywordToken(word: string, t: string)
    requires IsKeyword(word) && Ends(t)
    ensures NextTok(word + t) == Scan(WordToken(word), t)
  {
    LowerKeyword(word);
    hide IsKeyword, WordToken;
    WordScans(word[1..], [word[0]], t);
    assert (word + t)[1..] == word[1..] + t;
    assert [word[0]] + word[1..] == word;
  }

  lemma LaidBegins(a: Laid, t: string)
    requires IsLaid(a)
    ensures NextTok("\t" + (PrintLaid(a) + t)) == NextTok(PrintLaid(a) + t)
    ensures NextTok(PrintLaid(a) + t).token == Name(a.line.name)
  {
    hide NextTok, PrintLaidValue, IsName, IsValue;
    BlankSkipped("\t", PrintLaid(a) + t);
    var v := Sign(a.line.spaced) + (PrintLaidValue(a.line.value, a.lays) + t);
    assert PrintLaid(a) + t == a.line.name + v;
    NameToken(a.line.name, v);
  }

  // ---------------------------------------------------------------- lists over several lines

  /** A line end where one may stand. */
  lemma LayReads(lay: Lay, t: string, p: Parser)
    requires IsLay(lay) && Begins(t) && p == Reader(p, PrintLay(lay) + t)
    ensures Accept(p, Eol) == Out(lay.Some?, Reader(p, t))
  {
    hide NextTok, SkipEols, Break;
    if lay.Some? {
      BreakReads(lay.value, t, p);
    } else {
      assert "" + t == t;
    }
  }

  lemma LayEnds(lay: Lay, t: string)
    requires t != "" && t[0] in ",]"
    ensures Ends(PrintLay(lay) + t) && Begins(t)
  {
    CharTok(t[..1], t[1..]);
    assert t == t[..1] + t[1..];
    if lay.None? {
      assert "" + t == t;
    }
  }

  lemma RestText(vs: seq<Value>, lays: seq<Lay>, t: string)
    requires |lays| == |vs| + 1
    ensures PrintRest(vs, lays) + t ==
            if vs == [] then PrintLay(lays[0]) + ("]" + t)
            else "," + (PrintLay(lays[0]) + (PrintItem(vs[0]) + (PrintRest(vs[1..], lays[1..]) + t)))
  {
    hide PrintItem, PrintLay;
    if vs != [] {
      hide PrintRest;
      var a, b, c := PrintLay(lays[0]), PrintItem(vs[0]), PrintRest(vs[1..], lays[1..]);
      RestUnfolds(vs, lays);
      assert "," + (a + (b + c)) + t == "," + (a + (b + (c + t)));
    }
  }

  lemma RestUnfolds(vs: seq<Value>, lays: seq<Lay>)
    requires |lays| == |vs| + 1 && vs != []
    ensures PrintRest(vs, lays) == "," + (PrintLay(lays[0]) + (PrintItem(vs[0]) + PrintRest(vs[1..], lays[1..])))
  {
    hide PrintItem, PrintLay;
  }

  lemma RestEnds(vs: seq<Value>, lays: seq<Lay>, t: string)
    requires |lays| == |vs| + 1
    ensures Ends(PrintRest(vs, lays) + t)
  {
    RestText(vs, lays, t);
    hide PrintRest, PrintItem, PrintLay, NextTok;
    if vs == [] {
      LayEnds(lays[0], "]" + t);
    }
  }

  lemma ItemBegins(v: Value, t: string)
    requires ConfigPipe.IsItem(v) && Ends(t)
    ensures NextTok(PrintItem(v) + t).token == ItemToken(v) && Begins(PrintItem(v) + t)
  {
    hide NextTok;
    ItemScans(v, t);
  }

  /** One item, on the same line or on a new one. */
  lemma LaidItemReads(lay: Lay, v: Value, t: string, p: Parser)
    requires IsLay(lay) && ConfigPipe.IsItem(v) && Ends(t) && p == Reader(p, PrintLay(lay) + (PrintItem(v) + t))
    ensures var eol := Accept(p, Eol);
            && eol.ok == lay.Some? && eol.p == Reader(p, PrintItem(v) + t) && eol.p.curr == ItemToken(v)
            && ListValue(eol.p) == Out(true, Reader(p.(value := p.value + [AsRead(v)]), t))
  {
    hide NextTok, Accept, ListValue, PrintItem, PrintLay;
    ItemBegins(v, t);
    LayReads(lay, PrintItem(v) + t, p);
    ItemReads(v, t, Reader(p, PrintItem(v) + t));
  }

  lemma ListEndReads(lay: Lay, t: string, p: Parser)
    requires IsLay(lay) && p == Reader(p, PrintLay(lay) + ("]" + t))
    ensures ListValues(p) == Out(true, p) && Closing(p, SqBrackR) == Out(true, Reader(p, t))
  {
    LayEnds(lay, "]" + t);
    CharTok("]", t);
    LayFirst(lay, "]" + t);
    hide NextTok, PrintLay, SkipEols;
    LayReads(lay, "]" + t, p);
  }

  lemma LayFirst(lay: Lay, t: string)
    ensures NextTok(PrintLay(lay) + t).token == if lay.Some? then Eol else NextTok(t).token
  {
    if lay.Some? {
      BreakEnds(lay.value, t);
    } else {
      assert "" + t == t;
    }
  }

  lemma {:induction false} RestReads(vs: seq<Value>, lays: seq<Lay>, t: string, p: Parser)
    requires AreItems(vs) && |lays| == |vs| + 1 && AreLays(lays)
    requires p == Reader(p, PrintRest(vs, lays) + t)
    ensures var o := ListValues(p);
            o.ok && Closing(o.p, SqBrackR) == Out(true, Reader(p.(value := p.value + AllAsRead(vs)), t))
    decreases |vs|
  {
    hide NextTok, ListValue, ListValues, PrintItem, PrintLay, PrintRest, Closing, SkipEols, AreItems, AreLays;
    hide Ends, Accept, AsRead, AllAsRead;
    RestText(vs, lays, t);
    if vs == [] {
      assert IsLay(lays[0]) by {
        OneLay(lays);
      }
      ListEndReads(lays[0], t, p);
      NoneAsRead(p.value, vs);
    } else {
      var u := PrintRest(vs[1..], lays[1..]) + t;
      var item := PrintLay(lays[0]) + (PrintItem(vs[0]) + u);
      CharTok(",", item);
      RestEnds(vs[1..], lays[1..], t);
      Others(vs, lays);
      LaidItemReads(lays[0], vs[0], u, Reader(p, item));
      var q := Reader(p.(value := p.value + [AsRead(vs[0])]), u);
      NextValue(p, item, lays[0].Some?, q);
      RestReads(vs[1..], lays[1..], t, q);
      MoreAsRead(p.value, vs);
    }
  }

  /** A comma and an item. */
  lemma NextValue(p: Parser, item: string, eol: bool, q: Parser)
    requires p.curr == Token.Comma && p.rest == item && Left(q) < Left(p)
    requires Accept(Reader(p, item), Eol).ok == eol && ListValue(Accept(Reader(p, item), Eol).p) == Out(true, q)
    ensures ListValues(p) == ListValues(q)
  {
    hide NextTok, ListValue, SkipEols;
  }

  lemma ListText(vs: seq<Value>, lays: seq<Lay>, t: string)
    requires AreItems(vs) && vs != [] && |lays| == |vs| + 1
    ensures PrintLaidValue(Many(vs), lays) + t
         == "[" + (PrintLay(lays[0]) + (PrintItem(vs[0]) + (PrintRest(vs[1..], lays[1..]) + t)))
  {
    hide PrintItem, PrintLay, PrintRest, ConfigPipe.IsItem;
    var a, b, c := PrintLay(lays[0]), PrintItem(vs[0]), PrintRest(vs[1..], lays[1..]);
    assert "[" + (a + (b + c)) + t == "[" + (a + (b + (c + t)));
  }

  /** The bracket and the first item. */
  lemma ListOpens(p: Parser, item: string, eol: bool, q: Parser)
    requires p.curr == SqBrackL && p.rest == item
    requires var r := Reader(p.(value := []), item);
             Accept(r, Eol).ok == eol && ListValue(Accept(r, Eol).p) == Out(true, q)
    ensures ListRule(p) == Closing(ListValues(q).p, SqBrackR)
  {
    hide NextTok, ListValue, ListValues, Closing, SkipEols, ListStatements;
    FirstValue(Reader(p.(value := []), item), eol, q);
  }

  /** A list is read item by item, whatever line ends there are in it. */
  lemma LaidListReads(vs: seq<Value>, lays: seq<Lay>, t: string, p: Parser)
    requires AreItems(vs) && vs != [] && |lays| == |vs| + 1 && AreLays(lays)
    requires p == Reader(p, PrintLaidValue(Many(vs), lays) + t)
    ensures ListRule(p) == Out(true, Reader(p.(value := AllAsRead(vs)), t)) && p.curr == SqBrackL
  {
    hide NextTok, Accept, ListValue, ListValues, ListRule, PrintItem, PrintLay, PrintRest, Closing, AllAsRead;
    hide AreItems, AreLays, Ends, PrintLaidValue, AsRead;
    var u := PrintRest(vs[1..], lays[1..]) + t;
    var item := PrintLay(lays[0]) + (PrintItem(vs[0]) + u);
    ListText(vs, lays, t);
    CharTok("[", item);
    RestEnds(vs[1..], lays[1..], t);
    Others(vs, lays);
    LaidItemReads(lays[0], vs[0], u, Reader(p.(value := []), item));
    var q := Reader(p.(value := [] + [AsRead(vs[0])]), u);
    ListOpens(p, item, lays[0].Some?, q);
    RestReads(vs[1..], lays[1..], t, q);
    MoreAsRead([], vs);
    assert [] + AllAsRead(vs) == AllAsRead(vs);
  }

  lemma OneLay(lays: seq<Lay>)
    requires AreLays(lays) && lays != []
    ensures IsLay(lays[0])
  {
  }

  lemma Others(vs: seq<Value>, lays: seq<Lay>)
    requires AreItems(vs) && vs != [] && AreLays(lays) && lays != []
    ensures ConfigPipe.IsItem(vs[0]) && IsLay(lays[0]) && AreItems(vs[1..]) && AreLays(lays[1..])
  {
    hide ConfigPipe.IsItem, IsLay;
  }

  lemma MoreAsRead(before: seq<Value>, vs: seq<Value>)
    requires vs != []
    ensures before + [AsRead(vs[0])] + AllAsRead(vs[1..]) == before + AllAsRead(vs)
  {
  }

  lemma NoneAsRead(before: seq<Value>, vs: seq<Value>)
    requires vs == []
    ensures before + AllAsRead(vs) == before
  {
  }

  lemma FirstValue(p: Parser, eol: bool, q: Parser)
    requires Accept(p, Eol).ok == eol && ListValue(Accept(p, Eol).p) == Out(true, q)
    ensures var e := Accept(p, Eol);
            var first := if e.ok then ListStatements(e.p) else Out(false, e.p);
            (if first.ok then first else ListStatements(first.p)) == ListValues(q)
  {
    hide NextTok, ListValue, ListValues, SkipEols;
  }

  lemma LaidReads(a: Laid, t: string, p: Parser)
    requires IsLaid(a) && Ends(t) && p == Reader(p, PrintLaid(a) + t) && p.value == []
    ensures Assignment(p) ==
            Out(true, Reader(p.(config := SetVar(p.config, p.section, a.line.name, ValueAsRead(a.line.value))), t))
    ensures p.curr == Name(a.line.name)
  {
    hide NextTok, SetVar, ListRule, PrintItem, PrintRest, PrintLay, IsName;
    var l := a.line;
    var u := PrintLaidValue(l.value, a.lays) + t;
    var v := Sign(l.spaced) + u;
    assert PrintLaid(a) + t == l.name + v;
    NameToken(l.name, v);
    SignReads(l.spaced, u);
    var q := Reader(p, u);
    if l.value.Many? {
      LaidListReads(l.value.vs, a.lays, t, q);
    } else {
      ItemScans(l.value, t);
    }
  }

  // ---------------------------------------------------------------- sections

  lemma AddedSection(c: Config, kind: Kind, name: string)
    ensures AddSection(c, kind, name) == WithSection(c, kind, name, map[])
  {
  }

  /** Filling a section sets just its variables. */
  lemma SetInSection(c: Config, kind: Kind, name: string, vars: Vars, l: Line)
    requires IsLine(l)
    ensures SetVar(WithSection(c, kind, name, vars), Some((kind, name)), l.name, ValueAsRead(l.value))
         == WithSection(c, kind, name, vars[l.name := ValueAsRead(l.value)])
  {
    hide ValueAsRead;
    var vars' := vars[l.name := ValueAsRead(l.value)];
    assert c.sections[name := vars][name := vars'] == c.sections[name := vars'];
    assert c.blacklists[name := vars][name := vars'] == c.blacklists[name := vars'];
    assert c.whitelists[name := vars][name := vars'] == c.whitelists[name := vars'];
  }

  lemma EntryText(e: Entry, t: string)
    requires IsEntry(e)
    ensures PrintEntry(e) + t == "\t" + (PrintLaid(e.laid) + (Comma(e) + (Break(e.gap) + t)))
  {
    hide PrintLaid, Break;
  }

  lemma CommaEnds(e: Entry, t: string)
    ensures Ends(Comma(e) + (Break(e.gap) + t))
  {
  }

  /** One assignment of a section, up to what follows it. */
  lemma EntryReads(e: Entry, t: string, p: Parser, c: Config, kind: Kind, name: string, vars: Vars)
    requires IsEntry(e) && p == Reader(p, PrintEntry(e) + t) && p.value == []
    requires p.section == Some((kind, name)) && p.config == WithSection(c, kind, name, vars)
    ensures var c' := WithSection(c, kind, name, vars[e.laid.line.name := ValueAsRead(e.laid.line.value)]);
            Assignment(p) == Out(true, Reader(p.(config := c'), Comma(e) + (Break(e.gap) + t)))
  {
    var more := Comma(e) + (Break(e.gap) + t);
    EntryText(e, t);
    hide PrintEntry;
    hide NextTok, PrintLaid, IsLine, Assignment, SetVar, WithSection, ValueAsRead, Comma, Break, IsGap, Ends;
    CommaEnds(e, t);
    LaidBegins(e.laid, more);
    LaidReads(e.laid, more, p);
    SetInSection(c, kind, name, vars, e.laid.line);
  }

  /** The comma, if any, and the end of the line. */
  lemma CommaReads(e: Entry, t: string, p: Parser)
    requires IsEntry(e) && Begins(t) && p == Reader(p, Comma(e) + (Break(e.gap) + t))
    ensures Accept(Accept(p, Token.Comma).p, Eol) == Out(true, Reader(p, t))
  {
    hide NextTok, SkipEols, IsLine;
    var u := Break(e.gap) + t;
    assert u == "\n" + (GapLines(e.gap) + t);
    CharTok("\n", GapLines(e.gap) + t);
    if e.comma {
      CharTok(",", u);
    } else {
      assert "" + u == u;
    }
    BreakReads(e.gap, t, Reader(p, u));
  }

  /** Behind an assignment of a section: the others, up to the closing bracket. */
  lemma {:induction false} EntriesRead(e: Entry, es: seq<Entry>, t: string, p: Parser, c: Config, kind: Kind,
                                       name: string, vars: Vars)
    requires IsEntry(e) && AreEntries(es) && p.value == []
    requires p == Reader(p, Comma(e) + (Break(e.gap) + (PrintEntries(es) + "}" + t)))
    requires p.section == Some((kind, name)) && p.config == WithSection(c, kind, name, vars)
    ensures SectionAssignments(p) ==
            Out(true, Reader(p.(config := WithSection(c, kind, name, Assigned(EntryLines(es), vars))), "}" + t))
    decreases |es|
  {
    hide NextTok, Accept, Assignment, PrintEntry, WithSection, ValueAsRead, IsEntry, Break, Comma;
    var u := PrintEntries(es) + "}" + t;
    if es == [] {
      assert u == "}" + t;
      CharTok("}", t);
      CommaReads(e, u, p);
      NoAssignment(Reader(p, u));
    } else {
      var more := PrintEntries(es[1..]) + "}" + t;
      assert u == PrintEntry(es[0]) + more;
      assert IsEntry(es[0]);
      EntryBegins(es[0], more);
      CommaReads(e, u, p);
      EntryReads(es[0], more, Reader(p, u), c, kind, name, vars);
      var vars' := vars[es[0].laid.line.name := ValueAsRead(es[0].laid.line.value)];
      var q := Assignment(Reader(p, u)).p;
      EntriesRead(es[0], es[1..], t, q, c, kind, name, vars');
    }
  }

  lemma EntryBegins(e: Entry, t: string)
    requires IsEntry(e)
    ensures NextTok(PrintEntry(e) + t).token == Name(e.laid.line.name) && Begins(PrintEntry(e) + t)
  {
    hide NextTok, PrintLaid, IsLaid, PrintEntry, Comma, Break;
    var more := Comma(e) + (Break(e.gap) + t);
    EntryText(e, t);
    LaidBegins(e.laid, more);
  }

  lemma NoAssignment(p: Parser)
    requires !p.curr.Name?
    ensures Assignment(p) == Out(false, p)
  {
  }

  lemma ShortName(name: string)
    requires IsName(name)
    ensures Hash.Truncated(name) == name
  {
  }

  /** The parser behind the keyword and the name of a section, its bracket open. */
  lemma HeadReads(kind: Kind, name: string, gap: Gap, t: string, p: Parser)
    requires IsName(name) && IsGap(gap) && Begins(t) && p.kind == kind
    requires p == Reader(p, name + (" {" + (Break(gap) + t)))
    ensures SectionHead(p) == Out(true, Reader(p.(section := Some((kind, name)),
                                                  config := WithSection(p.config, kind, name, map[])), t))
  {
    hide NextTok, SkipEols, Break, AddSection, WithSection, IsName, IsGap, Begins;
    var u := Break(gap) + t;
    NameToken(name, " {" + u);
    assert " {" + u == " " + ("{" + u);
    BlankSkipped(" ", "{" + u);
    CharTok("{", u);
    BreakReads(gap, t, Reader(p, u));
    AddedSection(p.config, kind, name);
    ShortName(name);
  }

  lemma TypeReads(kind: Kind, t: string, p: Parser)
    requires Ends(t) && p == Reader(p, Keyword(kind) + t)
    ensures SectionType(p) == Out(true, Reader(p.(kind := kind), t)) && !p.curr.Name?
  {
    KeywordToken(Keyword(kind), t);
    hide NextTok;
  }

  lemma ClosingReads(t: string, p: Parser)
    requires p == Reader(p, "}" + t)
    ensures Closing(p, BracketR) == Out(true, Reader(p, t))
  {
    CharTok("}", t);
    hide NextTok;
  }

  lemma BodyReads(es: seq<Entry>, t: string, p: Parser, c: Config, kind: Kind, name: string)
    requires AreEntries(es) && es != [] && p.value == [] && p == Reader(p, PrintEntries(es) + "}" + t)
    requires p.section == Some((kind, name)) && p.config == WithSection(c, kind, name, map[])
    ensures SectionStatements(p) ==
            Out(true, Reader(p.(config := WithSection(c, kind, name, Assigned(EntryLines(es), map[]))), "}" + t))
  {
    hide NextTok, Assignment, SectionAssignments, WithSection, ValueAsRead, IsEntry, Break, Comma, PrintEntry;
    var more := PrintEntries(es[1..]) + "}" + t;
    assert PrintEntries(es) + "}" + t == PrintEntry(es[0]) + more;
    assert IsEntry(es[0]);
    EntryReads(es[0], more, p, c, kind, name, map[]);
    EntriesRead(es[0], es[1..], t, Assignment(p).p, c, kind, name,
                map[es[0].laid.line.name := ValueAsRead(es[0].laid.line.value)]);
  }

  lemma BlockText(kind: Kind, name: string, gap: Gap, es: seq<Entry>, t: string)
    requires IsConfigItem(Block(kind, name, gap, es))
    ensures PrintConfigItem(Block(kind, name, gap, es)) + t
         == Keyword(kind) + (" " + (name + (" {" + (Break(gap) + (PrintEntries(es) + "}" + t)))))
  {
    hide Keyword, Break, PrintEntries;
    var k, g, b := Keyword(kind), Break(gap), PrintEntries(es);
    assert PrintConfigItem(Block(kind, name, gap, es)) == k + " " + name + " {" + g + b + "}";
    assert k + " " + name + " {" + g + b + "}" + t == k + " " + name + " {" + (g + (b + "}" + t));
  }

  lemma BodyBegins(es: seq<Entry>, t: string)
    requires AreEntries(es) && es != []
    ensures Begins(PrintEntries(es) + "}" + t)
  {
    hide PrintEntry, Begins, IsEntry;
    var more := PrintEntries(es[1..]) + "}" + t;
    assert IsEntry(es[0]);
    assert PrintEntries(es) + "}" + t == PrintEntry(es[0]) + more;
    EntryBegins(es[0], more);
  }

  /** A printed section is entered, filled and left. */
  lemma SectionReads(kind: Kind, name: string, gap: Gap, es: seq<Entry>, t: string, p: Parser)
    requires IsConfigItem(Block(kind, name, gap, es)) && p.section == None && p.value == []
    requires p == Reader(p, PrintConfigItem(Block(kind, name, gap, es)) + t)
    ensures SectionRule(p) == Out(true, Reader(p.(kind := kind, config := WithSection(p.config, kind, name,
                                                    Assigned(EntryLines(es), map[]))), t))
    ensures !p.curr.Name?
  {
    hide NextTok, Break, PrintEntries, WithSection, Assigned, SectionType, SectionHead, SectionStatements, Closing;
    hide IsName, IsGap, AreEntries, Begins, PrintConfigItem, Keyword;
    var body := PrintEntries(es) + "}" + t;
    var head := name + (" {" + (Break(gap) + body));
    BlockText(kind, name, gap, es, t);
    BodyBegins(es, t);
    TypeReads(kind, " " + head, p);
    BlankSkipped(" ", head);
    var q := Reader(p.(kind := kind), head);
    HeadReads(kind, name, gap, body, q);
    var q' := SectionHead(q).p;
    BodyReads(es, t, q', p.config, kind, name);
    ClosingReads(t, SectionStatements(q').p);
  }

  // ---------------------------------------------------------------- statements

  lemma IncludeReads(pattern: string, t: string, p: Parser)
    requires IsQuotable(pattern) && p == Reader(p, PrintConfigItem(Included(pattern)) + t)
    ensures IncludeRule(p) == Out(true, Reader(p.(config := Says(p.config, Included(pattern))), t))
    ensures p.curr == Include
  {
    var u := "\"" + pattern + "\"" + t;
    assert PrintConfigItem(Included(pattern)) + t == "include" + (" " + u);
    KeywordToken("include", " " + u);
    BlankSkipped(" ", u);
    QuotedTokenIff(pattern, t);
    hide NextTok;
  }

  lemma GlobalReads(laid: Laid, t: string, p: Parser)
    requires IsLaid(laid) && Ends(t) && p.section == None && p.value == [] && DEFAULT_SECTION in p.config.sections
    requires p == Reader(p, PrintLaid(laid) + t)
    ensures Assignment(p) == Out(true, Reader(p.(config := Says(p.config, Global(laid))), t))
  {
    hide NextTok, PrintLaid, Assignment, ValueAsRead;
    LaidReads(laid, t, p);
  }

  /** A printed item is read as what it says. */
  lemma ConfigItemReads(item: Item, t: string, p: Parser)
    requires IsConfigItem(item) && Ends(t) && p.section == None && p.value == [] && DEFAULT_SECTION in p.config.sections
    requires p == Reader(p, PrintConfigItem(item) + t)
    ensures var o := Statement(p);
            o.ok && o.p == Reader(p.(config := Says(p.config, item), kind := o.p.kind), t)
    ensures p.curr != Eol && DEFAULT_SECTION in Says(p.config, item).sections
  {
    hide NextTok, PrintLaid, Assignment, SectionRule, IncludeRule, IsLaid, Ends, Assigned, PrintEntries, IsQuotable;
    match item
    case Global(laid) =>
      GlobalReads(laid, t, p);
      LaidBegins(laid, t);
    case Included(pattern) =>
      IncludeReads(pattern, t, p);
      NoAssignment(p);
      NoSection(p);
    case Block(kind, name, gap, entries) =>
      SectionReads(kind, name, gap, entries, t, p);
      NoAssignment(p);
      BlockBegins(kind, name, gap, entries, t);
  }

  lemma NoSection(p: Parser)
    requires p.curr == Include
    ensures SectionRule(p) == Out(false, p)
  {
  }

  lemma BlockBegins(kind: Kind, name: string, gap: Gap, es: seq<Entry>, t: string)
    requires IsConfigItem(Block(kind, name, gap, es))
    ensures NextTok(PrintConfigItem(Block(kind, name, gap, es)) + t).token == WordToken(Keyword(kind))
  {
    hide NextTok, Break, PrintEntries, WordToken;
    BlockText(kind, name, gap, es, t);
    KeywordToken(Keyword(kind), " " + (name + (" {" + (Break(gap) + (PrintEntries(es) + "}" + t)))));
  }

  /** At the end of a line: all other statements are read, up to the end of the file. */
  lemma {:induction false} StatementsRead(gap: Gap, ss: seq<Clause>, t: string, p: Parser)
    requires IsGap(gap) && IsFile(ss) && NextTok(t).token == Eof && p.curr == Eol
    requires p.rest == GapLines(gap) + (PrintFile(ss) + t)
    requires p.section == None && p.value == [] && DEFAULT_SECTION in p.config.sections
    ensures var o := Statements(p);
            o.ok && o.p == Reader(p.(config := AllSay(p.config, ss), kind := o.p.kind), t)
    decreases |ss|
  {
    hide NextTok, Statement, PrintConfigItem, Says, IsConfigItem, IsGap, Break, GapLines, SkipEols, Begins;
    var u := PrintFile(ss) + t;
    var q := Reader(p, u);
    if ss == [] {
      assert u == t;
      EofBegins(t);
      GapReads(gap, u, p);
      NothingMore(q);
    } else {
      var item := ss[0].item;
      var more := PrintFile(ss[1..]) + t;
      var rest := Break(ss[0].gap) + more;
      assert u == PrintConfigItem(item) + rest;
      BreakEnds(ss[0].gap, more);
      ConfigItemReads(item, rest, q);
      TokenBegins(u);
      GapReads(gap, u, p);
      var q' := Statement(q).p;
      assert q'.curr == Eol && q'.rest == GapLines(ss[0].gap) + more;
      StatementsRead(ss[0].gap, ss[1..], t, q');
    }
  }

  lemma EofBegins(t: string)
    requires NextTok(t).token == Eof
    ensures Begins(t)
  {
  }

  lemma TokenBegins(t: string)
    requires NextTok(t).token != Eol
    ensures Begins(t)
  {
  }

  lemma BreakEnds(gap: Gap, t: string)
    ensures Ends(Break(gap) + t) && NextTok(Break(gap) + t) == Scan(Eol, GapLines(gap) + t)
  {
    assert Break(gap) + t == "\n" + (GapLines(gap) + t);
    CharTok("\n", GapLines(gap) + t);
  }

  /** A run is its statements and the end, whether or not an end of a line comes first. */
  lemma StartIsStatements(p: Parser, c: Config)
    ensures Start(p, c) == End(Statements(p.(config := WithDefault(c), curr := Eol)).p)
  {
    hide NextTok, Statement;
  }

  /** A whole configuration file is accepted, from whatever configuration, and adds exactly what its statements say, in
      order; no section is left open. */
  lemma FileReads(gap: Gap, ss: seq<Clause>, t: string, p: Parser, c: Config)
    requires IsGap(gap) && IsFile(ss) && NextTok(t).token == Eof && p.section == None && p.value == []
    requires p.rest == GapLines(gap) + (PrintFile(ss) + t)
    ensures var o := Start(p, c);
            o.ok && o.p.config == AllSay(WithDefault(c), ss) && o.p.section == None && o.p.value == []
  {
    hide NextTok, Statements, PrintFile, Start, AllSay, IsGap, IsFile, GapLines;
    var q := p.(config := WithDefault(c), curr := Eol);
    StartIsStatements(p, c);
    StatementsRead(gap, ss, t, q);
  }

  /** One section, alone: the map of its kind gets its name with its values, and everything else stays as it was. */
  lemma BlockReads(kind: Kind, name: string, es: seq<Entry>, p: Parser, c: Config)
    requires IsConfigItem(Block(kind, name, [], es)) && p.section == None && p.value == []
    requires p.rest == PrintConfigItem(Block(kind, name, [], es)) + "\n" && DEFAULT_SECTION in c.sections
    ensures var o := Start(p, c);
            var vars := Assigned(EntryLines(es), map[]);
            && o.ok && o.p.section == None && o.p.config.includes == c.includes
            && o.p.config.sections == (if kind == Plain then c.sections[name := vars] else c.sections)
            && o.p.config.blacklists == (if kind == Black then c.blacklists[name := vars] else c.blacklists)
            && o.p.config.whitelists == (if kind == White then c.whitelists[name := vars] else c.whitelists)
  {
    hide NextTok, Start, IsConfigItem, PrintConfigItem, Assigned;
    var s := Clause(Block(kind, name, [], es), []);
    assert [s][1..] == [] && PrintFile([s]) == PrintConfigItem(s.item) + Break([]) + "";
    assert Break([]) == "\n" + "" == "\n";
    assert GapLines([]) + (PrintFile([s]) + "") == PrintConfigItem(s.item) + "\n";
    EndOfText();
    FileReads([], [s], "", p, c);
    assert AllSay(WithDefault(c), [s]) == AllSay(Says(c, s.item), []);
  }

  lemma EndOfText()
    ensures NextTok("").token == Eof
  {
  }
}
