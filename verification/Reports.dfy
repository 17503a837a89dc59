/** When the greylister hears what a connection reported, whatever the fields of the report hold. Only HELO arguments
    hold quotes and backslashes; a bare quote ends the string early and what follows it is read as assignments. */
module Reports {
  import opened Wrappers
  import opened Numerals
  import opened ConfigLexer
  import opened ConfigParser
  import opened ConfigPipe
  import opened ConfigSites
  import opened FieldSites
  import opened Messages
  import Con
  import Greylister
  import Hash

  // ---------------------------------------------------------------- line by line

  /** One assignment, whatever ends it. */
  lemma LineFirst(l: Line, t: string, p: Parser)
    requires IsLine(l) && Ends(t) && p == Reader(p, "\n" + (PrintLine(l) + t)) && p.value == []
    ensures Statements(p) ==
            Statements(Reader(p.(config := SetVar(p.config, p.section, l.name, ValueAsRead(l.value))), t))
  {
    hide NextTok, SetVar, Assignment, Statement, Statements, PrintLine, IsLine, Ends;
    CharTok("\n", PrintLine(l) + t);
    var q := Reader(p, PrintLine(l) + t);
    LineReads(l, t, q);
    AssignmentFirst(q);
    LineStep(p);
  }

  /** A string that may hold anything. */
  lemma FieldFirst(name: string, c: string, p: Parser)
    requires IsName(name) && p == Reader(p, "\n" + (name + " = \"" + c)) && p.value == []
    ensures var r := ScanStr(c, false, "");
            Statements(p) == Statements(Reader(p.(config := SetVar(p.config, p.section, name, Text(r.0))), r.1))
  {
    var r := ScanStr(c, false, "");
    var text := name + " = \"" + c;
    CharTok("\n", text);
    var q := Reader(p, text);
    FieldAssigned(name, c, q);
    hide NextTok, SetVar, Assignment, Statement, Statements, IsName, ScanStr;
    AssignmentFirst(q);
    LineStep(p);
  }

  lemma FieldAssigned(name: string, c: string, q: Parser)
    requires IsName(name) && q == Reader(q, name + " = \"" + c) && q.value == []
    ensures var r := ScanStr(c, false, "");
            && Assignment(q) == Out(true, Reader(q.(config := SetVar(q.config, q.section, name, Text(r.0))), r.1))
            && q.curr == Name(name)
  {
    hide SetVar, IsName;
    var r := ScanStr(c, false, "");
    var quoted := "\"" + c;
    assert name + " = \"" + c == name + (Sign(true) + quoted);
    NameToken(name, Sign(true) + quoted);
    SignReads(true, quoted);
    assert quoted[0] == '"' && quoted[1..] == c;
    assert NextTok(quoted) == Scan(Str(r.0), r.1);
    hide NextTok, ScanStr;
  }

  lemma {:induction false} LinesThen(ls: seq<Line>, vars: Vars, u: string, p: Parser)
    requires AreLines(ls) && p == Reader(p, "\n" + (PrintLines(ls) + u))
    requires p.section == None && p.value == [] && p.config == ConfigOf(vars)
    ensures Statements(p) == Statements(Reader(p.(config := ConfigOf(Assigned(ls, vars))), "\n" + u))
    decreases |ls|
  {
    hide NextTok, SetVar, Statements, PrintLine, ConfigOf, IsLine;
    if ls == [] {
      assert PrintLines(ls) + u == u;
    } else {
      var more := "\n" + (PrintLines(ls[1..]) + u);
      assert PrintLines(ls) + u == PrintLine(ls[0]) + more;
      LineFirst(ls[0], more, p);
      SetInDefault(vars, ls[0]);
      LinesThen(ls[1..], vars[ls[0].name := ValueAsRead(ls[0].value)], u,
                Reader(p.(config := ConfigOf(vars[ls[0].name := ValueAsRead(ls[0].value)])), more));
    }
  }

  /** A run on lines that read as printed, and whatever follows them. */
  lemma StartThen(ls: seq<Line>, u: string, p: Parser)
    requires IsMessage(ls) && p.rest == PrintLines(ls) + u && p.section == None && p.value == []
    ensures Start(p, NONE) ==
            End(Statements(Reader(p.(config := ConfigOf(Assigned(ls, map[]))), "\n" + u)).p)
  {
    hide NextTok, SetVar, Assignment, PrintLine, IsLine, Statements;
    var more := "\n" + (PrintLines(ls[1..]) + u);
    assert p.rest == PrintLine(ls[0]) + more;
    var q := Reader(p.(config := WithDefault(NONE)), p.rest);
    LineReads(ls[0], more, q);
    AssignmentFirst(q);
    SetInDefault(map[], ls[0]);
    var vars: Vars := map[ls[0].name := ValueAsRead(ls[0].value)];
    LinesThen(ls[1..], vars, u, Reader(q.(config := ConfigOf(vars)), more));
  }

  // ---------------------------------------------------------------- the text of a report

  /** No field holds the end of a line; every line read is like that. */
  predicate OnLines(r: Con.Report) {
    OnOneLine(r.dst) && OnOneLine(r.src) && OnOneLine(r.helo) && OnOneLine(r.from) && OnOneLine(r.to)
  }

  function Fields(r: Con.Report): seq<Field> {
    [Field("ip", r.src), Field("helo", r.helo), Field("from", r.from), Field("to", r.to)]
  }

  const TYPE_LINE := Line("type", true, Number(Greylister.MSG_GREY))

  /** A run of the parser on a printed report, with `t` behind it. */
  function RunOn(r: Con.Report, t: string): Out {
    Start(Parser(PrintMessage(ReportLines(r)) + t, Eof, NONE, None, Plain, []), NONE)
  }

  function VarsOf(c: Config): Vars {
    if DEFAULT_SECTION in c.sections then c.sections[DEFAULT_SECTION] else map[]
  }

  lemma FieldText(name: string, w: string, rest: string)
    ensures PrintLine(Line(name, true, Text(w))) + "\n" + rest == name + " = \"" + (w + ("\"\n" + rest))
  {
    assert name + " = " + ("\"" + w + "\"") + "\n" + rest == name + (" = " + "\"") + w + ("\"" + "\n" + rest);
    assert " = " + "\"" == " = \"" && "\"" + "\n" == "\"\n";
  }

  lemma LinesOfMore(f: Field, fs: seq<Field>)
    ensures LinesOf([f] + fs) == [Line(f.name, true, Text(f.text))] + LinesOf(fs)
  {
  }

  lemma PrintMoreLines(l: Line, ls: seq<Line>)
    ensures PrintLines([l] + ls) == PrintLine(l) + "\n" + PrintLines(ls)
  {
    assert ([l] + ls)[1..] == ls;
  }

  lemma {:induction false} FieldsText(fs: seq<Field>, t: string)
    ensures PrintLines(LinesOf(fs)) + ("%\n" + t) ==
            if fs == [] then "%\n" + t else fs[0].name + " = \"" + Chunk(fs[0].text, fs[1..], t)
    decreases |fs|
  {
    hide PrintLine, LinesOf, PrintLines;
    if fs == [] {
      NoFields(t);
    } else {
      var f, more := fs[0], fs[1..];
      assert fs == [f] + more;
      FieldsText(more, t);
      var rest := PrintLines(LinesOf(more)) + ("%\n" + t);
      LinesOfMore(f, more);
      PrintMoreLines(Line(f.name, true, Text(f.text)), LinesOf(more));
      FieldText(f.name, f.text, rest);
      var line := PrintLine(Line(f.name, true, Text(f.text))) + "\n";
      assert line + PrintLines(LinesOf(more)) + ("%\n" + t) == line + rest;
      hide Chunk;
      ChunkIs(f.text, more, t);
    }
  }

  lemma ChunkIs(w: string, fs: seq<Field>, t: string)
    ensures Chunk(w, fs, t) ==
            w + ("\"\n" + (if fs == [] then "%\n" + t else fs[0].name + " = \"" + Chunk(fs[0].text, fs[1..], t)))
  {
  }

  lemma NoFields(t: string)
    ensures PrintLines(LinesOf([])) + ("%\n" + t) == "%\n" + t
  {
    assert LinesOf([]) == [];
  }

  function LinesOf(fs: seq<Field>): seq<Line> {
    seq(|fs|, i requires 0 <= i < |fs| => Line(fs[i].name, true, Text(fs[i].text)))
  }

  function AllFields(r: Con.Report): seq<Field> {
    [Field("dst_ip", r.dst)] + Fields(r)
  }

  /** The lines before the place of field `k`. */
  function LinesBefore(r: Con.Report, k: nat): seq<Line>
    requires k < 5
  {
    [TYPE_LINE] + LinesOf(AllFields(r)[..k])
  }

  /** The text behind the opening quote of field `k`. */
  function FromField(r: Con.Report, k: nat, t: string): string
    requires k < 5
  {
    Chunk(AllFields(r)[k].text, AllFields(r)[k + 1..], t)
  }

  lemma {:induction false} LinesConcat(a: seq<Line>, b: seq<Line>)
    ensures PrintLines(a + b) == PrintLines(a) + PrintLines(b)
  {
    hide PrintLine;
    if a == [] {
      assert a + b == b;
    } else {
      LinesConcat(a[1..], b);
      assert (a + b)[1..] == a[1..] + b;
    }
  }

  lemma ReportText(r: Con.Report, k: nat, t: string)
    requires k < 5
    ensures PrintMessage(ReportLines(r)) + t ==
            PrintLines(LinesBefore(r, k)) + (AllFields(r)[k].name + " = \"" + FromField(r, k, t))
  {
    hide PrintLine, Chunk;
    var fs := AllFields(r)[k..];
    assert fs[0] == AllFields(r)[k] && fs[1..] == AllFields(r)[k + 1..];
    FieldsText(fs, t);
    var ls, a := ReportLines(r), LinesBefore(r, k);
    assert ls == a + LinesOf(fs);
    LinesConcat(a, LinesOf(fs));
    assert PrintLines(a) + PrintLines(LinesOf(fs)) + "%\n" + t
        == PrintLines(a) + (PrintLines(LinesOf(fs)) + ("%\n" + t));
  }

  // ---------------------------------------------------------------- what can be heard

  /** The parser behind the string at the place of field `k`. */
  function FieldRead(r: Con.Report, k: nat, t: string): Parser
    requires k < 5
  {
    var x := ScanStr(FromField(r, k, t), false, "");
    var vars := Assigned(LinesBefore(r, k), map[])[AllFields(r)[k].name := Text(x.0)];
    Reader(Parser("", Eof, ConfigOf(vars), None, Plain, []), x.1)
  }

  lemma NamedFields(r: Con.Report, k: nat)
    requires k < 5
    ensures IsName(AllFields(r)[k].name) && IsLine(TYPE_LINE)
  {
    NamesAreNames();
    MoreNames();
  }

  lemma LinesAreMessage(r: Con.Report, k: nat)
    requires k < 5 && forall i :: 0 <= i < k ==> IsQuotable(AllFields(r)[i].text)
    ensures IsMessage(LinesBefore(r, k))
  {
    hide IsName, IsQuotable;
    NamedFields(r, k);
    forall i | 0 <= i < k ensures IsName(AllFields(r)[i].name) {
      NamedFields(r, i);
    }
    hide AllFields;
  }

  /** Where the fields before can be put between quotes, a run reads them and comes to field `k`. */
  lemma RunsTo(r: Con.Report, k: nat, t: string)
    requires k < 5 && forall i :: 0 <= i < k ==> IsQuotable(AllFields(r)[i].text)
    ensures RunOn(r, t) == End(Statements(FieldRead(r, k, t)).p)
  {
    var p := Parser(PrintMessage(ReportLines(r)) + t, Eof, NONE, None, Plain, []);
    var name, c := AllFields(r)[k].name, FromField(r, k, t);
    ReportText(r, k, t);
    NamedFields(r, k);
    LinesAreMessage(r, k);
    hide NextTok, Statements, ScanStr, PrintLines, PrintMessage, ReportLines, SetVar, ConfigOf, End, IsMessage;
    hide IsQuotable, IsLine, LinesBefore, FromField, AllFields;
    StartThen(LinesBefore(r, k), name + " = \"" + c, p);
    var vars := Assigned(LinesBefore(r, k), map[]);
    var q := Reader(p.(config := ConfigOf(vars)), "\n" + (name + " = \"" + c));
    FieldFirst(name, c, q);
    SetInDefaultOf(vars, name, Text(ScanStr(c, false, "").0));
  }

  /** The parser behind the string at the place of the first field. */
  function DstRead(r: Con.Report, t: string): Parser {
    var x := ScanStr(Chunk(r.dst, Fields(r), t), false, "");
    var vars: Vars := map["type" := Number(Greylister.MSG_GREY), "dst_ip" := Text(x.0)];
    Reader(Parser("", Eof, ConfigOf(vars), None, Plain, []), x.1)
  }

  lemma RunsOn(r: Con.Report, t: string)
    ensures RunOn(r, t) == End(Statements(DstRead(r, t)).p)
  {
    hide NextTok, Chunk, Statements, ScanStr, RunOn, ConfigOf, End;
    RunsTo(r, 0, t);
    assert AllFields(r)[1..] == Fields(r) && AllFields(r)[0].text == r.dst;
    assert LinesBefore(r, 0) == [TYPE_LINE] && [TYPE_LINE][1..] == [];
    assert Assigned([TYPE_LINE], map[]) == Assigned([], map["type" := Number(Greylister.MSG_GREY)]);
    assert FieldRead(r, 0, t) == DstRead(r, t);
  }

  lemma SetInDefaultOf(vars: Vars, name: string, v: Value)
    requires |name| <= Hash.MAX_KEY_LEN
    ensures SetVar(ConfigOf(vars), None, name, v) == ConfigOf(vars[name := v])
  {
    assert map[DEFAULT_SECTION := vars][DEFAULT_SECTION := vars[name := v]] == map[DEFAULT_SECTION := vars[name := v]];
  }

  /** The text behind the string at the place of the first field. */
  function BehindDst(r: Con.Report, t: string): string {
    ScanStr(Chunk(r.dst, Fields(r), t), false, "").1
  }

  /** A string that the run set is that of the first field, or is assigned in the text behind that. */
  lemma HeardFrom(r: Con.Report, t: string, name: string, v: string)
    requires |RunOn(r, t).p.rest| >= |t| && Has(RunOn(r, t).p.config, name, v) && |name| < Hash.MAX_KEY_LEN
    ensures (name == "dst_ip" && v == ScanStr(Chunk(r.dst, Fields(r), t), false, "").0)
            || Site(BehindDst(r, t), name, v, |t|)
  {
    hide NextTok, Chunk, ScanStr, Statements, End, Has, Follows, RunOn;
    var p, q := DstRead(r, t), RunOn(r, t).p;
    RunsOn(r, t);
    StatementsLead(p);
    EndLeads(Statements(p).p);
    LeadsOn(p, Statements(p).p, q);
    if Has(p.config, name, v) {
      OnlyDst(ScanStr(Chunk(r.dst, Fields(r), t), false, "").0, name, v);
    } else {
      FewerLeft(p, name, v, |q.rest|, |t|);
      var u := BehindDst(r, t);
      TailMore(u);
      if p.curr == Name(name) && Follows(p.rest, v, |t|) {
        assert Assigns(u, name, v, |t|);
      } else {
        NextTail(u);
        var w :| Tail(p.rest, w) && Assigns(w, name, v, |t|);
        TailTrans(u, p.rest, w);
      }
    }
  }

  lemma OnlyDst(x: string, name: string, v: string)
    requires Has(ConfigOf(map["type" := Number(Greylister.MSG_GREY), "dst_ip" := Text(x)]), name, v)
    ensures name == "dst_ip" && v == x
  {
  }

  lemma FieldsNamed(r: Con.Report)
    ensures AreNamed(Fields(r)) && AreNamed(Fields(r)[1..]) && IsWord("ip") && IsWord("helo") && IsWord("from")
            && IsWord("to") && IsWord("dst_ip")
  {
  }

  /** Then it comes from the place of a field, or from inside one. */
  lemma HeardSource(r: Con.Report, t: string, name: string, v: string)
    requires |RunOn(r, t).p.rest| >= |t| && Has(RunOn(r, t).p.config, name, v) && |name| < Hash.MAX_KEY_LEN
    requires IsWord(name) && '\n' !in v
    ensures (name == "dst_ip" && v == ScanStr(Chunk(r.dst, Fields(r), t), false, "").0)
            || Source(r.dst, Fields(r), t, name, v)
  {
    hide NextTok, ScanStr, Chunk, Source, RunOn, Has, Assigns, Quoted, IsWord;
    HeardFrom(r, t, name, v);
    if Site(BehindDst(r, t), name, v, |t|) {
      var c := Chunk(r.dst, Fields(r), t);
      ScanStrTail(c, false, "");
      SiteWithin(c, BehindDst(r, t), name, v, |t|);
      var q, e := SiteQuoted(c, name, v, |t|);
      FieldsNamed(r);
      ChunkSource(r.dst, Fields(r), t, q, e, name, v);
    }
  }

  lemma SiteWithin(t: string, u: string, name: string, v: string, left: nat)
    requires Tail(t, u) && Site(u, name, v, left)
    ensures Site(t, name, v, left)
  {
    hide Assigns;
    var w :| Tail(u, w) && Assigns(w, name, v, left);
    TailTrans(t, u, w);
  }

  // ---------------------------------------------------------------- the fields as they should be heard

  /** A field as it should be heard: as it is, or with its escapes undone. */
  function Want(raw: bool, w: string): string {
    if raw then w else Unescaped(w)
  }

  predicate Fine(raw: bool, w: string) {
    if raw then IsPlain(w) else IsWhole(w)
  }

  /** At its own place a field is heard as it should be only if it is fine. */
  lemma OwnIsFine(raw: bool, w: string, fs: seq<Field>, t: string)
    requires OnOneLine(w) && ScanStr(Chunk(w, fs, t), false, "").0 == Want(raw, w)
    ensures Fine(raw, w)
  {
    hide ScanStr, Unescaped, IsPlain, IsWhole;
    ChunkIs(w, fs, t);
    hide Chunk;
    var x := if fs == [] then "%\n" + t else fs[0].name + " = \"" + Chunk(fs[0].text, fs[1..], t);
    if raw {
      OwnPlain(w, x);
    } else {
      OwnUnescaped(w, x);
    }
  }

  /** A field that is not fine but heard as it should be lies inside another one that is not fine and longer. */
  predicate Inside(raw: bool, v: string, w: string) {
    !Fine(raw, w) && |v| < |Want(raw, w)|
  }

  lemma MoreInside(raw: bool, v: string, w: string)
    requires LeavesMore(w, v)
    ensures Inside(raw, v, w)
  {
    UnescapedShorter(w, false);
    PlainIff(w);
  }

  predicate InsideSome(raw: bool, v: string, r: Con.Report) {
    Inside(raw, v, r.dst) || Inside(raw, v, r.src) || Inside(raw, v, r.helo) || Inside(raw, v, r.from)
    || Inside(raw, v, r.to)
  }

  predicate FieldGives(fs: seq<Field>, i: nat, t: string, name: string, v: string)
    requires i < |fs|
  {
    LeavesMore(fs[i].text, v)
    || (EndsIn(fs[i].name, name) && v == ScanStr(Chunk(fs[i].text, fs[i + 1..], t), false, "").0)
  }

  lemma {:induction false} SourceField(w: string, fs: seq<Field>, t: string, name: string, v: string)
    requires Source(w, fs, t, name, v) && !LeavesMore(w, v)
    ensures exists i: nat :: i < |fs| && FieldGives(fs, i, t, name, v)
    decreases |fs|
  {
    hide LeavesMore, EndsIn, ScanStr, Chunk;
    if FieldGives(fs, 0, t, name, v) {
    } else {
      SourceField(fs[0].text, fs[1..], t, name, v);
      var i: nat :| i < |fs[1..]| && FieldGives(fs[1..], i, t, name, v);
      assert fs[1..][i + 1..] == fs[i + 2..] && fs[1..][i] == fs[i + 1];
      assert FieldGives(fs, i + 1, t, name, v);
    }
  }

  /** The field of a name. */
  function FieldOf(r: Con.Report, name: string): string {
    if name == "dst_ip" then r.dst else if name == "ip" then r.src else if name == "helo" then r.helo
    else if name == "from" then r.from else r.to
  }

  predicate IsFieldName(name: string) {
    name in {"dst_ip", "ip", "helo", "from", "to"}
  }

  lemma NamesApart(i: nat, name: string)
    requires i < 4 && IsFieldName(name) && EndsIn(["ip", "helo", "from", "to"][i], name)
    ensures name == ["ip", "helo", "from", "to"][i]
  {
    var m := ["ip", "helo", "from", "to"][i];
    assert m[|m| - |name|..] == name;
    assert m[|m| - 1] == name[|name| - 1];
  }

  /** A field heard as it should be is fine, or lies inside another field. */
  lemma HeardFine(raw: bool, r: Con.Report, t: string, name: string)
    requires OnLines(r) && IsFieldName(name)
    requires |RunOn(r, t).p.rest| >= |t| && Has(RunOn(r, t).p.config, name, Want(raw, FieldOf(r, name)))
    ensures Fine(raw, FieldOf(r, name)) || InsideSome(raw, Want(raw, FieldOf(r, name)), r)
  {
    hide NextTok, ScanStr, Chunk, Source, RunOn, Has, IsWhole, IsPlain, Inside, LeavesMore, EndsIn, Unescaped;
    hide Fine, OnOneLine, IsWord;
    var w := FieldOf(r, name);
    var v := Want(raw, w);
    WantOnLine(raw, w);
    FieldsNamed(r);
    HeardSource(r, t, name, v);
    if name == "dst_ip" && v == ScanStr(Chunk(r.dst, Fields(r), t), false, "").0 {
      OwnIsFine(raw, w, Fields(r), t);
    } else if LeavesMore(r.dst, v) {
      MoreInside(raw, v, r.dst);
    } else {
      SourceField(r.dst, Fields(r), t, name, v);
      var i: nat :| i < |Fields(r)| && FieldGives(Fields(r), i, t, name, v);
      if LeavesMore(Fields(r)[i].text, v) {
        MoreInside(raw, v, Fields(r)[i].text);
      } else {
        NamesApart(i, name);
        OwnIsFine(raw, w, Fields(r)[i + 1..], t);
      }
    }
  }

  lemma WantOnLine(raw: bool, w: string)
    requires OnOneLine(w)
    ensures '\n' !in Want(raw, w)
  {
    if '\n' in Unescaped(w) {
      UnescapedChars(w, false, '\n');
    }
  }

  // ---------------------------------------------------------------- when a report is heard

  function Wanted(raw: bool, r: Con.Report): Con.Report {
    if raw then r else UnescapedReport(r)
  }

  predicate AllFine(raw: bool, r: Con.Report) {
    if raw then IsPlainReport(r)
    else IsWhole(r.dst) && IsWhole(r.src) && IsWhole(r.helo) && IsWhole(r.from) && IsWhole(r.to)
  }

  /** Every field is fine or lies inside another one; an empty first field need not be heard at all. */
  predicate Chained(raw: bool, r: Con.Report, name: string) {
    || Fine(raw, FieldOf(r, name)) || InsideSome(raw, Want(raw, FieldOf(r, name)), r)
    || (name == "dst_ip" && Want(raw, r.dst) == "")
  }

  predicate AllChained(raw: bool, r: Con.Report) {
    Chained(raw, r, "dst_ip") && Chained(raw, r, "ip") && Chained(raw, r, "helo") && Chained(raw, r, "from")
    && Chained(raw, r, "to")
  }

  function Longest(raw: bool, r: Con.Report): nat {
    |Want(raw, r.dst)| + |Want(raw, r.src)| + |Want(raw, r.helo)| + |Want(raw, r.from)| + |Want(raw, r.to)|
  }

  /** A field of those not fine is longer than all others of them, and lies in none. */
  lemma {:induction false} Climb(raw: bool, r: Con.Report, name: string)
    requires AllChained(raw, r) && IsFieldName(name)
    requires !(name == "dst_ip" && Want(raw, r.dst) == "")
    ensures Fine(raw, FieldOf(r, name))
    decreases Longest(raw, r) - |Want(raw, FieldOf(r, name))|
  {
    hide Fine, Want;
    var v := Want(raw, FieldOf(r, name));
    assert Chained(raw, r, name);
    if !Fine(raw, FieldOf(r, name)) {
      if Inside(raw, v, r.dst) {
        Climb(raw, r, "dst_ip");
      } else if Inside(raw, v, r.src) {
        Climb(raw, r, "ip");
      } else if Inside(raw, v, r.helo) {
        Climb(raw, r, "helo");
      } else if Inside(raw, v, r.from) {
        Climb(raw, r, "from");
      } else {
        Climb(raw, r, "to");
      }
      assert false;
    }
  }

  lemma VarHas(c: Config, name: string, v: string)
    requires GetStr(VarsOf(c), name) == Some(v)
    ensures Has(c, name, v)
  {
    assert DEFAULT_SECTION in c.sections && c.sections[DEFAULT_SECTION][name] == Text(v);
  }

  lemma HeardChained(raw: bool, r: Con.Report, t: string, number: string -> Option<int>)
    requires OnLines(r) && |RunOn(r, t).p.rest| >= |t|
    requires MessageOf(VarsOf(RunOn(r, t).p.config), number) == MessageFor(Wanted(raw, r))
    ensures AllChained(raw, r)
  {
    hide RunOn, Unescaped, Fine, InsideSome, GetStr, VarsOf, Has, IsFieldName;
    var vars := VarsOf(RunOn(r, t).p.config);
    FieldNames();
    NameHeard(raw, r, t, "ip");
    NameHeard(raw, r, t, "helo");
    NameHeard(raw, r, t, "from");
    NameHeard(raw, r, t, "to");
    if GetStr(vars, "dst_ip").Some? {
      NameHeard(raw, r, t, "dst_ip");
    }
  }

  lemma FieldNames()
    ensures IsFieldName("dst_ip") && IsFieldName("ip") && IsFieldName("helo")
    ensures IsFieldName("from") && IsFieldName("to")
  {
  }

  lemma NameHeard(raw: bool, r: Con.Report, t: string, name: string)
    requires OnLines(r) && |RunOn(r, t).p.rest| >= |t| && IsFieldName(name)
    requires GetStr(VarsOf(RunOn(r, t).p.config), name) == Some(Want(raw, FieldOf(r, name)))
    ensures Chained(raw, r, name)
  {
    hide RunOn, Unescaped, Fine, InsideSome, Has;
    VarHas(RunOn(r, t).p.config, name, Want(raw, FieldOf(r, name)));
    HeardFine(raw, r, t, name);
  }

  /** With a lone backslash in the first field the text starts over behind the next opening quote. */
  lemma BehindBackslash(r: Con.Report, t: string)
    requires r.dst == "\\"
    ensures BehindDst(r, t) == Chunk(r.src, Fields(r)[1..], t)
  {
    hide ScanStr;
    var c := Chunk(r.src, Fields(r)[1..], t);
    assert Chunk(r.dst, Fields(r), t) == "\\" + ("\"" + ("\nip = " + "\"" + c)) by {
      ChunkIs(r.dst, Fields(r), t);
      assert "\"\n" + ("ip" + " = \"" + c) == "\"" + ("\nip = " + "\"" + c);
    }
    BackslashScan(c);
  }

  lemma BackslashScan(c: string)
    ensures ScanStr("\\" + ("\"" + ("\nip = " + "\"" + c)), false, "").1 == c
  {
    var w := "\nip = ";
    var u := w + "\"" + c;
    assert ("\\" + ("\"" + u))[1..] == "\"" + u && ("\"" + u)[1..] == u && "" + "\"" == "\"";
    assert ScanStr("\\" + ("\"" + u), false, "") == ScanStr("\"" + u, true, "") == ScanStr(u, false, "\"");
    UnescapedShorter(w, false);
    QuotedScans(w, false, "\"", c);
  }

  lemma LoneBackslash(r: Con.Report, t: string)
    requires r.dst == "\\" && OnLines(r) && |RunOn(r, t).p.rest| >= |t|
    requires IsWhole(r.src) && IsWhole(r.helo) && IsWhole(r.from) && IsWhole(r.to)
    ensures !Has(RunOn(r, t).p.config, "ip", Unescaped(r.src))
  {
    hide ScanStr, RunOn, Has, Unescaped, IsWhole, Chunk, Source, Quoted, IsWord, EndsIn, Assigns;
    var v, fs := Unescaped(r.src), Fields(r)[1..];
    if Has(RunOn(r, t).p.config, "ip", v) {
      HeardFrom(r, t, "ip", v);
      BehindBackslash(r, t);
      var q, e := SiteQuoted(Chunk(r.src, fs, t), "ip", v, |t|);
      FieldsNamed(r);
      WantOnLine(false, r.src);
      ChunkSource(r.src, fs, t, q, e, "ip", v);
      SourceField(r.src, fs, t, "ip", v);
      var i: nat :| i < |fs| && FieldGives(fs, i, t, "ip", v);
      NamesApart(i + 1, "ip");
    }
  }

  lemma NothingIsBackslash(w: string)
    requires !IsWhole(w) && Unescaped(w) == ""
    ensures w == "\\"
  {
    if w != "" {
      NothingLeft(w);
    }
  }

  /** What is heard as it should be has only fine fields. */
  lemma OnlyIf(raw: bool, r: Con.Report, t: string, number: string -> Option<int>)
    requires OnLines(r) && |RunOn(r, t).p.rest| >= |t|
    requires MessageOf(VarsOf(RunOn(r, t).p.config), number) == MessageFor(Wanted(raw, r))
    ensures AllFine(raw, r)
  {
    hide RunOn, Unescaped, IsWhole, IsPlain, VarsOf, Has;
    HeardChained(raw, r, t, number);
    Climb(raw, r, "ip");
    Climb(raw, r, "helo");
    Climb(raw, r, "from");
    Climb(raw, r, "to");
    if Want(raw, r.dst) != "" {
      Climb(raw, r, "dst_ip");
    } else if raw {
      EmptyIsPlain();
    } else if !IsWhole(r.dst) {
      NothingIsBackslash(r.dst);
      LoneBackslash(r, t);
      VarHas(RunOn(r, t).p.config, "ip", Unescaped(r.src));
      assert false;
    }
  }

  lemma EmptyIsPlain()
    ensures IsPlain("")
  {
  }

  /** The reader hears just this report, and goes on with what follows it. */
  predicate Arrives(r: Con.Report, heard: Con.Report, t: string, number: string -> Option<int>) {
    var o := RunOn(r, t);
    o.ok && o.p.rest == t && MessageOf(VarsOf(o.p.config), number) == MessageFor(heard)
  }

  lemma QuotableArrives(r: Con.Report, t: string, number: string -> Option<int>)
    requires IsQuotableReport(r)
    ensures Arrives(r, UnescapedReport(r), t, number)
  {
    var p := Parser(PrintMessage(ReportLines(r)) + t, Eof, NONE, None, Plain, []);
    hide Unescaped, IsQuotable, MessageOf, Assigned, PrintMessage, ReportLines, IsMessage;
    ReportIsMessage(r);
    MessageReads(ReportLines(r), t, p);
    ReportArrives(r, number);
    ReceivedIsAssigned(ReportLines(r));
  }

  lemma EofStops(p: Parser)
    requires p.curr == Eof
    ensures End(Statements(p).p) == Out(true, Advance(p))
  {
    hide NextTok;
  }

  lemma BackslashEnds(x: string)
    ensures NextTok("\\" + x) == Scan(Eof, x)
  {
    assert ("\\" + x)[0] == '\\' && ("\\" + x)[1..] == x;
  }

  lemma QuoteNext(x: string)
    ensures NextTok("\"" + x).rest == ScanStr(x, false, "").1
  {
    assert ("\"" + x)[0] == '"' && ("\"" + x)[1..] == x;
  }

  lemma {:induction false} ChunkLonger(w: string, fs: seq<Field>, t: string)
    ensures |Chunk(w, fs, t)| > |w| + |t|
    decreases |fs|
  {
    if fs != [] {
      ChunkLonger(fs[0].text, fs[1..], t);
    }
  }

  lemma LineHeadPlain(name: string)
    requires IsFieldName(name)
    ensures IsPlain("\n" + name + " = ")
  {
  }

  /** A string that starts at the closing quote of the last field takes some of what is behind the message, if there is
      anything. */
  lemma LastQuoteTakes(t: string)
    ensures ScanStr("\n%\n" + t, false, "").1 == t <==> t == ""
  {
    var x := "\n%\n" + t;
    assert x[1..] == "%\n" + t && ("%\n" + t)[1..] == "\n" + t && ("\n" + t)[1..] == t;
    assert "" + ['\n'] == "\n" && "\n" + ['%'] == "\n%" && "\n%" + ['\n'] == "\n%\n";
    assert ScanStr(x, false, "") == ScanStr("%\n" + t, false, "\n") == ScanStr("\n" + t, false, "\n%");
    assert ScanStr("\n" + t, false, "\n%") == ScanStr(t, false, "\n%\n");
    if t != "" {
      ScanStrShortens(t[1..], false, "\n%\n" + [t[0]]);
      ScanStrShortens(t[1..], true, "\n%\n");
    }
  }

  /** What is left when a cut field ends the message: of an earlier field more than should be left, of the last one
      less, unless nothing should be. */
  lemma CutRest(r: Con.Report, k: nat, t: string)
    requires k < 5 && IsCut(AllFields(r)[k].text)
    ensures var rest := NextTok("\"\n" + BehindField(r, k, t)).rest;
            if k < 4 then |rest| > |t| else rest == t <==> t == ""
  {
    hide NextTok, ScanStr, Chunk, IsPlain;
    var fs := AllFields(r)[k + 1..];
    assert "\"\n" + BehindField(r, k, t) == "\"" + ("\n" + BehindField(r, k, t));
    QuoteNext("\n" + BehindField(r, k, t));
    if k < 4 {
      var c := Chunk(fs[0].text, fs[1..], t);
      assert "\n" + (fs[0].name + " = \"" + c) == "\n" + fs[0].name + " = " + "\"" + c;
      LineHeadPlain(fs[0].name);
      PlainQuoted("\n" + fs[0].name + " = ", c);
      ChunkLonger(fs[0].text, fs[1..], t);
    } else {
      assert "\n" + ("%\n" + t) == "\n%\n" + t;
      LastQuoteTakes(t);
    }
  }

  /** The lines behind field `k`, the end of the message and what is behind that. */
  function BehindField(r: Con.Report, k: nat, t: string): string
    requires k < 5
  {
    var fs := AllFields(r)[k + 1..];
    if fs == [] then "%\n" + t else fs[0].name + " = \"" + Chunk(fs[0].text, fs[1..], t)
  }

  /** The message is over behind the first field that is cut. */
  lemma CutEnds(r: Con.Report, k: nat, t: string)
    requires k < 5 && forall i :: 0 <= i < k ==> IsQuotable(AllFields(r)[i].text)
    requires IsCut(AllFields(r)[k].text)
    ensures var f := AllFields(r)[k];
            var vars := Assigned(LinesBefore(r, k), map[])[f.name := Text(Unescaped(f.text))];
            && RunOn(r, t).ok && RunOn(r, t).p.config == ConfigOf(vars)
            && RunOn(r, t).p.rest == NextTok("\"\n" + BehindField(r, k, t)).rest
  {
    hide NextTok, Statements, ScanStr, RunOn, IsQuotable, IsCut, Unescaped, Chunk, End, Assigned, ConfigOf, LinesBefore;
    var w, fs, x := AllFields(r)[k].text, AllFields(r)[k + 1..], "\"\n" + BehindField(r, k, t);
    RunsTo(r, k, t);
    ChunkIs(w, fs, t);
    CutScan(w, x);
    BackslashEnds(x);
    EofStops(FieldRead(r, k, t));
  }

  /** Only the recipient is cut. */
  predicate LastIsCut(r: Con.Report) {
    IsQuotable(r.dst) && IsQuotable(r.src) && IsQuotable(r.helo) && IsQuotable(r.from) && IsCut(r.to)
  }

  lemma {:induction false} AssignedMore(ls: seq<Line>, l: Line, vars: Vars)
    ensures Assigned(ls + [l], vars) == Assigned(ls, vars)[l.name := ValueAsRead(l.value)]
    decreases |ls|
  {
    hide ValueAsRead;
    if ls == [] {
      assert [] + [l] == [l] && [l][1..] == [];
    } else {
      assert (ls + [l])[1..] == ls[1..] + [l];
      AssignedMore(ls[1..], l, vars[ls[0].name := ValueAsRead(ls[0].value)]);
    }
  }

  lemma LastCutArrives(r: Con.Report, number: string -> Option<int>)
    requires LastIsCut(r)
    ensures Arrives(r, UnescapedReport(r), "", number)
  {
    hide NextTok, RunOn, IsQuotable, IsCut, Unescaped, Assigned, MessageOf;
    var l := Line("to", true, Text(r.to));
    CutEnds(r, 4, "");
    CutRest(r, 4, "");
    AssignedMore(LinesBefore(r, 4), l, map[]);
    assert LinesBefore(r, 4) + [l] == ReportLines(r);
    ReportMeans(r, number);
  }

  /** Of reports with fields that are cut only those are heard whose recipient alone is, and only as the last message
      of all. */
  lemma CutHeardIff(r: Con.Report, t: string, number: string -> Option<int>)
    requires AllFine(false, r) && !IsQuotableReport(r)
    ensures Arrives(r, UnescapedReport(r), t, number) <==> t == "" && LastIsCut(r)
  {
    hide RunOn, IsQuotable, IsCut, NextTok, Assigned, Unescaped, MessageOf;
    var k := if !IsQuotable(r.dst) then 0 else if !IsQuotable(r.src) then 1 else if !IsQuotable(r.helo) then 2
             else if !IsQuotable(r.from) then 3 else 4;
    CutEnds(r, k, t);
    CutRest(r, k, t);
    if t == "" && LastIsCut(r) {
      LastCutArrives(r, number);
    }
  }

  /** A report is heard with its escapes undone, and what follows it is left alone, if and only if its fields can be put
      between quotes, but for a recipient that the limit cuts just before a last backslash when nothing follows. */
  lemma ReportHeardIff(r: Con.Report, t: string, number: string -> Option<int>)
    requires OnLines(r)
    ensures Arrives(r, UnescapedReport(r), t, number) <==> IsQuotableReport(r) || (t == "" && LastIsCut(r))
  {
    hide RunOn, Unescaped, IsQuotable, IsCut, MessageOf, OnLines;
    if IsQuotableReport(r) {
      QuotableArrives(r, t, number);
    } else if AllFine(false, r) {
      CutHeardIff(r, t, number);
    } else if Arrives(r, UnescapedReport(r), t, number) {
      OnlyIf(false, r, t, number);
    }
  }

  lemma PlainReportAsIs(r: Con.Report)
    requires IsPlainReport(r)
    ensures IsQuotableReport(r) && UnescapedReport(r) == r
  {
    PlainIff(r.dst);
    PlainIff(r.src);
    PlainIff(r.helo);
    PlainIff(r.from);
    PlainIff(r.to);
  }

  /** A report is heard as it was made if and only if its fields fit and hold no quote and no backslash. */
  lemma ReportUnchangedIff(r: Con.Report, t: string, number: string -> Option<int>)
    requires OnLines(r)
    ensures Arrives(r, r, t, number) <==> IsPlainReport(r)
  {
    hide RunOn, Unescaped, IsPlain, IsQuotable, MessageOf, OnLines;
    if IsPlainReport(r) {
      PlainReportAsIs(r);
      QuotableArrives(r, t, number);
    } else if Arrives(r, r, t, number) {
      OnlyIf(true, r, t, number);
    }
  }

  // ---------------------------------------------------------------- HELO arguments that are not heard

  function HeloRest(r: Con.Report): seq<Field> {
    [Field("from", r.from), Field("to", r.to)]
  }

  function FirstLines(r: Con.Report): seq<Line> {
    [TYPE_LINE, Line("dst_ip", true, Text(r.dst)), Line("ip", true, Text(r.src))]
  }

  function FirstVars(r: Con.Report): Vars {
    map["type" := Number(Greylister.MSG_GREY), "dst_ip" := Text(Unescaped(r.dst)), "ip" := Text(Unescaped(r.src))]
  }

  lemma FirstAre(r: Con.Report)
    requires IsQuotable(r.dst) && IsQuotable(r.src)
    ensures IsMessage(FirstLines(r)) && Assigned(FirstLines(r), map[]) == FirstVars(r)
  {
    NamesAreNames();
    hide IsName, IsQuotable, Unescaped;
    var ls := FirstLines(r);
    assert ls[1..] == [ls[1], ls[2]] && [ls[1], ls[2]][1..] == [ls[2]] && [ls[2]][1..] == [];
    var v0: Vars := map["type" := Number(Greylister.MSG_GREY)];
    var v1 := v0["dst_ip" := Text(Unescaped(r.dst))];
    var v2 := v1["ip" := Text(Unescaped(r.src))];
    assert Assigned([ls[2]], v1) == Assigned([], v2) == v2;
    assert Assigned([ls[1], ls[2]], v0) == Assigned([ls[2]], v1);
    assert Assigned(ls, map[]) == Assigned([ls[1], ls[2]], v0);
  }

  /** A run on a report, up to its HELO argument. */
  lemma HeloRead(r: Con.Report, t: string)
    requires IsQuotable(r.dst) && IsQuotable(r.src)
    ensures var x := ScanStr(Chunk(r.helo, HeloRest(r), t), false, "");
            var p := Parser("", Eof, ConfigOf(FirstVars(r)["helo" := Text(x.0)]), None, Plain, []);
            RunOn(r, t) == End(Statements(Reader(p, x.1)).p)
  {
    hide NextTok, Chunk, Statements, ScanStr, RunOn, ConfigOf, End, IsQuotable, Assigned, FirstVars;
    RunsTo(r, 2, t);
    FirstAre(r);
    assert AllFields(r)[3..] == HeloRest(r) && LinesBefore(r, 2) == FirstLines(r);
  }

  /** The parser behind the string at the place of the HELO argument. */
  function HeloParser(r: Con.Report, helo: string, rest: string): Parser {
    Reader(Parser("", Eof, ConfigOf(FirstVars(r)["helo" := Text(helo)]), None, Plain, []), rest)
  }

  /** The two lines behind the HELO argument and its closing quote. */
  function HeloTail(r: Con.Report, t: string): string {
    "from = \"" + Chunk(r.from, [Field("to", r.to)], t)
  }

  lemma HeloChunk(r: Con.Report, t: string)
    ensures Chunk(r.helo, HeloRest(r), t) == r.helo + ("\"\n" + HeloTail(r, t))
  {
    ChunkIs(r.helo, HeloRest(r), t);
    hide Chunk;
    assert HeloRest(r)[1..] == [Field("to", r.to)];
  }

  lemma HeloReadAs(r: Con.Report, t: string, helo: string, rest: string)
    requires IsQuotable(r.dst) && IsQuotable(r.src)
    requires ScanStr(r.helo + ("\"\n" + HeloTail(r, t)), false, "") == (helo, rest)
    ensures RunOn(r, t) == End(Statements(HeloParser(r, helo, rest)).p)
  {
    hide NextTok, Chunk, Statements, ScanStr, RunOn, IsQuotable, FirstVars, HeloTail, ConfigOf, End;
    HeloRead(r, t);
    HeloChunk(r, t);
  }

  lemma WordRefused(p: Parser)
    requires p.curr != Eol && p.curr != Eof
    ensures !End(Statements(p).p).ok
  {
  }

  lemma WordNext(b: string, x: string)
    requires b != "" && (IsAlpha(b[0]) || IsDigit(b[0]))
    ensures NextTok(b + x).token != Eol && NextTok(b + x).token != Eof
  {
    assert (b + x)[0] == b[0];
  }

  /** A bare quote with a letter or a digit behind it makes the reader refuse the report, whatever the other fields. */
  lemma ReportRefused(r: Con.Report, a: string, b: string, t: string)
    requires IsQuotable(r.dst) && IsQuotable(r.src) && r.helo == a + ("\"" + b) && IsPlain(a)
    requires b != "" && (IsAlpha(b[0]) || IsDigit(b[0]))
    ensures !RunOn(r, t).ok
  {
    hide NextTok, Statements, ScanStr, RunOn, IsQuotable, FirstVars, HeloTail, End, IsPlain;
    var x := "\"\n" + HeloTail(r, t);
    PlainQuoted(a, b + x);
    assert r.helo + x == a + "\"" + (b + x);
    HeloReadAs(r, t, a, b + x);
    WordNext(b, x);
    WordRefused(HeloParser(r, a, b + x));
  }

  lemma PlainQuoted(a: string, x: string)
    requires IsPlain(a)
    ensures ScanStr(a + "\"" + x, false, "") == (a, x)
  {
    PlainIff(a);
    QuotedScans(a, false, "", x);
    assert "" + a == a;
  }

  // ---------------------------------------------------------------- a HELO argument that changes the message

  /** A semicolon ends a line too. */
  lemma SemicolonEnds(p: Parser, u: string)
    ensures Reader(p, ";" + u) == Reader(p, "\n" + u)
  {
    CharTok(";", u);
    CharTok("\n", u);
  }

  lemma MessageOver(p: Parser, t: string)
    requires p == Reader(p, "\n" + ("%\n" + t))
    ensures End(Statements(p).p) == Out(true, p.(curr := Eol, rest := t))
  {
    hide NextTok, Statement;
    assert "%\n" + t == "%" + ("\n" + t);
    CharTok("\n", "%\n" + t);
    CharTok("%", "\n" + t);
    CharTok("\n", t);
    NothingMore(Reader(p, "%\n" + t));
    LineStep(p);
  }

  const WHITE_LINE := Line("type", false, Number(Greylister.MSG_WHITE))
  const HELO_LINE := Line("helo", false, Text("x"))

  lemma InsertedLines()
    ensures IsLine(WHITE_LINE) && IsLine(HELO_LINE)
    ensures PrintLine(WHITE_LINE) == "type=3" && PrintLine(HELO_LINE) == "helo=\"x\""
    ensures ValueAsRead(WHITE_LINE.value) == Number(Greylister.MSG_WHITE) && ValueAsRead(HELO_LINE.value) == Text("x")
  {
    NamesAreNames();
    hide IsName;
    assert IsPlain("x");
    PlainIff("x");
    assert "type" + "=" + "3" == "type=3" && "helo" + "=" + ("\"" + "x" + "\"") == "helo=\"x\"";
  }

  /** Both inserted lines, in the place of one. */
  lemma InsertedRead(vars: Vars, u: string, p: Parser)
    requires p == Reader(p, ";type=3;helo=\"x\"" + ("\n" + u))
    requires p.section == None && p.value == [] && p.config == ConfigOf(vars)
    ensures Statements(p) == Statements(Reader(p.(config := ConfigOf(
              vars["type" := Number(Greylister.MSG_WHITE)]["helo" := Text("x")])), "\n" + u))
  {
    hide NextTok, Statements, IsLine, ConfigOf, SetVar;
    InsertedLines();
    var more := "helo=\"x\"" + ("\n" + u);
    assert ";type=3;helo=\"x\"" + ("\n" + u) == ";" + ("type=3" + (";" + more));
    SemicolonEnds(p, "type=3" + (";" + more));
    LineFirst(WHITE_LINE, ";" + more, p);
    SetInDefaultOf(vars, "type", Number(Greylister.MSG_WHITE));
    var vars' := vars["type" := Number(Greylister.MSG_WHITE)];
    var q := Reader(p.(config := ConfigOf(vars')), ";" + more);
    SemicolonEnds(q, more);
    LineFirst(HELO_LINE, "\n" + u, q);
    SetInDefaultOf(vars', "helo", Text("x"));
  }

  function LastLines(r: Con.Report): seq<Line> {
    [Line("from", true, Text(r.from)), Line("to", true, Text(r.to))]
  }

  lemma LastRead(vars: Vars, r: Con.Report, t: string, p: Parser)
    requires IsPlain(r.from) && IsPlain(r.to) && p == Reader(p, "\n" + HeloTail(r, t))
    requires p.section == None && p.value == [] && p.config == ConfigOf(vars)
    ensures End(Statements(p).p) ==
            Out(true, p.(curr := Eol, rest := t, config := ConfigOf(vars["from" := Text(r.from)]["to" := Text(r.to)])))
  {
    hide NextTok, Statements, IsName, ConfigOf, IsPlain, IsQuotable, Chunk, PrintLine, Unescaped;
    NamesAreNames();
    MoreNames();
    PlainIff(r.from);
    PlainIff(r.to);
    var ls, fs := LastLines(r), [Field("from", r.from), Field("to", r.to)];
    assert LinesOf(fs) == ls && fs[1..] == [Field("to", r.to)];
    FieldsText(fs, t);
    assert "from" + " = \"" == "from = \"";
    LinesThen(ls, vars, "%\n" + t, p);
    var vars' := vars["from" := Text(r.from)];
    assert ls[1..] == [ls[1]] && [ls[1]][1..] == [];
    assert Assigned([ls[1]], vars') == Assigned([], vars'["to" := Text(r.to)]) == vars'["to" := Text(r.to)];
    assert Assigned(ls, vars) == Assigned([ls[1]], vars');
    MessageOver(Reader(p.(config := ConfigOf(Assigned(ls, vars))), "\n" + ("%\n" + t)), t);
  }

  /** A quote in the HELO argument lets the rest of it set the type of the message. */
  lemma ReportRetyped(r: Con.Report, t: string, number: string -> Option<int>)
    requires IsPlainReport(r.(helo := "x")) && r.helo == "x\";type=3;helo=\"x"
    ensures RunOn(r, t).ok && RunOn(r, t).p.rest == t
    ensures MessageOf(VarsOf(RunOn(r, t).p.config), number) ==
            MessageFor(r.(helo := "x")).(kind := Greylister.MSG_WHITE)
  {
    hide RunOn, IsPlain, VarsOf, RetypedFrom, MessageOf;
    RetypedVars(r, t);
    RetypedMessage(r, number);
  }

  lemma RetypedMessage(r: Con.Report, number: string -> Option<int>)
    requires Unescaped(r.dst) == r.dst && Unescaped(r.src) == r.src
    ensures MessageOf(RetypedFrom(r), number) == MessageFor(r.(helo := "x")).(kind := Greylister.MSG_WHITE)
  {
    hide Unescaped;
  }

  function RetypedFrom(r: Con.Report): Vars {
    FirstVars(r)["helo" := Text("x")]["type" := Number(Greylister.MSG_WHITE)]["helo" := Text("x")]
      ["from" := Text(r.from)]["to" := Text(r.to)]
  }

  lemma RetypedVars(r: Con.Report, t: string)
    requires IsPlainReport(r.(helo := "x")) && r.helo == "x\";type=3;helo=\"x"
    ensures RunOn(r, t).ok && RunOn(r, t).p.rest == t && VarsOf(RunOn(r, t).p.config) == RetypedFrom(r)
    ensures Unescaped(r.dst) == r.dst && Unescaped(r.src) == r.src
  {
    hide NextTok, Statements, ScanStr, RunOn, IsQuotable, FirstVars, HeloTail, IsPlain, Unescaped, End;
    PlainIff(r.dst);
    PlainIff(r.src);
    var u := "\n" + HeloTail(r, t);
    var rest := ";type=3;helo=\"x\"" + u;
    assert r.helo + ("\"" + u) == "x" + "\"" + rest;
    assert "\"\n" + HeloTail(r, t) == "\"" + u;
    PlainQuoted("x", rest);
    HeloReadAs(r, t, "x", rest);
    var vars := FirstVars(r)["helo" := Text("x")];
    InsertedRead(vars, HeloTail(r, t), HeloParser(r, "x", rest));
    var vars' := vars["type" := Number(Greylister.MSG_WHITE)]["helo" := Text("x")];
    LastRead(vars', r, t, Reader(HeloParser(r, "x", rest).(config := ConfigOf(vars')), u));
  }
}
