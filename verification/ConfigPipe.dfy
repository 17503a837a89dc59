/** Messages between the processes, printed as assignments up to a percent sign and read by the configuration parser. */
module ConfigPipe {
  import opened Wrappers
  import opened ConfigLexer
  import opened Numerals
  import opened ConfigParser
  import Hash

  // ---------------------------------------------------------------- printing

  predicate IsItem(v: Value) {
    match v
    case Number(i) => i >= 0
    case Text(s) => IsQuotable(s)
    case Many(_) => false
  }

  /** What is left of a quoted string: a backslash goes and keeps the character behind it from meaning anything else. */
  function Unescaped(w: string): string {
    UnescapedFrom(w, false)
  }

  function UnescapedFrom(w: string, escaped: bool): string {
    if w == "" then ""
    else if w[0] == '\\' && !escaped then UnescapedFrom(w[1..], true)
    else [w[0]] + UnescapedFrom(w[1..], false)
  }

  /** No quote but behind a backslash, and no lone backslash at the end. */
  predicate Encloses(w: string, escaped: bool) {
    if w == "" then !escaped
    else if w[0] == '"' && !escaped then false
    else Encloses(w[1..], w[0] == '\\' && !escaped)
  }

  /** What can be put between quotes: the closing quote is the first that ends it, and what is left finds room. */
  predicate IsQuotable(s: string) {
    Encloses(s, false) && |Unescaped(s)| <= MAX_STR_LEN + 1
  }

  /** What is read back as it is: room for it, and no character with a meaning of its own. */
  predicate IsPlain(s: string) {
    |s| <= MAX_STR_LEN + 1 && '"' !in s && '\\' !in s
  }

  predicate IsName(name: string) {
    && name != "" && 'a' <= name[0] <= 'z' && |name| <= Hash.MAX_KEY_LEN && WordToken(name).Name?
    && forall i :: 0 <= i < |name| ==> 'a' <= name[i] <= 'z' || IsDigit(name[i]) || name[i] == '_'
  }

  predicate IsValue(v: Value) {
    if v.Many? then v.vs != [] && forall i :: 0 <= i < |v.vs| ==> IsItem(v.vs[i]) else IsItem(v)
  }

  /** Lists are not nested. */
  function PrintItem(v: Value): string {
    match v
    case Number(i) => if i < 0 then "-" + Decimal(-i) else Decimal(i)
    case Text(s) => "\"" + s + "\""
    case Many(_) => ""
  }

  function PrintMore(vs: seq<Value>): string {
    if vs == [] then "" else "," + PrintItem(vs[0]) + PrintMore(vs[1..])
  }

  /** Items with commas between them. */
  function Joined(vs: seq<Value>): string {
    if vs == [] then "" else PrintItem(vs[0]) + PrintMore(vs[1..])
  }

  function PrintValue(v: Value): string {
    if v.Many? then "[" + Joined(v.vs) + "]" else PrintItem(v)
  }

  /** An assignment, with or without blanks around its sign. */
  datatype Line = Line(name: string, spaced: bool, value: Value)

  predicate IsLine(l: Line) {
    IsName(l.name) && IsValue(l.value)
  }

  predicate IsMessage(ls: seq<Line>) {
    ls != [] && forall i :: 0 <= i < |ls| ==> IsLine(ls[i])
  }

  function PrintLine(l: Line): string {
    l.name + Sign(l.spaced) + PrintValue(l.value)
  }

  function PrintLines(ls: seq<Line>): string {
    if ls == [] then "" else PrintLine(ls[0]) + "\n" + PrintLines(ls[1..])
  }

  function PrintMessage(ls: seq<Line>): string {
    PrintLines(ls) + "%\n"
  }

  function PrintMessages(ms: seq<seq<Line>>): string {
    if ms == [] then "" else PrintMessage(ms[0]) + PrintMessages(ms[1..])
  }

  // ---------------------------------------------------------------- reading

  /** A printed item as it is read. */
  function AsRead(v: Value): Value {
    match v
    case Number(i) => Number(i)
    case Text(s) => Text(Unescaped(s))
    case Many(_) => Many([])
  }

  function AllAsRead(vs: seq<Value>): seq<Value> {
    if vs == [] then [] else [AsRead(vs[0])] + AllAsRead(vs[1..])
  }

  function ValueAsRead(v: Value): Value {
    if v.Many? then Many(AllAsRead(v.vs)) else AsRead(v)
  }

  /** The variables that assignments leave behind. */
  function Assigned(ls: seq<Line>, vars: Vars): Vars {
    if ls == [] then vars else Assigned(ls[1..], vars[ls[0].name := ValueAsRead(ls[0].value)])
  }

  function ConfigOf(vars: Vars): Config {
    NONE.(sections := map[DEFAULT_SECTION := vars])
  }

  /** The parser at the start of `t`, its first token read. */
  function Reader(p: Parser, t: string): Parser {
    p.(curr := NextTok(t).token, rest := NextTok(t).rest)
  }

  // ---------------------------------------------------------------- tokens

  lemma {:induction false} DecimalScans(n: nat, t: string)
    ensures ScanInt(Decimal(n) + t, 0) == ScanInt(t, n)
  {
    if n < 10 {
      assert (Decimal(n) + t)[1..] == t;
    } else {
      var last := [DigitChar(n % 10)];
      DecimalScans(n / 10, last + t);
      assert Decimal(n) + t == Decimal(n / 10) + (last + t);
      assert (last + t)[1..] == t;
    }
  }

  /** What a token must be followed by to end there. */
  predicate Ends(t: string) {
    t != "" && !IsWordChar(t[0])
  }

  lemma IntToken(n: nat, t: string)
    requires Ends(t)
    ensures NextTok(Decimal(n) + t) == Scan(Int(n), t)
  {
    var u := Decimal(n) + t;
    DecimalScans(n, t);
    DecimalDigits(n);
    assert ScanInt(u, 0) == ScanInt(u[1..], Digit(u[0]));
  }

  lemma {:induction false} WordScans(w: string, word: string, t: string)
    requires Ends(t) && |word| + |w| <= MAX_STR_LEN
    requires forall i :: 0 <= i < |w| ==> 'a' <= w[i] <= 'z' || IsDigit(w[i]) || w[i] == '_'
    ensures ScanWord(w + t, word) == (word + w, t)
    decreases |w|
  {
    if w == "" {
      assert w + t == t && word + w == word;
    } else {
      WordScans(w[1..], word + [w[0]], t);
      assert (w + t)[1..] == w[1..] + t;
      assert word + [w[0]] + w[1..] == word + w;
    }
  }

  lemma NameToken(name: string, t: string)
    requires IsName(name) && Ends(t)
    ensures NextTok(name + t) == Scan(Name(name), t)
  {
    WordScans(name[1..], [name[0]], t);
    assert (name + t)[1..] == name[1..] + t;
    assert [name[0]] + name[1..] == name;
  }

  /** A scan comes to the closing quote with just what is left of `w` exactly when `w` can be put between quotes. */
  lemma {:induction false} QuotedScans(w: string, escaped: bool, s: string, t: string)
    requires |s| <= MAX_STR_LEN + 1 && (escaped ==> |s| <= MAX_STR_LEN)
    ensures var r := ScanStr(w + "\"" + t, escaped, s);
            && (r == (s + UnescapedFrom(w, escaped), t)
                <==> Encloses(w, escaped) && |s| + |UnescapedFrom(w, escaped)| <= MAX_STR_LEN + 1)
            && |r.0| >= |s|
    decreases |w|
  {
    var u := w + "\"" + t;
    if w == "" {
      assert u[1..] == t && s + "" == s;
      if escaped {
        QuoteTaken(s, t);
      }
    } else {
      assert u[0] == w[0] && u[1..] == w[1..] + "\"" + t;
      if w[0] == '"' && !escaped {
      } else if |s| > MAX_STR_LEN {
        assert |u| > |t|;
        if Encloses(w, false) {
          SomeLeft(w);
        }
      } else if w[0] == '\\' && !escaped {
        QuotedScans(w[1..], true, s, t);
      } else {
        QuotedScans(w[1..], false, s + [w[0]], t);
        assert s + [w[0]] + UnescapedFrom(w[1..], false) == s + UnescapedFrom(w, escaped);
      }
    }
  }

  /** An escaped closing quote belongs to the string. */
  lemma QuoteTaken(s: string, t: string)
    requires |s| <= MAX_STR_LEN
    ensures ScanStr("\"" + t, true, s) == ScanStr(t, false, s + "\"") && |ScanStr(t, false, s + "\"").0| > |s|
  {
    assert ("\"" + t)[1..] == t;
    ScanGrows(t, false, s + "\"");
  }

  lemma {:induction false} ScanGrows(t: string, escaped: bool, s: string)
    ensures |ScanStr(t, escaped, s).0| >= |s|
    decreases |t|
  {
    if t != "" {
      ScanGrows(t[1..], true, s);
      ScanGrows(t[1..], false, s + [t[0]]);
    }
  }

  lemma SomeLeft(w: string)
    requires w != "" && Encloses(w, false)
    ensures Unescaped(w) != ""
  {
    if w[0] == '\\' {
      assert Encloses(w[1..], true) && UnescapedFrom(w[1..], true) != "";
    }
  }

  /** A quoted string is read back with its escapes undone, up to the quote behind it, exactly when it can be put
      between quotes. */
  lemma QuotedTokenIff(w: string, t: string)
    ensures NextTok("\"" + w + "\"" + t) == Scan(Str(Unescaped(w)), t) <==> IsQuotable(w)
  {
    var u := "\"" + w + "\"" + t;
    QuotedScans(w, false, "", t);
    assert u[0] == '"' && u[1..] == w + "\"" + t && "" + Unescaped(w) == Unescaped(w);
  }

  /** Undoing escapes changes every string but those that have none. */
  lemma {:induction false} UnescapedShorter(w: string, escaped: bool)
    ensures |UnescapedFrom(w, escaped)| <= |w|
    ensures !escaped ==> (UnescapedFrom(w, escaped) == w <==> '\\' !in w)
    ensures !escaped && '\\' in w ==> |UnescapedFrom(w, escaped)| < |w|
    ensures !escaped && '\\' !in w ==> (Encloses(w, escaped) <==> '"' !in w)
  {
    if w != "" {
      UnescapedShorter(w[1..], true);
      UnescapedShorter(w[1..], false);
      assert w == [w[0]] + w[1..];
    }
  }

  /** The strings that can be put between quotes and are read back as they are. */
  lemma PlainIff(s: string)
    ensures IsPlain(s) <==> IsQuotable(s) && Unescaped(s) == s
  {
    UnescapedShorter(s, false);
  }

  lemma StringToken(s: string, t: string)
    requires IsPlain(s)
    ensures NextTok("\"" + s + "\"" + t) == Scan(Str(s), t)
  {
    PlainIff(s);
    QuotedTokenIff(s, t);
  }

  /** A scan that loses no character copies what it takes, and after the first of it finds no quote and no backslash. */
  lemma {:induction false} LosslessScan(t: string, escaped: bool, s: string)
    requires |s| <= MAX_STR_LEN + 1
    ensures var r := ScanStr(t, escaped, s);
            var n := |t| - |r.1|;
            && 0 <= |r.0| - |s| <= n && |r.0| <= MAX_STR_LEN + 1
            && (|r.0| - |s| == n ==>
                  r.0 == s + t[..n] && forall i :: (if escaped then 1 else 0) <= i < n ==> t[i] != '"' && t[i] != '\\')
    decreases |t|
  {
    if t == "" || (t[0] == '"' && !escaped) || |s| > MAX_STR_LEN {
      assert s + t[..0] == s;
    } else if t[0] == '\\' && !escaped {
      LosslessScan(t[1..], true, s);
    } else {
      LosslessScan(t[1..], false, s + [t[0]]);
      var r := ScanStr(t[1..], false, s + [t[0]]);
      var n := |t| - |r.1|;
      if |r.0| - |s| == n {
        assert n >= 1 && t[..n] == [t[0]] + t[1..][..n - 1];
        assert s + [t[0]] + t[1..][..n - 1] == s + t[..n];
        forall i | 1 <= i < n ensures t[i] != '"' && t[i] != '\\' {
          assert t[i] == t[1..][i - 1];
        }
      }
    }
  }

  /** The scan up to the first special character of `w`. */
  lemma {:induction false} PlainPrefix(w: string, k: nat, t: string, s: string)
    requires k <= |w| && |s| + k <= MAX_STR_LEN + 1 && '"' !in w[..k] && '\\' !in w[..k]
    ensures ScanStr(w + t, false, s) == ScanStr(w[k..] + t, false, s + w[..k])
    decreases k
  {
    if k == 0 {
      assert s + w[..0] == s && w[0..] == w;
    } else {
      var u := w + t;
      assert u[0] == w[0] && u[1..] == w[1..] + t && w[0] in w[..k];
      assert w[1..][..k - 1] == w[1..k] && w[..k] == [w[0]] + w[1..k];
      PlainPrefix(w[1..], k - 1, t, s + [w[0]]);
      assert w[1..][k - 1..] == w[k..] && s + [w[0]] + w[1..k] == s + w[..k];
    }
  }

  /** A quoted string is read back as it is, up to the quote behind it, exactly when there is room for it and it holds
      no quote and no backslash. */
  lemma StringTokenIff(w: string, t: string)
    ensures NextTok("\"" + w + "\"" + t) == Scan(Str(w), t) <==> IsPlain(w)
  {
    if IsPlain(w) {
      StringToken(w, t);
    } else {
      var u := w + ("\"" + t);
      assert ("\"" + w + "\"" + t)[1..] == u;
      LosslessScan(u, false, "");
      if |w| <= MAX_STR_LEN + 1 {
        SpecialSpoils(w, t);
      }
    }
  }

  /** A scan at a quote ends, and one at a backslash goes on behind it. */
  lemma ScanAtSpecial(w: string, t: string, s: string)
    requires w != "" && (w[0] == '"' || w[0] == '\\') && |s| <= MAX_STR_LEN
    ensures w[0] == '"' ==> ScanStr(w + t, false, s).0 == s
    ensures w[0] == '\\' ==> ScanStr(w + t, false, s) == ScanStr(w[1..] + t, true, s)
  {
    assert (w + t)[0] == w[0] && (w + t)[1..] == w[1..] + t;
  }

  lemma SpecialSpoils(w: string, t: string)
    requires |w| <= MAX_STR_LEN + 1 && ('"' in w || '\\' in w)
    ensures ScanStr(w + ("\"" + t), false, "") != (w, t)
  {
    hide ScanStr;
    var k := FirstSpecial(w);
    var end := "\"" + t;
    PlainPrefix(w, k, end, "");
    assert "" + w[..k] == w[..k];
    ScanAtSpecial(w[k..], end, w[..k]);
    if w[k] == '\\' {
      assert w[k..][1..] == w[k + 1..];
      EscapeSpoils(w, k, t);
    }
  }

  /** Behind a backslash the scan cannot give back `w`: it would have to copy the closing quote. */
  lemma EscapeSpoils(w: string, k: nat, t: string)
    requires k < |w| <= MAX_STR_LEN + 1 && w[k] == '\\'
    ensures ScanStr(w[k + 1..] + ("\"" + t), true, w[..k]) != (w, t)
  {
    hide ScanStr;
    var u := w[k + 1..] + ("\"" + t);
    LosslessScan(u, true, w[..k]);
    assert u[|u| - |t| - 1] == '"';
  }

  function FirstSpecial(w: string): (k: nat)
    requires '"' in w || '\\' in w
    ensures k < |w| && (w[k] == '"' || w[k] == '\\') && '"' !in w[..k] && '\\' !in w[..k]
  {
    if w[0] == '"' || w[0] == '\\' then 0 else
    var k := FirstSpecial(w[1..]);
    assert w[..k + 1] == [w[0]] + w[1..][..k];
    k + 1
  }

  lemma CharTok(c: string, t: string)
    requires |c| == 1 && c[0] in ";\n,={}[]%"
    ensures NextTok(c + t) == Scan(CharToken(c[0]), t)
  {
    assert (c + t)[1..] == t;
  }

  function ItemToken(v: Value): Token
    requires IsItem(v)
  {
    match v case Number(i) => Int(i) case Text(s) => Str(Unescaped(s))
  }

  lemma ItemScans(v: Value, t: string)
    requires IsItem(v) && Ends(t)
    ensures NextTok(PrintItem(v) + t) == Scan(ItemToken(v), t)
  {
    match v
    case Number(i) => IntToken(i, t);
    case Text(s) => QuotedTokenIff(s, t);
  }

  // ---------------------------------------------------------------- lists and assignments

  predicate AreItems(vs: seq<Value>) {
    forall i :: 0 <= i < |vs| ==> IsItem(vs[i])
  }

  lemma ItemReads(v: Value, t: string, p: Parser)
    requires IsItem(v) && Ends(t) && p == Reader(p, PrintItem(v) + t)
    ensures ListValue(p) == Out(true, Reader(p.(value := p.value + [AsRead(v)]), t))
  {
    hide NextTok;
    ItemScans(v, t);
  }

  lemma CommaReads(v: Value, t: string, p: Parser)
    requires IsItem(v) && Ends(t) && p == Reader(p, "," + (PrintItem(v) + t))
    ensures ListValues(p) == Out(true, ListValues(Reader(p.(value := p.value + [AsRead(v)]), t)).p)
  {
    hide NextTok, ListValue, PrintItem, Ends;
    CharTok(",", PrintItem(v) + t);
    ItemScans(v, t);
    ItemReads(v, t, Reader(p, PrintItem(v) + t));
  }

  lemma NoMoreReads(t: string, p: Parser)
    requires p == Reader(p, "]" + t)
    ensures ListValues(p) == Out(true, Reader(p, "]" + t))
  {
    hide NextTok;
    CharTok("]", t);
  }

  lemma {:induction false} MoreReads(vs: seq<Value>, t: string, p: Parser)
    requires AreItems(vs) && p == Reader(p, PrintMore(vs) + "]" + t)
    ensures ListValues(p) == Out(true, Reader(p.(value := p.value + AllAsRead(vs)), "]" + t))
    decreases vs
  {
    hide NextTok, PrintItem, ListValues;
    if vs == [] {
      assert PrintMore(vs) + "]" + t == "]" + t && p.value + AllAsRead(vs) == p.value;
      NoMoreReads(t, p);
    } else {
      var u := PrintMore(vs[1..]) + "]" + t;
      assert PrintMore(vs) + "]" + t == "," + (PrintItem(vs[0]) + u);
      CommaReads(vs[0], u, p);
      MoreReads(vs[1..], t, Reader(p.(value := p.value + [AsRead(vs[0])]), u));
      assert p.value + [AsRead(vs[0])] + AllAsRead(vs[1..]) == p.value + AllAsRead(vs);
    }
  }

  lemma ItemsRead(vs: seq<Value>, t: string, p: Parser)
    requires AreItems(vs) && vs != [] && p.value == []
    requires p == Reader(p, PrintItem(vs[0]) + PrintMore(vs[1..]) + "]" + t)
    ensures ListStatements(p) == Out(true, Reader(p.(value := AllAsRead(vs)), "]" + t))
    ensures p.curr == ItemToken(vs[0])
  {
    hide NextTok, ListValue, ListValues;
    var u := PrintMore(vs[1..]) + "]" + t;
    assert PrintItem(vs[0]) + PrintMore(vs[1..]) + "]" + t == PrintItem(vs[0]) + u;
    ItemScans(vs[0], u);
    ItemReads(vs[0], u, p);
    MoreReads(vs[1..], t, Reader(p.(value := [AsRead(vs[0])]), u));
    assert [] + [AsRead(vs[0])] == [AsRead(vs[0])] && [AsRead(vs[0])] + AllAsRead(vs[1..]) == AllAsRead(vs);
  }

  lemma ListReads(vs: seq<Value>, t: string, p: Parser)
    requires AreItems(vs) && vs != [] && p == Reader(p, PrintValue(Many(vs)) + t)
    ensures ListRule(p) == Out(true, Reader(p.(value := AllAsRead(vs)), t)) && p.curr == SqBrackL
  {
    hide NextTok, ListStatements, PrintMore, PrintItem, AllAsRead, IsItem;
    var u := PrintItem(vs[0]) + PrintMore(vs[1..]) + "]" + t;
    assert PrintValue(Many(vs)) + t == "[" + u;
    CharTok("[", u);
    ItemsRead(vs, t, Reader(p.(value := []), u));
    CharTok("]", t);
  }

  /** The text between the name and the value of an assignment. */
  function Sign(spaced: bool): string {
    if spaced then " = " else "="
  }

  lemma SignReads(spaced: bool, t: string)
    ensures NextTok(Sign(spaced) + t).token == Eq && NextTok(NextTok(Sign(spaced) + t).rest) == NextTok(t)
  {
    if spaced {
      assert Sign(spaced) + t == " " + ("=" + (" " + t));
      CharTok("=", " " + t);
    } else {
      CharTok("=", t);
    }
  }

  lemma LineReads(l: Line, t: string, p: Parser)
    requires IsLine(l) && Ends(t) && p == Reader(p, PrintLine(l) + t) && p.value == []
    ensures Assignment(p) ==
            Out(true, Reader(p.(config := SetVar(p.config, p.section, l.name, ValueAsRead(l.value))), t))
    ensures p.curr == Name(l.name)
  {
    hide NextTok, SetVar, ListRule, PrintItem, PrintMore, IsName;
    var u := PrintValue(l.value) + t;
    var v := Sign(l.spaced) + u;
    assert PrintLine(l) + t == l.name + v;
    NameToken(l.name, v);
    SignReads(l.spaced, u);
    var q := Reader(p, u);
    if l.value.Many? {
      ListReads(l.value.vs, t, q);
    } else {
      ItemScans(l.value, t);
    }
  }

  // ---------------------------------------------------------------- messages

  predicate AreLines(ls: seq<Line>) {
    forall i :: 0 <= i < |ls| ==> IsLine(ls[i])
  }

  lemma LineStep(p: Parser)
    requires p.curr == Eol && Advance(p).curr != Eol
    ensures var s := Statement(Advance(p));
            Statements(p) == if s.ok then Statements(s.p) else Out(true, s.p)
  {
    hide NextTok, Statement;
  }

  lemma AssignmentFirst(p: Parser)
    requires Assignment(p).ok
    ensures Statement(p) == Assignment(p)
  {
    hide Assignment;
  }

  /** At the end of a line, with the other lines of the message to come. */
  lemma {:induction false} LinesRead(ls: seq<Line>, vars: Vars, t: string, p: Parser)
    requires AreLines(ls) && p == Reader(p, "\n" + PrintLines(ls) + "%" + t)
    requires p.section == None && p.value == [] && p.config == ConfigOf(vars)
    ensures Statements(p) == Out(true, p.(curr := Eof, rest := t, config := ConfigOf(Assigned(ls, vars))))
    decreases ls
  {
    hide NextTok, SetVar, Assignment, Statement, Statements, PrintLine, ConfigOf, IsLine;
    var text := PrintLines(ls) + "%" + t;
    assert "\n" + PrintLines(ls) + "%" + t == "\n" + text;
    CharTok("\n", text);
    var q := Reader(p, text);
    if ls == [] {
      assert text == "%" + t;
      CharTok("%", t);
      NothingMore(q);
    } else {
      var more := "\n" + PrintLines(ls[1..]) + "%" + t;
      assert text == PrintLine(ls[0]) + more;
      LineReads(ls[0], more, q);
      AssignmentFirst(q);
      SetInDefault(vars, ls[0]);
      LinesRead(ls[1..], vars[ls[0].name := ValueAsRead(ls[0].value)], t, Assignment(q).p);
    }
    LineStep(p);
  }

  lemma NothingMore(p: Parser)
    requires p.curr == Eof
    ensures Statement(p) == Out(false, p)
  {
  }

  lemma SetInDefault(vars: Vars, l: Line)
    requires IsLine(l)
    ensures SetVar(ConfigOf(vars), None, l.name, ValueAsRead(l.value)) == ConfigOf(vars[l.name := ValueAsRead(l.value)])
  {
    assert map[DEFAULT_SECTION := vars][DEFAULT_SECTION := vars[l.name := ValueAsRead(l.value)]]
        == map[DEFAULT_SECTION := vars[l.name := ValueAsRead(l.value)]];
  }

  /** Reading one printed message gives back its assignments and leaves the parser at the start of the next. */
  lemma MessageReads(ls: seq<Line>, t: string, p: Parser)
    requires IsMessage(ls) && p.rest == PrintMessage(ls) + t && p.section == None && p.value == []
    ensures Start(p, NONE) == Out(true, p.(curr := Eol, rest := t, config := ConfigOf(Assigned(ls, map[]))))
  {
    hide NextTok, SetVar, Assignment, PrintLine, IsLine, Statements;
    var end := "\n" + PrintLines(ls[1..]) + "%" + ("\n" + t);
    assert p.rest == PrintLine(ls[0]) + end;
    var q := Reader(p.(config := WithDefault(NONE)), p.rest);
    LineReads(ls[0], end, q);
    SetInDefault(map[], ls[0]);
    LinesRead(ls[1..], map[ls[0].name := ValueAsRead(ls[0].value)], "\n" + t, Assignment(q).p);
    CharTok("\n", t);
  }

  /** The results of `n` runs of the parser, each with a new configuration. */
  function StartAll(p: Parser, n: nat): (seq<Config>, Parser)
    decreases n
  {
    if n == 0 then ([], p) else
    var o := Start(p, NONE);
    var all := StartAll(o.p, n - 1);
    ([o.p.config] + all.0, all.1)
  }

  function Read(ms: seq<seq<Line>>): seq<Config> {
    if ms == [] then [] else [ConfigOf(Assigned(ms[0], map[]))] + Read(ms[1..])
  }

  /** As many runs as there are messages give back exactly those messages in order and use up the text. */
  lemma {:induction false} MessagesRead(ms: seq<seq<Line>>, t: string, p: Parser)
    requires forall i :: 0 <= i < |ms| ==> IsMessage(ms[i])
    requires p.rest == PrintMessages(ms) + t && p.section == None && p.value == []
    ensures StartAll(p, |ms|).0 == Read(ms) && StartAll(p, |ms|).1.rest == t
    decreases ms
  {
    hide Start, PrintMessage, IsMessage;
    if ms == [] {
      assert PrintMessages(ms) + t == t;
    } else {
      assert p.rest == PrintMessage(ms[0]) + (PrintMessages(ms[1..]) + t);
      MessageReads(ms[0], PrintMessages(ms[1..]) + t, p);
      MessagesRead(ms[1..], t, Start(p, NONE).p);
    }
  }
}
