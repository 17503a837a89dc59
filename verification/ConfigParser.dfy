/** The grammar of the configuration language, over a parser's state. */
module ConfigParser {
  import opened Wrappers
  import opened ConfigLexer
  import opened Lexer
  import Hash

  datatype Value = Number(i: int) | Text(s: string) | Many(vs: seq<Value>)

  type Vars = map<string, Value>

  datatype Kind = Plain | Black | White

  /** Sections by name; `includes` are the patterns in the order met. */
  datatype Config = Config(sections: map<string, Vars>, blacklists: map<string, Vars>, whitelists: map<string, Vars>,
                           includes: seq<string>)

  const NONE := Config(map[], map[], map[], [])
  const DEFAULT_SECTION := "default"

  /** `section` is the section being filled, `value` the list being filled. */
  datatype Parser = Parser(rest: string, curr: Token, config: Config, section: Option<(Kind, string)>, kind: Kind,
                           value: seq<Value>)

  datatype Out = Out(ok: bool, p: Parser)

  // ---------------------------------------------------------------- configurations

  /** Adds an empty section, in place of one of the same name. */
  function AddSection(c: Config, kind: Kind, name: string): Config {
    match kind
    case Plain => c.(sections := c.sections[name := map[]])
    case Black => c.(blacklists := c.blacklists[name := map[]])
    case White => c.(whitelists := c.whitelists[name := map[]])
  }

  /** The keys of the hash tables are cut off. */
  function SetIn(sections: map<string, Vars>, name: string, variable: string, v: Value): map<string, Vars> {
    if name in sections then sections[name := sections[name][Hash.Truncated(variable) := v]] else sections
  }

  function SetVar(c: Config, section: Option<(Kind, string)>, variable: string, v: Value): Config {
    match section
    case None => c.(sections := SetIn(c.sections, DEFAULT_SECTION, variable, v))
    case Some((Plain, name)) => c.(sections := SetIn(c.sections, name, variable, v))
    case Some((Black, name)) => c.(blacklists := SetIn(c.blacklists, name, variable, v))
    case Some((White, name)) => c.(whitelists := SetIn(c.whitelists, name, variable, v))
  }

  function WithDefault(c: Config): Config {
    if DEFAULT_SECTION in c.sections then c else AddSection(c, Plain, DEFAULT_SECTION)
  }

  // ---------------------------------------------------------------- tokens

  /** What is left to parse: no function of the grammar makes it more. */
  function Left(p: Parser): nat {
    |p.rest| + if p.curr == Eof then 0 else 1
  }

  function Advance(p: Parser): (q: Parser)
    ensures Left(q) <= |p.rest|
  {
    var r := NextTok(p.rest);
    p.(rest := r.rest, curr := r.token)
  }

  function SkipEols(p: Parser): (q: Parser)
    ensures Left(q) <= |p.rest|
    decreases |p.rest|
  {
    var q := Advance(p);
    if q.curr == Eol then SkipEols(q) else q
  }

  /** One token, or for ends of lines all that follow each other. */
  function Accept(p: Parser, t: Token): (o: Out)
    ensures Left(o.p) <= Left(p)
    ensures o.ok ==> p.curr == t && (t != Eof ==> Left(o.p) < Left(p))
    ensures !o.ok ==> p.curr != t && o.p == p
  {
    if p.curr != t then Out(false, p) else Out(true, if t == Eol then SkipEols(p) else Advance(p))
  }

  // ---------------------------------------------------------------- grammar

  function Statements(p: Parser): (o: Out)
    ensures Left(o.p) <= Left(p) && o.ok
    decreases Left(p), 4
  {
    var eol := Accept(p, Eol);
    if !eol.ok then Out(true, eol.p) else
    var s := Statement(eol.p);
    if s.ok then Statements(s.p) else Out(true, s.p)
  }

  function Statement(p: Parser): (o: Out)
    ensures Left(o.p) <= Left(p)
    decreases Left(p), 3
  {
    var a := Assignment(p);
    if a.ok then a else
    var s := SectionRule(a.p);
    if s.ok then s else IncludeRule(s.p)
  }

  function Assignment(p: Parser): (o: Out)
    ensures Left(o.p) <= Left(p)
    decreases Left(p), 2
  {
    if !p.curr.Name? then Out(false, p) else
    var eq := Accept(Advance(p), Eq);
    if !eq.ok then Out(false, eq.p)
    else if eq.p.curr.Int? then
      Out(true, Advance(eq.p.(config := SetVar(eq.p.config, eq.p.section, p.curr.name, Number(eq.p.curr.i)))))
    else if eq.p.curr.Str? then
      Out(true, Advance(eq.p.(config := SetVar(eq.p.config, eq.p.section, p.curr.name, Text(eq.p.curr.s)))))
    else
      var l := ListRule(eq.p);
      if !l.ok then l
      else Out(true, l.p.(config := SetVar(l.p.config, l.p.section, p.curr.name, Many(l.p.value)), value := []))
  }

  /** A closing bracket, on the same line or at the start of a later one. */
  function Closing(p: Parser, bracket: Token): (o: Out)
    ensures Left(o.p) <= Left(p)
  {
    var eol := Accept(p, Eol);
    var first := if eol.ok then Accept(eol.p, bracket) else Out(false, eol.p);
    if first.ok then first else Accept(first.p, bracket)
  }

  function ListRule(p: Parser): (o: Out)
    ensures Left(o.p) <= Left(p)
    decreases Left(p), 1
  {
    var open := Accept(p, SqBrackL);
    if !open.ok then open else
    var q := open.p.(value := []);
    var eol := Accept(q, Eol);
    var first := if eol.ok then ListStatements(eol.p) else Out(false, eol.p);
    var items := if first.ok then first else ListStatements(first.p);
    if items.ok then Closing(items.p, SqBrackR) else items
  }

  function ListStatements(p: Parser): (o: Out)
    ensures Left(o.p) <= Left(p)
    decreases Left(p), 0
  {
    var v := ListValue(p);
    if v.ok then ListValues(v.p) else v
  }

  function ListValue(p: Parser): (o: Out)
    ensures Left(o.p) <= Left(p) && (o.ok ==> Left(o.p) < Left(p))
    decreases Left(p)
  {
    if p.curr.Int? then Out(true, Advance(p).(value := p.value + [Number(p.curr.i)]))
    else if p.curr.Str? then Out(true, Advance(p).(value := p.value + [Text(p.curr.s)]))
    else Out(false, p)
  }

  function ListValues(p: Parser): (o: Out)
    ensures Left(o.p) <= Left(p) && o.ok
    decreases Left(p)
  {
    var comma := Accept(p, Comma);
    if !comma.ok then Out(true, comma.p) else
    var eol := Accept(comma.p, Eol);
    var first := if eol.ok then ListValue(eol.p) else Out(false, eol.p);
    var v := if first.ok then first else ListValue(first.p);
    if v.ok then ListValues(v.p) else Out(true, v.p)
  }

  function SectionType(p: Parser): (o: Out)
    ensures Left(o.p) <= Left(p)
    ensures o.ok ==> Left(o.p) < Left(p)
  {
    match p.curr
    case Section => Out(true, Advance(p.(kind := Plain)))
    case Blacklist => Out(true, Advance(p.(kind := Black)))
    case Whitelist => Out(true, Advance(p.(kind := White)))
    case _ => Out(false, p)
  }

  /** The name, the opening bracket and what may stand around it; the section exists from here on. */
  function SectionHead(p: Parser): (o: Out)
    ensures Left(o.p) <= Left(p) && (o.ok ==> Left(o.p) < Left(p))
  {
    if !p.curr.Name? then Out(false, p) else
    var name := Hash.Truncated(p.curr.name);
    var open := Accept(Accept(Advance(p), Eol).p, BracketL);
    if !open.ok then open else
    var q := Accept(open.p, Eol).p;
    Out(true, q.(section := Some((q.kind, name)), config := AddSection(q.config, q.kind, name)))
  }

  function SectionRule(p: Parser): (o: Out)
    ensures Left(o.p) <= Left(p)
    decreases Left(p), 2
  {
    var t := SectionType(p);
    if !t.ok then t else
    var head := SectionHead(t.p);
    if !head.ok then head else
    var s := SectionStatements(head.p);
    if !s.ok then s else
    var end := Closing(s.p, BracketR);
    if end.ok then Out(true, end.p.(section := None)) else end
  }

  function SectionStatements(p: Parser): (o: Out)
    ensures Left(o.p) <= Left(p)
    decreases Left(p), 4
  {
    var a := Assignment(p);
    if a.ok then SectionAssignments(a.p) else a
  }

  function SectionAssignments(p: Parser): (o: Out)
    ensures Left(o.p) <= Left(p) && o.ok
    decreases Left(p), 3
  {
    var eol := Accept(Accept(p, Comma).p, Eol);
    if !eol.ok then Out(true, eol.p) else
    var a := Assignment(eol.p);
    if a.ok then SectionAssignments(a.p) else Out(true, a.p)
  }

  function IncludeRule(p: Parser): (o: Out)
    ensures Left(o.p) <= Left(p)
  {
    var i := Accept(p, Include);
    if i.ok && i.p.curr.Str? then
      Out(true, Advance(i.p.(config := i.p.config.(includes := i.p.config.includes + [i.p.curr.s]))))
    else Out(false, i.p)
  }

  /** One run of the parser, from the text that the last run left. */
  function Start(p: Parser, config: Config): Out {
    var q := Accept(Advance(p.(config := WithDefault(config))), Eol).p;
    var s := Statement(q);
    if !s.ok then Accept(s.p, Eof) else
    var all := Statements(s.p);
    var end := Accept(all.p, Eof);
    if end.ok then end else Accept(end.p, Eof)
  }

  // ---------------------------------------------------------------- the parser in place

  class ConfigParser {
    const lexer: Lexer
    var curr: Token
    var config: Config
    var section: Option<(Kind, string)>
    var kind: Kind
    var value: seq<Value>

    ghost predicate Valid()
      reads this, lexer
    {
      lexer.Valid()
    }

    function View(): Parser
      requires lexer.pos <= |lexer.src|
      reads this, lexer
    {
      Parser(lexer.Rest(), curr, config, section, kind, value)
    }

    constructor (src: string)
      ensures Valid() && fresh(lexer)
      ensures View() == Parser(src, Eof, NONE, None, Plain, [])
    {
      lexer := new Lexer(src);
      curr, config, section, kind, value := Eof, NONE, None, Plain, [];
    }

    method Next()
      requires Valid()
      modifies this`curr, lexer
      ensures Valid() && View() == Advance(old(View()))
    {
      curr := NextToken(lexer);
    }

    method Take(t: Token) returns (ok: bool)
      requires Valid()
      modifies this`curr, lexer
      ensures Valid() && Out(ok, View()) == Accept(old(View()), t)
    {
      if curr != t {
        return false;
      }
      Next();
      if t == Eol {
        while curr == Eol
          invariant Valid() && section == old(section)
          invariant SkipEols(old(View())) == if curr == Eol then SkipEols(View()) else View()
          decreases Left(View())
        {
          Next();
        }
      }
      return true;
    }

    method ParseStatements() returns (ok: bool)
      requires Valid()
      modifies this, lexer
      ensures Valid() && Out(ok, View()) == Statements(old(View()))
      decreases Left(View()), 4
    {
      var eol := Take(Eol);
      if eol {
        var s := ParseStatement();
        if s {
          var _ := ParseStatements();
        }
      }
      return true;
    }

    method ParseStatement() returns (ok: bool)
      requires Valid()
      modifies this, lexer
      ensures Valid() && Out(ok, View()) == Statement(old(View()))
      decreases Left(View()), 3
    {
      ok := ParseAssignment();
      if !ok {
        ok := ParseSection();
      }
      if !ok {
        ok := ParseInclude();
      }
    }

    method ParseAssignment() returns (ok: bool)
      requires Valid()
      modifies this, lexer
      ensures Valid() && Out(ok, View()) == Assignment(old(View()))
      decreases Left(View()), 2
    {
      hide ListRule, SetVar, Accept;
      if !curr.Name? {
        return false;
      }
      var name := curr.name;
      Next();
      var eq := Take(Eq);
      if !eq {
        return false;
      }
      if curr.Int? {
        config := SetVar(config, section, name, Number(curr.i));
        Next();
        return true;
      }
      if curr.Str? {
        config := SetVar(config, section, name, Text(curr.s));
        Next();
        return true;
      }
      ok := ParseList();
      if ok {
        config := SetVar(config, section, name, Many(value));
        value := [];
      }
    }

    method ParseClosing(bracket: Token) returns (ok: bool)
      requires Valid()
      modifies this`curr, lexer
      ensures Valid() && Out(ok, View()) == Closing(old(View()), bracket)
    {
      var eol := Take(Eol);
      if eol {
        ok := Take(bracket);
        if ok {
          return;
        }
      }
      ok := Take(bracket);
    }

    method ParseList() returns (ok: bool)
      requires Valid()
      modifies this, lexer
      ensures Valid() && Out(ok, View()) == ListRule(old(View()))
      decreases Left(View()), 1
    {
      ok := Take(SqBrackL);
      if !ok {
        return;
      }
      value := [];
      ok := Take(Eol);
      if ok {
        ok := ParseListStatements();
      }
      if !ok {
        ok := ParseListStatements();
      }
      if ok {
        ok := ParseClosing(SqBrackR);
      }
    }

    method ParseListStatements() returns (ok: bool)
      requires Valid()
      modifies this, lexer
      ensures Valid() && Out(ok, View()) == ListStatements(old(View()))
      decreases Left(View()), 0
    {
      ok := ParseListValue();
      if ok {
        ok := ParseListValues();
      }
    }

    method ParseListValue() returns (ok: bool)
      requires Valid()
      modifies this, lexer
      ensures Valid() && Out(ok, View()) == ListValue(old(View()))
    {
      if curr.Int? {
        var v := Number(curr.i);
        Next();
        value := value + [v];
        return true;
      }
      if curr.Str? {
        var v := Text(curr.s);
        Next();
        value := value + [v];
        return true;
      }
      return false;
    }

    method ParseListValues() returns (ok: bool)
      requires Valid()
      modifies this, lexer
      ensures Valid() && Out(ok, View()) == ListValues(old(View()))
      decreases Left(View())
    {
      var comma := Take(Comma);
      if comma {
        var v := Take(Eol);
        if v {
          v := ParseListValue();
        }
        if !v {
          v := ParseListValue();
        }
        if v {
          var _ := ParseListValues();
        }
      }
      return true;
    }

    method ParseSectionType() returns (ok: bool)
      requires Valid()
      modifies this, lexer
      ensures Valid() && Out(ok, View()) == SectionType(old(View()))
    {
      match curr
      case Section => kind := Plain; Next(); return true;
      case Blacklist => kind := Black; Next(); return true;
      case Whitelist => kind := White; Next(); return true;
      case _ => return false;
    }

    method ParseSectionHead() returns (ok: bool)
      requires Valid()
      modifies this, lexer
      ensures Valid() && Out(ok, View()) == SectionHead(old(View()))
    {
      if !curr.Name? {
        return false;
      }
      var name := Hash.Truncated(curr.name);
      Next();
      var _ := Take(Eol);
      ok := Take(BracketL);
      if !ok {
        return;
      }
      var _ := Take(Eol);
      section := Some((kind, name));
      config := AddSection(config, kind, name);
    }

    method ParseSection() returns (ok: bool)
      requires Valid()
      modifies this, lexer
      ensures Valid() && Out(ok, View()) == SectionRule(old(View()))
      decreases Left(View()), 2
    {
      hide SectionType, SectionHead, SectionStatements, Closing;
      ok := ParseSectionType();
      if ok {
        ok := ParseSectionHead();
      }
      if ok {
        ok := ParseSectionStatements();
      }
      if ok {
        ok := ParseClosing(BracketR);
        if ok {
          section := None;
        }
      }
    }

    method ParseSectionStatements() returns (ok: bool)
      requires Valid()
      modifies this, lexer
      ensures Valid() && Out(ok, View()) == SectionStatements(old(View()))
      decreases Left(View()), 4
    {
      ok := ParseAssignment();
      if ok {
        ok := ParseSectionAssignments();
      }
    }

    method ParseSectionAssignments() returns (ok: bool)
      requires Valid()
      modifies this, lexer
      ensures Valid() && Out(ok, View()) == SectionAssignments(old(View()))
      decreases Left(View()), 3
    {
      var _ := Take(Comma);
      var eol := Take(Eol);
      if eol {
        var a := ParseAssignment();
        if a {
          var _ := ParseSectionAssignments();
        }
      }
      return true;
    }

    method ParseInclude() returns (ok: bool)
      requires Valid()
      modifies this, lexer
      ensures Valid() && Out(ok, View()) == IncludeRule(old(View()))
    {
      ok := Take(Include);
      if ok && curr.Str? {
        config := config.(includes := config.includes + [curr.s]);
        Next();
        return true;
      }
      return false;
    }

    /** Parses up to the next end of the text, which a character that starts no token counts as. */
    method ParseStart(config: Config) returns (ok: bool)
      requires Valid() && section == None
      modifies this, lexer
      ensures Valid() && Out(ok, View()) == Start(old(View()), config)
    {
      this.config := WithDefault(config);
      Next();
      var _ := Take(Eol);
      ok := ParseStatement();
      if ok {
        ok := ParseStatements();
        ok := Take(Eof);
      }
      if !ok {
        ok := Take(Eof);
      }
    }
  }
}
