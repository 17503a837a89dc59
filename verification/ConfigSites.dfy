/** Where the values of a configuration come from: a run of the parser sets a variable to a string only by a name, a
    sign and that string, tokens next to each other in the text it reads. */
module ConfigSites {
  import opened Wrappers
  import opened Fold
  import opened Lexer
  import opened Numerals
  import opened ConfigLexer
  import opened ConfigParser
  import Hash

  // ---------------------------------------------------------------- values

  ghost predicate In(sections: map<string, Vars>, name: string, v: string) {
    exists s :: s in sections && name in sections[s] && sections[s][name] == Text(v)
  }

  /** Some section, of whatever kind, has the variable with this string. */
  ghost predicate Has(c: Config, name: string, v: string) {
    In(c.sections, name, v) || In(c.blacklists, name, v) || In(c.whitelists, name, v)
  }

  lemma AddedIn(sections: map<string, Vars>, section: string, name: string, v: string)
    requires In(sections[section := map[]], name, v)
    ensures In(sections, name, v)
  {
    var s :| s in sections[section := map[]] && name in sections[section := map[]][s]
             && sections[section := map[]][s][name] == Text(v);
    assert s in sections && sections[s][name] == Text(v);
  }

  lemma SectionHas(c: Config, kind: Kind, section: string, name: string, v: string)
    requires Has(AddSection(c, kind, section), name, v)
    ensures Has(c, name, v)
  {
    hide In;
    var d := AddSection(c, kind, section);
    if In(d.sections, name, v) && kind == Plain {
      AddedIn(c.sections, section, name, v);
    } else if In(d.blacklists, name, v) && kind == Black {
      AddedIn(c.blacklists, section, name, v);
    } else if In(d.whitelists, name, v) && kind == White {
      AddedIn(c.whitelists, section, name, v);
    }
  }

  lemma SetInIn(sections: map<string, Vars>, section: string, variable: string, value: Value, name: string, v: string)
    requires In(SetIn(sections, section, variable, value), name, v)
    ensures In(sections, name, v) || (Hash.Truncated(variable) == name && value == Text(v))
  {
    var all := SetIn(sections, section, variable, value);
    var s :| s in all && name in all[s] && all[s][name] == Text(v);
    assert name in sections[s] && sections[s][name] == Text(v) ==> In(sections, name, v);
  }

  lemma SetHas(c: Config, section: Option<(Kind, string)>, variable: string, value: Value, name: string, v: string)
    requires Has(SetVar(c, section, variable, value), name, v)
    ensures Has(c, name, v) || (Hash.Truncated(variable) == name && value == Text(v))
  {
    hide In, SetIn;
    var d := SetVar(c, section, variable, value);
    var s := if section.None? then DEFAULT_SECTION else section.value.1;
    if In(d.sections, name, v) && (section.None? || section.value.0 == Plain) {
      SetInIn(c.sections, s, variable, value, name, v);
    } else if In(d.blacklists, name, v) && section.Some? && section.value.0 == Black {
      SetInIn(c.blacklists, s, variable, value, name, v);
    } else if In(d.whitelists, name, v) && section.Some? && section.value.0 == White {
      SetInIn(c.whitelists, s, variable, value, name, v);
    }
  }

  // ---------------------------------------------------------------- sites

  /** `u` is what is left of `t` behind some part of it. */
  ghost predicate Tail(t: string, u: string) {
    |u| <= |t| && t[|t| - |u|..] == u
  }

  /** A sign and the string follow, with at least `left` characters behind them. */
  ghost predicate Follows(r: string, v: string, left: nat) {
    && NextTok(r).token == Eq && NextTok(NextTok(r).rest).token == Str(v)
    && |NextTok(NextTok(r).rest).rest| >= left
  }

  /** At `u` the text reads as an assignment of the string to the name. */
  ghost predicate Assigns(u: string, name: string, v: string, left: nat) {
    NextTok(u).token == Name(name) && Follows(NextTok(u).rest, v, left)
  }

  ghost predicate Site(t: string, name: string, v: string, left: nat) {
    exists u :: Tail(t, u) && Assigns(u, name, v, left)
  }

  /** The same for a parser that has read its current token. */
  ghost predicate SiteAhead(p: Parser, name: string, v: string, left: nat) {
    (p.curr == Name(name) && Follows(p.rest, v, left)) || Site(p.rest, name, v, left)
  }

  lemma TailTrans(t: string, u: string, w: string)
    requires Tail(t, u) && Tail(u, w)
    ensures Tail(t, w)
  {
  }

  lemma TailMore(t: string)
    ensures Tail(t, t) && Tail(t, "") && (t != "" ==> Tail(t, t[1..]))
  {
  }

  lemma {:induction false} ScanIntTail(t: string, n: int)
    ensures Tail(t, ScanInt(t, n).1)
  {
    TailMore(t);
    if t != "" && IsDigit(t[0]) {
      ScanIntTail(t[1..], n * 10 + Digit(t[0]));
      TailTrans(t, t[1..], ScanInt(t, n).1);
    }
  }

  lemma {:induction false} ScanWordTail(t: string, word: string)
    ensures Tail(t, ScanWord(t, word).1)
    decreases |t|
  {
    TailMore(t);
    if t != "" && IsWordChar(t[0]) && |word| <= MAX_STR_LEN {
      ScanWordTail(t[1..], word + [Lower(t[0])]);
      TailTrans(t, t[1..], ScanWord(t, word).1);
    }
  }

  lemma {:induction false} ScanStrTail(t: string, escaped: bool, s: string)
    ensures Tail(t, ScanStr(t, escaped, s).1)
    decreases |t|
  {
    TailMore(t);
    if t != "" && !(t[0] == '"' && !escaped) && |s| <= MAX_STR_LEN {
      if t[0] == '\\' && !escaped {
        ScanStrTail(t[1..], true, s);
      } else {
        ScanStrTail(t[1..], false, s + [t[0]]);
      }
      TailTrans(t, t[1..], ScanStr(t, escaped, s).1);
    }
  }

  lemma {:induction false} CommentTail(t: string)
    ensures Tail(t, AfterComment(t))
  {
    TailMore(t);
    if t != "" && t[0] != '\n' {
      CommentTail(t[1..]);
      TailTrans(t, t[1..], AfterComment(t));
    }
  }

  lemma {:induction false} NextTail(t: string)
    ensures Tail(t, NextTok(t).rest)
    decreases |t|
  {
    hide Tail;
    TailMore(t);
    if t == "" {
    } else {
      var u := t[1..];
      if IsDigit(t[0]) {
        ScanIntTail(u, Digit(t[0]));
      } else if IsAlpha(t[0]) {
        ScanWordTail(u, [Lower(t[0])]);
      } else if Skipped(t[0]) {
        NextTail(u);
      } else if t[0] == '#' {
        AfterCommentShortens(u);
        CommentTail(u);
        NextTail(AfterComment(u));
        TailTrans(u, AfterComment(u), NextTok(t).rest);
      } else if t[0] == '"' {
        ScanStrTail(u, false, "");
      } else {
        TailMore(u);
      }
      TailTrans(t, u, NextTok(t).rest);
    }
  }

  // ---------------------------------------------------------------- steps of the parser

  /** The parser came by its current token in the text before it, or has not moved. */
  ghost predicate Moved(p: Parser, q: Parser) {
    || (q.curr == p.curr && q.rest == p.rest)
    || (Tail(p.rest, q.rest) && exists u :: Tail(p.rest, u) && NextTok(u) == Scan(q.curr, q.rest))
  }

  /** Every string that `q` has and `p` does not was assigned in the text between them. */
  ghost predicate Explained(p: Parser, q: Parser) {
    forall name, v :: Has(q.config, name, v) && |name| < Hash.MAX_KEY_LEN ==>
      Has(p.config, name, v) || SiteAhead(p, name, v, |q.rest|)
  }

  ghost predicate Leads(p: Parser, q: Parser) {
    Moved(p, q) && Explained(p, q)
  }

  lemma MovedTail(p: Parser, q: Parser)
    requires Moved(p, q)
    ensures Tail(p.rest, q.rest)
  {
    TailMore(p.rest);
  }

  lemma SiteEarlier(p: Parser, q: Parser, name: string, v: string, left: nat)
    requires Moved(p, q) && SiteAhead(q, name, v, left)
    ensures SiteAhead(p, name, v, left)
  {
    hide Tail, Follows;
    MovedTail(p, q);
    if q.curr == Name(name) && Follows(q.rest, v, left) {
      if !(q.curr == p.curr && q.rest == p.rest) {
        var u :| Tail(p.rest, u) && NextTok(u) == Scan(q.curr, q.rest);
        assert Assigns(u, name, v, left);
      }
    } else {
      var u :| Tail(q.rest, u) && Assigns(u, name, v, left);
      TailTrans(p.rest, q.rest, u);
    }
  }

  lemma FewerLeft(p: Parser, name: string, v: string, left: nat, left': nat)
    requires SiteAhead(p, name, v, left) && left' <= left
    ensures SiteAhead(p, name, v, left')
  {
    if !(p.curr == Name(name) && Follows(p.rest, v, left)) {
      var u :| Tail(p.rest, u) && Assigns(u, name, v, left);
      assert Assigns(u, name, v, left');
    }
  }

  lemma MovedTrans(p: Parser, q: Parser, r: Parser)
    requires Moved(p, q) && Moved(q, r)
    ensures Moved(p, r)
  {
    hide Tail;
    MovedTail(p, q);
    MovedTail(q, r);
    TailTrans(p.rest, q.rest, r.rest);
    if !(r.curr == q.curr && r.rest == q.rest) {
      var u :| Tail(q.rest, u) && NextTok(u) == Scan(r.curr, r.rest);
      TailTrans(p.rest, q.rest, u);
    }
  }

  lemma LeadsOn(p: Parser, q: Parser, r: Parser)
    requires Leads(p, q) && Leads(q, r)
    ensures Leads(p, r)
  {
    hide Has, SiteAhead, Moved;
    MovedTrans(p, q, r);
    MovedTail(q, r);
    forall name, v | Has(r.config, name, v) && |name| < Hash.MAX_KEY_LEN
      ensures Has(p.config, name, v) || SiteAhead(p, name, v, |r.rest|)
    {
      if Has(q.config, name, v) {
        if !Has(p.config, name, v) {
          FewerLeft(p, name, v, |q.rest|, |r.rest|);
        }
      } else {
        SiteEarlier(p, q, name, v, |r.rest|);
      }
    }
  }

  /** A change of other fields than the text and the configuration. */
  lemma LeadsStill(p: Parser, q: Parser)
    requires q.curr == p.curr && q.rest == p.rest && q.config == p.config
    ensures Leads(p, q)
  {
  }

  lemma AdvanceLeads(p: Parser)
    ensures Leads(p, Advance(p))
  {
    hide Has;
    NextTail(p.rest);
    TailMore(p.rest);
  }

  lemma {:induction false} EolsLead(p: Parser)
    ensures Leads(p, SkipEols(p))
    decreases |p.rest|
  {
    hide Leads;
    AdvanceLeads(p);
    var q := Advance(p);
    if q.curr == Eol {
      EolsLead(q);
      LeadsOn(p, q, SkipEols(q));
    }
  }

  lemma AcceptLeads(p: Parser, t: Token)
    ensures Leads(p, Accept(p, t).p)
  {
    hide Leads, NextTok;
    LeadsStill(p, p);
    EolsLead(p);
    AdvanceLeads(p);
  }

  // ---------------------------------------------------------------- the grammar

  /** Setting a variable that the text assigns. */
  lemma SetLeads(p: Parser, e: Parser, q: Parser, variable: string, value: Value)
    requires Leads(p, e) && Moved(e, q) && q.config == SetVar(e.config, e.section, variable, value)
    requires value.Text? ==> SiteAhead(p, variable, value.s, |q.rest|)
    ensures Leads(p, q)
  {
    hide Has, SiteAhead, Moved, SetVar;
    MovedTrans(p, e, q);
    MovedTail(e, q);
    forall name, v | Has(q.config, name, v) && |name| < Hash.MAX_KEY_LEN
      ensures Has(p.config, name, v) || SiteAhead(p, name, v, |q.rest|)
    {
      SetHas(e.config, e.section, variable, value, name, v);
      if Has(e.config, name, v) && !Has(p.config, name, v) {
        FewerLeft(p, name, v, |e.rest|, |q.rest|);
      }
    }
  }

  lemma AssignmentLeads(p: Parser)
    ensures Leads(p, Assignment(p).p)
  {
    hide Leads, NextTok, ListRule, SetVar, Site;
    LeadsStill(p, p);
    if p.curr.Name? {
      var a := Advance(p);
      var e := Accept(a, Eq).p;
      AdvanceLeads(p);
      AcceptLeads(a, Eq);
      LeadsOn(p, a, e);
      if a.curr == Eq {
        if e.curr.Int? {
          ValueLeads(p, e, Number(e.curr.i));
        } else if e.curr.Str? {
          ValueLeads(p, e, Text(e.curr.s));
        } else {
          ListLeads(e);
          LeadsOn(p, e, ListRule(e).p);
          if ListRule(e).ok {
            StaysPut(ListRule(e).p, Assignment(p).p);
            SetLeads(p, ListRule(e).p, Assignment(p).p, p.curr.name, Many(ListRule(e).p.value));
          }
        }
      }
    }
  }

  lemma StaysPut(p: Parser, q: Parser)
    requires q.curr == p.curr && q.rest == p.rest
    ensures Moved(p, q)
  {
  }

  lemma ValueLeads(p: Parser, e: Parser, value: Value)
    requires p.curr.Name? && Advance(p).curr == Eq && e == Advance(Advance(p)) && Leads(p, e)
    requires value.Number? || (value.Text? && e.curr == Str(value.s))
    ensures Leads(p, Advance(e.(config := SetVar(e.config, e.section, p.curr.name, value))))
  {
    hide Leads, SetVar, Site, Tail;
    var q := Advance(e.(config := SetVar(e.config, e.section, p.curr.name, value)));
    NextTail(e.rest);
    AdvanceLeads(e);
    LeadsMoves(e, Advance(e));
    assert Advance(e).rest == q.rest && Advance(e).curr == q.curr;
    StaysPut(Advance(e), q);
    MovedTrans(e, Advance(e), q);
    ShorterRest(e.rest);
    SetLeads(p, e, q, p.curr.name, value);
  }

  lemma ShorterRest(t: string)
    ensures |NextTok(t).rest| <= |t|
  {
  }

  lemma LeadsMoves(p: Parser, q: Parser)
    requires Leads(p, q)
    ensures Moved(p, q)
  {
  }

  lemma ClosingLeads(p: Parser, bracket: Token)
    ensures Leads(p, Closing(p, bracket).p)
  {
    hide Leads, Accept;
    var e := Accept(p, Eol);
    AcceptLeads(p, Eol);
    AcceptLeads(e.p, bracket);
    var f := if e.ok then Accept(e.p, bracket) else Out(false, e.p);
    LeadsOn(p, e.p, Accept(e.p, bracket).p);
    AcceptLeads(f.p, bracket);
    LeadsOn(p, f.p, Accept(f.p, bracket).p);
  }

  lemma ItemLeads(p: Parser)
    ensures Leads(p, ListValue(p).p)
  {
    hide Leads, NextTok;
    LeadsStill(p, p);
    AdvanceLeads(p);
    LeadsStill(Advance(p), ListValue(p).p.(curr := Advance(p).curr, rest := Advance(p).rest));
    if p.curr.Int? || p.curr.Str? {
      LeadsOn(p, Advance(p), ListValue(p).p);
    }
  }

  lemma {:induction false} ItemsLead(p: Parser)
    ensures Leads(p, ListValues(p).p)
    decreases Left(p)
  {
    hide Leads, Accept, ListValue;
    LeadsStill(p, p);
    var comma := Accept(p, Comma);
    AcceptLeads(p, Comma);
    if comma.ok {
      var eol := Accept(comma.p, Eol);
      AcceptLeads(comma.p, Eol);
      LeadsOn(p, comma.p, eol.p);
      var first := if eol.ok then ListValue(eol.p) else Out(false, eol.p);
      ItemLeads(eol.p);
      LeadsOn(p, eol.p, ListValue(eol.p).p);
      var v := if first.ok then first else ListValue(first.p);
      ItemLeads(first.p);
      LeadsOn(p, first.p, ListValue(first.p).p);
      if v.ok {
        ItemsLead(v.p);
        LeadsOn(p, v.p, ListValues(v.p).p);
      }
    }
  }

  lemma ListStatementsLead(p: Parser)
    ensures Leads(p, ListStatements(p).p)
  {
    hide Leads, ListValue, ListValues;
    ItemLeads(p);
    ItemsLead(ListValue(p).p);
    LeadsOn(p, ListValue(p).p, ListValues(ListValue(p).p).p);
  }

  lemma ListLeads(p: Parser)
    ensures Leads(p, ListRule(p).p)
  {
    hide Leads, Accept, ListStatements, Closing;
    var open := Accept(p, SqBrackL);
    AcceptLeads(p, SqBrackL);
    if open.ok {
      var q := open.p.(value := []);
      LeadsStill(open.p, q);
      LeadsOn(p, open.p, q);
      var eol := Accept(q, Eol);
      AcceptLeads(q, Eol);
      LeadsOn(p, q, eol.p);
      var first := if eol.ok then ListStatements(eol.p) else Out(false, eol.p);
      ListStatementsLead(eol.p);
      LeadsOn(p, eol.p, ListStatements(eol.p).p);
      var items := if first.ok then first else ListStatements(first.p);
      ListStatementsLead(first.p);
      LeadsOn(p, first.p, ListStatements(first.p).p);
      ClosingLeads(items.p, SqBrackR);
      LeadsOn(p, items.p, Closing(items.p, SqBrackR).p);
    }
  }

  lemma TypeLeads(p: Parser)
    ensures Leads(p, SectionType(p).p)
  {
    hide Leads, NextTok;
    LeadsStill(p, p);
    var q := p.(kind := match p.curr case Blacklist => Black case Whitelist => White case _ => Plain);
    LeadsStill(p, q);
    AdvanceLeads(q);
    LeadsOn(p, q, Advance(q));
  }

  lemma HeadLeads(p: Parser)
    ensures Leads(p, SectionHead(p).p)
  {
    hide Leads, Accept, NextTok, AddSection;
    LeadsStill(p, p);
    if p.curr.Name? {
      var name := Hash.Truncated(p.curr.name);
      var a := Advance(p);
      AdvanceLeads(p);
      var e := Accept(a, Eol).p;
      AcceptLeads(a, Eol);
      LeadsOn(p, a, e);
      var open := Accept(e, BracketL);
      AcceptLeads(e, BracketL);
      LeadsOn(p, e, open.p);
      if open.ok {
        var q := Accept(open.p, Eol).p;
        AcceptLeads(open.p, Eol);
        LeadsOn(p, open.p, q);
        AddedLeads(q, name);
        LeadsOn(p, q, SectionHead(p).p);
      }
    }
  }

  lemma AddedLeads(q: Parser, name: string)
    ensures Leads(q, q.(section := Some((q.kind, name)), config := AddSection(q.config, q.kind, name)))
  {
    hide Has, SiteAhead, AddSection;
    forall n, v | Has(AddSection(q.config, q.kind, name), n, v) ensures Has(q.config, n, v) {
      SectionHas(q.config, q.kind, name, n, v);
    }
  }

  lemma {:induction false} SectionAssignmentsLead(p: Parser)
    ensures Leads(p, SectionAssignments(p).p)
    decreases Left(p)
  {
    hide Leads, Accept, Assignment;
    var c := Accept(p, Comma).p;
    AcceptLeads(p, Comma);
    var eol := Accept(c, Eol);
    AcceptLeads(c, Eol);
    LeadsOn(p, c, eol.p);
    if eol.ok {
      var a := Assignment(eol.p);
      AssignmentLeads(eol.p);
      LeadsOn(p, eol.p, a.p);
      if a.ok {
        SectionAssignmentsLead(a.p);
        LeadsOn(p, a.p, SectionAssignments(a.p).p);
      }
    }
  }

  lemma SectionLeads(p: Parser)
    ensures Leads(p, SectionRule(p).p)
  {
    hide Leads, SectionType, SectionHead, Closing, Assignment, SectionAssignments;
    var t := SectionType(p);
    TypeLeads(p);
    if t.ok {
      var head := SectionHead(t.p);
      HeadLeads(t.p);
      LeadsOn(p, t.p, head.p);
      if head.ok {
        var a := Assignment(head.p);
        AssignmentLeads(head.p);
        LeadsOn(p, head.p, a.p);
        if a.ok {
          var s := SectionAssignments(a.p);
          SectionAssignmentsLead(a.p);
          LeadsOn(p, a.p, s.p);
          var end := Closing(s.p, BracketR);
          ClosingLeads(s.p, BracketR);
          LeadsOn(p, s.p, end.p);
          LeadsStill(end.p, end.p.(section := None));
          LeadsOn(p, end.p, end.p.(section := None));
        }
      }
    }
  }

  lemma IncludeLeads(p: Parser)
    ensures Leads(p, IncludeRule(p).p)
  {
    hide Leads, Accept, NextTok;
    var i := Accept(p, Include);
    AcceptLeads(p, Include);
    if i.ok && i.p.curr.Str? {
      var q := i.p.(config := i.p.config.(includes := i.p.config.includes + [i.p.curr.s]));
      IncludedLeads(i.p, q);
      AdvanceLeads(q);
      LeadsOn(p, i.p, q);
      LeadsOn(p, q, Advance(q));
    }
  }

  lemma IncludedLeads(p: Parser, q: Parser)
    requires q == p.(config := p.config.(includes := q.config.includes))
    ensures Leads(p, q)
  {
    hide In, SiteAhead;
  }

  lemma StatementLeads(p: Parser)
    ensures Leads(p, Statement(p).p)
  {
    hide Leads, Assignment, SectionRule, IncludeRule;
    var a := Assignment(p);
    AssignmentLeads(p);
    if !a.ok {
      var s := SectionRule(a.p);
      SectionLeads(a.p);
      LeadsOn(p, a.p, s.p);
      IncludeLeads(s.p);
      LeadsOn(p, s.p, IncludeRule(s.p).p);
    }
  }

  lemma {:induction false} StatementsLead(p: Parser)
    ensures Leads(p, Statements(p).p)
    decreases Left(p)
  {
    hide Leads, Accept, Statement;
    var eol := Accept(p, Eol);
    AcceptLeads(p, Eol);
    if eol.ok {
      var s := Statement(eol.p);
      StatementLeads(eol.p);
      LeadsOn(p, eol.p, s.p);
      if s.ok {
        StatementsLead(s.p);
        LeadsOn(p, s.p, Statements(s.p).p);
      }
    }
  }

  /** Whatever a run of the parser sets to a string, the text it read assigned it. */
  lemma StartLeads(p: Parser, config: Config)
    ensures Leads(Advance(p.(config := WithDefault(config))), Start(p, config).p)
    ensures Leads(p.(config := WithDefault(config)), Start(p, config).p)
  {
    hide Leads, Accept, Statement, Statements, NextTok;
    var d := Advance(p.(config := WithDefault(config)));
    var q := Accept(d, Eol).p;
    AcceptLeads(d, Eol);
    var s := Statement(q);
    StatementLeads(q);
    LeadsOn(d, q, s.p);
    AcceptLeads(s.p, Eof);
    LeadsOn(d, s.p, Accept(s.p, Eof).p);
    if s.ok {
      var all := Statements(s.p);
      StatementsLead(s.p);
      LeadsOn(d, s.p, all.p);
      EndLeads(all.p);
      LeadsOn(d, all.p, End(all.p).p);
    }
    AdvanceLeads(p.(config := WithDefault(config)));
    LeadsOn(p.(config := WithDefault(config)), d, Start(p, config).p);
  }

  /** A run takes some of the text, unless there is none. */
  lemma StartShortens(p: Parser, config: Config)
    ensures if p.rest == "" then Start(p, config).p.rest == "" else |Start(p, config).p.rest| < |p.rest|
  {
    hide Start, Has;
    StartLeads(p, config);
    MovedTail(Advance(p.(config := WithDefault(config))), Start(p, config).p);
  }

  /** The end of a run. */
  function End(p: Parser): Out {
    var end := Accept(p, Eof);
    if end.ok then end else Accept(end.p, Eof)
  }

  lemma EndLeads(p: Parser)
    ensures Leads(p, End(p).p)
  {
    hide Leads, Accept;
    var end := Accept(p, Eof);
    AcceptLeads(p, Eof);
    AcceptLeads(end.p, Eof);
    LeadsOn(p, end.p, Accept(end.p, Eof).p);
  }
}
