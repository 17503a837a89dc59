/** What the reports of any run hold, and so which of them the greylister hears. */
module GreydReports {
  import opened Wrappers
  import opened ConfigLexer
  import opened ConfigPipe
  import opened Messages
  import opened FieldSites
  import opened Reply
  import opened Reports
  import opened Con
  import opened Greyd
  import opened GreydRuns

  /** No quote, no backslash and no line end. */
  predicate NoSpecial(s: string) {
    '"' !in s && '\\' !in s && '\n' !in s
  }

  /** The text of an address. */
  predicate IsAddress(s: string) {
    IsPlain(s) && OnOneLine(s)
  }

  /** What finds room in a field of 1024 characters, the last of them zero. */
  predicate HasRoom(s: string) {
    |s| <= 1023
  }

  predicate CleanCon(c: Con) {
    && NoSpecial(c.mail) && NoSpecial(c.rcpt) && OnOneLine(c.helo) && IsAddress(c.srcAddr) && IsAddress(c.dstAddr)
    && HasRoom(c.mail) && HasRoom(c.rcpt) && HasRoom(c.helo)
  }

  predicate CleanReport(r: Report) {
    && NoSpecial(r.from) && NoSpecial(r.to) && OnOneLine(r.helo) && IsAddress(r.src) && IsAddress(r.dst)
    && HasRoom(r.from) && HasRoom(r.to) && HasRoom(r.helo)
  }

  /** Addresses that come from outside are addresses. */
  predicate AddressEnv(env: Env) {
    && (env.proxy.Failed? ==> IsAddress(env.proxy.src))
    && (env.proxy.Accepted? ==> IsAddress(env.proxy.src) && IsAddress(env.proxy.dst))
    && (env.origDst.Some? ==> IsAddress(env.origDst.value))
  }

  predicate AddressEvent(e: Event) {
    match e
    case Accept(_, src, _, env) => IsAddress(src) && AddressEnv(env)
    case Readable(_, _, env) => AddressEnv(env)
    case Writable(_, _, _, env) => AddressEnv(env)
    case _ => true
  }

  // ---------------------------------------------------------------- one step

  lemma {:induction false} WordOnOneLine(s: string)
    ensures OnOneLine(Word(s))
  {
    if s != "" && s[0] !in " \t\n\r" {
      WordOnOneLine(s[1..]);
    }
  }

  lemma {:induction false} CleanedClean(s: string)
    requires OnOneLine(s)
    ensures NoSpecial(Cleaned(s)) && |Cleaned(s)| <= |s|
  {
    if s != "" {
      CleanedClean(s[1..]);
    }
  }

  /** Whatever address the client gives, quotes and backslashes do not get into the field. */
  lemma NormalizedClean(addr: string, field: string)
    requires OnOneLine(addr) && NoSpecial(field) && HasRoom(addr) && HasRoom(field)
    ensures NoSpecial(Normalized(addr, field)) && HasRoom(Normalized(addr, field))
  {
    CleanedClean(if addr != "" && addr[0] == '<' then addr[1..] else addr);
  }

  lemma ArgumentOnOneLine(buf: string)
    ensures OnOneLine(AddressArgument(buf)) && HasRoom(AddressArgument(buf))
    ensures |buf| >= 4 ==> OnOneLine(HeloArgument(buf)) && HasRoom(HeloArgument(buf))
  {
    if AfterColon(buf).Some? {
      WordOnOneLine(SkipBlanks(AfterColon(buf).value));
    }
    if |buf| >= 4 {
      WordOnOneLine(SkipBlanks(buf[4..]));
    }
  }

  /** What a step can make of the fields. */
  predicate FieldsFrom(c: Con, d: Con, env: Env) {
    && (d.mail == c.mail || d.mail == Normalized(AddressArgument(c.inBuf), c.mail))
    && (d.rcpt == c.rcpt || d.rcpt == Normalized(AddressArgument(c.inBuf), c.rcpt))
    && (d.helo == c.helo || d.helo == "" || (|c.inBuf| >= 4 && d.helo == HeloArgument(c.inBuf)))
    && (d.srcAddr == c.srcAddr || (env.proxy.Failed? && d.srcAddr == env.proxy.src)
        || (env.proxy.Accepted? && d.srcAddr == env.proxy.src))
    && (d.dstAddr == c.dstAddr || (env.origDst.Some? && d.dstAddr == env.origDst.value)
        || (env.proxy.Accepted? && d.dstAddr == env.proxy.dst))
  }

  predicate SameFields(c: Con, d: Con) {
    d.mail == c.mail && d.rcpt == c.rcpt && d.helo == c.helo && d.srcAddr == c.srcAddr && d.dstAddr == c.dstAddr
  }

  lemma ObeyedFields(c: Con, cmd: Command, env: Env)
    ensures FieldsFrom(c, Obeyed(c, cmd, env), env)
  {
    hide AddressArgument, HeloArgument, Normalized, ReplyOutput;
    if cmd in {Helo, Ehlo, Mail, Rcpt} {
    } else {
      hide FieldsFrom;
      SameFieldsFrom(c, Obeyed(c, cmd, env), env);
    }
  }

  lemma SameFieldsFrom(c: Con, d: Con, env: Env)
    requires SameFields(c, d)
    ensures FieldsFrom(c, d, env)
  {
    hide AddressArgument, HeloArgument, Normalized;
  }

  /** Where no command is obeyed. */
  lemma OtherFields(c: Con, cmd: Command, env: Env)
    requires c.state !in {HeloIn, MailIn, RcptIn, DataIn, ProxyOut}
    ensures SameFields(c, Followed(c, cmd, env))
  {
    hide BodyFrom, ReplyOutput;
  }

  lemma ProxyFields(c: Con, cmd: Command, env: Env)
    requires c.state == ProxyOut
    ensures FieldsFrom(c, Followed(c, cmd, env), env)
  {
    hide AddressArgument, HeloArgument, Normalized, ReplyOutput, Matches;
  }

  lemma NextFields(c: Con, env: Env)
    ensures FieldsFrom(c, Next(c, env), env)
  {
    hide CommandOf, FieldsFrom, Obeyed, ReplyOutput, BodyFrom, Matches;
    var cmd := CommandOf(c.inBuf);
    if c.state == ProxyOut {
      ProxyFields(c, cmd, env);
    } else if c.state in {HeloIn, MailIn, RcptIn, DataIn} {
      ObeyedFields(c, cmd, env);
      if Next(c, env) != Obeyed(c, cmd, env) {
        SameFieldsFrom(c, Next(c, env), env);
      }
    } else {
      OtherFields(c, cmd, env);
      SameFieldsFrom(c, Next(c, env), env);
    }
  }

  lemma NextClean(c: Con, env: Env)
    requires CleanCon(c) && AddressEnv(env)
    ensures CleanCon(Next(c, env))
  {
    hide Next, AddressArgument, HeloArgument, Normalized, NoSpecial, IsAddress;
    NextFields(c, env);
    ArgumentOnOneLine(c.inBuf);
    NormalizedClean(AddressArgument(c.inBuf), c.mail);
    NormalizedClean(AddressArgument(c.inBuf), c.rcpt);
  }

  lemma ReportClean(c: Con, env: Env)
    requires CleanCon(c) && AddressEnv(env) && ReportOf(c, env).Some?
    ensures CleanReport(ReportOf(c, env).value)
  {
    hide CommandOf, AddressArgument, Normalized, NoSpecial, IsAddress, OnOneLine;
    ArgumentOnOneLine(c.inBuf);
    NormalizedClean(AddressArgument(c.inBuf), c.rcpt);
  }

  // ---------------------------------------------------------------- runs

  predicate AllClean(v: Server) {
    && (forall i :: 0 <= i < |v.cons| ==> CleanCon(v.cons[i]))
    && (forall i :: 0 <= i < |v.reports| ==> CleanReport(v.reports[i]))
  }

  lemma SetClean(v: Server, i: nat, d: Con)
    requires i < |v.cons| && AllClean(v) && CleanCon(d)
    ensures AllClean(Set(v, i, d))
  {
    hide CleanCon, CleanReport;
  }

  lemma SameClean(v: Server, i: nat, d: Con)
    requires i < |v.cons| && AllClean(v) && SameFields(v.cons[i], d)
    ensures AllClean(Set(v, i, d))
  {
    assert CleanCon(v.cons[i]);
    SetClean(v, i, d);
  }

  lemma CloseClean(v: Server, i: nat)
    requires i < |v.cons| && AllClean(v)
    ensures AllClean(CloseCon(v, i))
  {
    SameClean(v, i, Closed(v.cons[i]));
    hide CleanCon, CleanReport;
  }

  lemma AdvanceClean(v: Server, i: nat, env: Env)
    requires i < |v.cons| && AllClean(v) && AddressEnv(env)
    ensures AllClean(Advance(v, i, env))
  {
    hide CleanCon, CleanReport, Next, ReportOf, AddressEnv;
    var c := v.cons[i];
    CloseClean(v, i);
    NextClean(c, env);
    SetClean(v, i, Next(c, env));
    if ReportOf(c, env).Some? {
      ReportClean(c, env);
    }
  }

  lemma CompleteClean(v: Server, i: nat, env: Env)
    requires i < |v.cons| && AllClean(v) && AddressEnv(env)
    ensures AllClean(Complete(v, i, env))
  {
    hide Advance, AllClean, AddressEnv;
    var c := v.cons[i];
    var n := if c.inP <= |c.inBuf| then StrippedLength(c.inBuf, c.inP) else c.inP;
    var d := c.(inP := n, inBuf := if n <= |c.inBuf| then c.inBuf[..n] else c.inBuf, r := 0);
    SameClean(v, i, d);
    AdvanceClean(Set(v, i, d), i, env);
  }

  lemma ReadingClean(v: Server, i: nat, input: Input, env: Env)
    requires i < |v.cons| && AllClean(v) && AddressEnv(env)
    ensures AllClean(Reading(v, i, input, env))
  {
    hide Complete, CString, AllClean, AddressEnv;
    var c := v.cons[i];
    CloseClean(v, i);
    if input.Got? {
      SameClean(v, i, Taken(c, input.data));
    }
    var v' := if c.r == 0 then v else if input.Got? then Set(v, i, Taken(c, input.data)) else CloseCon(v, i);
    CompleteClean(v', i, env);
  }

  lemma WrittenClean(v: Server, i: nat, crWritten: bool, written: int)
    requires i < |v.cons| && AllClean(v)
    ensures AllClean(Written(v, i, crWritten, written))
  {
    hide CharAt, AllClean, CloseCon;
    var c := v.cons[i];
    var d := c.(seenCr := CharAt(c.out) == '\r');
    CloseClean(v, i);
    SameClean(v, i, d);
    CloseClean(Set(v, i, d), i);
    SameClean(v, i, d.(out := d.out.(p := if written > 0 then d.out.p + written else d.out.p,
                                     remaining := d.out.remaining - written)));
  }

  lemma WritingClean(v: Server, st: Settings, i: nat, crWritten: bool, written: int, env: Env)
    requires i < |v.cons| && AllClean(v) && AddressEnv(env)
    ensures AllClean(Writing(v, st, i, crWritten, written, env))
  {
    hide Written, Advance, AllClean, AddressEnv;
    var u := Set(v, i, Unstuttered(v.cons[i], st, env.now));
    SameClean(v, i, Unstuttered(v.cons[i], st, env.now));
    WrittenClean(u, i, crWritten, written);
    var w := Written(u, i, crWritten, written);
    WrittenKeeps(u, i, crWritten, written, i);
    var c := w.cons[i].(w := env.now + w.cons[i].stutter);
    SameClean(w, i, c);
    SameClean(w, i, c.(w := 0));
    AdvanceClean(Set(w, i, c.(w := 0)), i, env);
  }

  lemma StepClean(v: Server, st: Settings, e: Event)
    requires AllClean(v) && AddressEvent(e)
    ensures AllClean(Step(v, st, e))
  {
    hide AllClean, Advance, Reading, Writing, CloseCon, AddressEnv;
    match e
    case Accept(fd, src, blacklists, env) =>
      OnlyCounters(v, v.(slowUntil := 0));
      var i := FirstFree(v.cons);
      if i < |v.cons| {
        var black := v.blackClients + if blacklists != [] then 1 else 0;
        var c := FreshCon(st, fd, v.accepted, src, blacklists, black, env.now);
        FreshClean(st, fd, v.accepted, src, blacklists, black, env.now);
        SetClean(v, i, c);
        var w := Set(v, i, c).(clients := v.clients + 1, blackClients := black, accepted := v.accepted + 1);
        OnlyCounters(Set(v, i, c), w);
        AdvanceClean(w, i, env);
      }
    case AcceptFailed(exhausted, now) => OnlyCounters(v, v.(slowUntil := now + 1));
    case Readable(i, input, env) => if WantsRead(v, i) { ReadingClean(v, i, input, env); }
    case Writable(i, crWritten, written, env) =>
      if WantsWrite(v, i, env.now) { WritingClean(v, st, i, crWritten, written, env); }
    case Expire(i, now) => if i < |v.cons| { CloseClean(v, i); }
    case Hangup(i) => if i < |v.cons| { CloseClean(v, i); }
  }

  lemma OnlyCounters(v: Server, w: Server)
    requires AllClean(v) && w.cons == v.cons && w.reports == v.reports
    ensures AllClean(w)
  {
    hide CleanCon, CleanReport;
  }

  lemma FreshClean(st: Settings, fd: int, serial: nat, src: string, blacklists: seq<string>, black: int, now: int)
    requires IsAddress(src)
    ensures CleanCon(FreshCon(st, fd, serial, src, blacklists, black, now))
  {
  }

  predicate AddressRun(es: seq<Event>) {
    forall i :: 0 <= i < |es| ==> AddressEvent(es[i])
  }

  /** In every run no field of a connection or of a report holds a line end, and only HELO arguments hold quotes or
      backslashes. */
  lemma {:induction false} RunClean(maxCons: nat, st: Settings, es: seq<Event>)
    requires AddressRun(es)
    ensures AllClean(Run(maxCons, st, es))
  {
    hide Step, AddressEvent, CleanCon, CleanReport;
    if es == [] {
      FreeClean();
    } else {
      RunClean(maxCons, st, es[..|es| - 1]);
      StepClean(Run(maxCons, st, es[..|es| - 1]), st, es[|es| - 1]);
    }
  }

  lemma FreeClean()
    ensures CleanCon(FREE)
  {
  }

  // ---------------------------------------------------------------- which reports are heard

  predicate FitsLimit(s: string) {
    |s| <= MAX_STR_LEN + 1
  }

  /** A report of any run is heard, its escapes undone, if and only if its HELO argument can be put between quotes and
      the addresses fit. */
  lemma CleanReportHeardIff(r: Report, t: string, number: string -> Option<int>)
    requires CleanReport(r)
    ensures Arrives(r, UnescapedReport(r), t, number) <==> IsQuotable(r.helo) && FitsLimit(r.from) && FitsLimit(r.to)
  {
    hide Arrives, Unescaped;
    CleanFields(r);
    ReportHeardIff(r, t, number);
  }

  lemma CleanFields(r: Report)
    requires CleanReport(r)
    ensures OnLines(r) && IsQuotable(r.dst) && IsQuotable(r.src) && !IsCut(r.to)
    ensures IsQuotable(r.from) == FitsLimit(r.from) && IsQuotable(r.to) == FitsLimit(r.to)
  {
    ClearField(r.dst);
    ClearField(r.src);
    ClearField(r.from);
    ClearField(r.to);
    hide IsQuotable, Unescaped;
  }

  lemma ClearField(s: string)
    requires '"' !in s && '\\' !in s
    ensures IsQuotable(s) == FitsLimit(s)
  {
    UnescapedShorter(s, false);
    hide UnescapedFrom, Encloses;
  }

  /** What the connections of any run report, and with what the greylister hears it. */
  lemma RunReportHeardIff(maxCons: nat, st: Settings, es: seq<Event>, i: nat, t: string, number: string -> Option<int>)
    requires AddressRun(es) && i < |Run(maxCons, st, es).reports|
    ensures var r := Run(maxCons, st, es).reports[i];
            Arrives(r, UnescapedReport(r), t, number) <==> IsQuotable(r.helo) && FitsLimit(r.from) && FitsLimit(r.to)
  {
    hide Arrives, Run, CleanCon, CleanReport;
    RunClean(maxCons, st, es);
    CleanReportHeardIff(Run(maxCons, st, es).reports[i], t, number);
  }
}
