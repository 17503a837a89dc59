/** What the processes tell each other, from the sender's fields to the receiver's. */
module Messages {
  import opened Wrappers
  import opened ConfigLexer
  import opened ConfigParser
  import opened ConfigPipe
  import opened IpMatch
  import opened Numerals
  import opened Reply
  import Con
  import Greylister

  // ---------------------------------------------------------------- reading variables

  function GetStr(vars: Vars, name: string): Option<string> {
    if name in vars && vars[name].Text? then Some(vars[name].s) else None
  }

  function GetInt(vars: Vars, name: string, default: int): int {
    if name in vars && vars[name].Number? then vars[name].i else default
  }

  function GetList(vars: Vars, name: string): Option<seq<Value>> {
    if name in vars && vars[name].Many? then Some(vars[name].vs) else None
  }

  function Texts(ss: seq<string>): seq<Value> {
    seq(|ss|, i requires 0 <= i < |ss| => Text(ss[i]))
  }

  function StringsOf(vs: seq<Value>): seq<string> {
    if vs == [] then [] else (if vs[0].Text? then [vs[0].s] else []) + StringsOf(vs[1..])
  }

  lemma {:induction false} StringsOfTexts(ss: seq<string>)
    ensures StringsOf(Texts(ss)) == ss
  {
    if ss != [] {
      StringsOfTexts(ss[1..]);
      assert Texts(ss)[1..] == Texts(ss[1..]);
    }
  }

  /** What one printed message leaves in the default section. */
  function Received(ls: seq<Line>): Vars
    requires IsMessage(ls)
  {
    var p := Start(Parser(PrintMessage(ls), Eof, NONE, None, Plain, []), NONE).p;
    if DEFAULT_SECTION in p.config.sections then p.config.sections[DEFAULT_SECTION] else map[]
  }

  lemma ReceivedIsAssigned(ls: seq<Line>)
    requires IsMessage(ls)
    ensures Received(ls) == Assigned(ls, map[])
  {
    hide Start, PrintMessage, IsMessage, Assigned;
    assert PrintMessage(ls) + "" == PrintMessage(ls);
    MessageReads(ls, "", Parser(PrintMessage(ls), Eof, NONE, None, Plain, []));
  }

  predicate Distinct(ls: seq<Line>) {
    forall i, j :: 0 <= i < j < |ls| ==> ls[i].name != ls[j].name
  }

  predicate Absent(ls: seq<Line>, name: string) {
    forall i :: 0 <= i < |ls| ==> ls[i].name != name
  }

  lemma {:induction false} AssignedAbsent(ls: seq<Line>, name: string, vars: Vars)
    requires Absent(ls, name)
    ensures name in Assigned(ls, vars) <==> name in vars
    ensures name in vars ==> Assigned(ls, vars)[name] == vars[name]
    decreases ls
  {
    if ls != [] {
      AssignedAbsent(ls[1..], name, vars[ls[0].name := ValueAsRead(ls[0].value)]);
    }
  }

  lemma {:induction false} AssignedFrom(ls: seq<Line>, i: nat, vars: Vars)
    requires i < |ls| && Distinct(ls)
    ensures ls[i].name in Assigned(ls, vars) && Assigned(ls, vars)[ls[i].name] == ValueAsRead(ls[i].value)
    decreases ls
  {
    var vars' := vars[ls[0].name := ValueAsRead(ls[0].value)];
    if i == 0 {
      AssignedAbsent(ls[1..], ls[0].name, vars');
    } else {
      AssignedFrom(ls[1..], i - 1, vars');
    }
  }

  lemma AssignedAt(ls: seq<Line>, i: nat)
    requires i < |ls| && Distinct(ls)
    ensures ls[i].name in Assigned(ls, map[]) && Assigned(ls, map[])[ls[i].name] == ValueAsRead(ls[i].value)
  {
    AssignedFrom(ls, i, map[]);
  }

  // ---------------------------------------------------------------- to the greylister

  /** The report of a recipient by a client on no blacklist. */
  function ReportLines(r: Con.Report): seq<Line> {
    [Line("type", true, Number(Greylister.MSG_GREY)), Line("dst_ip", true, Text(r.dst)), Line("ip", true, Text(r.src)),
     Line("helo", true, Text(r.helo)), Line("from", true, Text(r.from)), Line("to", true, Text(r.to))]
  }

  /** What the greylister makes of a message; `number` reads the number in a text. */
  function MessageOf(vars: Vars, number: string -> Option<int>): Greylister.Message {
    var dst, expires := GetStr(vars, "dst_ip"), GetStr(vars, "expires");
    Greylister.Message(
      GetInt(vars, "type", -1), GetStr(vars, "ip"), GetStr(vars, "helo"), GetStr(vars, "from"), GetStr(vars, "to"),
      if dst.Some? then dst.value else "", GetStr(vars, "source"),
      if expires.Some? then Some(number(expires.value)) else None,
      GetInt(vars, "delete", 0) != 0, GetInt(vars, "sync", 1) != 0)
  }

  predicate IsQuotableReport(r: Con.Report) {
    IsQuotable(r.dst) && IsQuotable(r.src) && IsQuotable(r.helo) && IsQuotable(r.from) && IsQuotable(r.to)
  }

  predicate IsPlainReport(r: Con.Report) {
    IsPlain(r.dst) && IsPlain(r.src) && IsPlain(r.helo) && IsPlain(r.from) && IsPlain(r.to)
  }

  /** What the greylister should make of a report. */
  function MessageFor(r: Con.Report): Greylister.Message {
    Greylister.Message(Greylister.MSG_GREY, Some(r.src), Some(r.helo), Some(r.from), Some(r.to), r.dst, None, None,
        false, true)
  }

  function UnescapedReport(r: Con.Report): Con.Report {
    Con.Report(Unescaped(r.dst), Unescaped(r.src), Unescaped(r.helo), Unescaped(r.from), Unescaped(r.to))
  }

  lemma NamesAreNames()
    ensures IsName("type") && IsName("dst_ip") && IsName("ip") && IsName("helo") && IsName("from")
  {
  }

  lemma MoreNames()
    ensures IsName("to") && IsName("name") && IsName("message") && IsName("ips") && IsName("af")
  {
  }

  lemma ReportIsMessage(r: Con.Report)
    requires IsQuotableReport(r)
    ensures IsMessage(ReportLines(r))
  {
    NamesAreNames();
    MoreNames();
    hide IsName, IsPlain;
  }

  /** The greylister sees the recipient that the connection reported, its escapes undone once. */
  lemma ReportArrives(r: Con.Report, number: string -> Option<int>)
    requires IsQuotableReport(r)
    ensures IsMessage(ReportLines(r))
    ensures MessageOf(Received(ReportLines(r)), number) == MessageFor(UnescapedReport(r))
  {
    ReportIsMessage(r);
    ReportMeans(r, number);
    hide Received, IsMessage, Assigned, Unescaped, IsQuotable;
    ReceivedIsAssigned(ReportLines(r));
  }

  /** The assignments of a report make the message that was meant. */
  lemma ReportMeans(r: Con.Report, number: string -> Option<int>)
    ensures MessageOf(Assigned(ReportLines(r), map[]), number) == MessageFor(UnescapedReport(r))
  {
    var ls := ReportLines(r);
    ReportNames(ls);
    hide Assigned, Distinct, Unescaped;
    AssignedAt(ls, 0);
    AssignedAt(ls, 1);
    AssignedAt(ls, 2);
    AssignedAt(ls, 3);
    AssignedAt(ls, 4);
    AssignedAt(ls, 5);
    AssignedAbsent(ls, "source", map[]);
    AssignedAbsent(ls, "expires", map[]);
    AssignedAbsent(ls, "delete", map[]);
    AssignedAbsent(ls, "sync", map[]);
  }

  lemma ReportNames(ls: seq<Line>)
    requires |ls| == 6 && ls[0].name == "type" && ls[1].name == "dst_ip" && ls[2].name == "ip" && ls[3].name == "helo"
             && ls[4].name == "from" && ls[5].name == "to"
    ensures Distinct(ls) && Absent(ls, "source") && Absent(ls, "expires") && Absent(ls, "delete") && Absent(ls, "sync")
  {
  }

  // ---------------------------------------------------------------- blacklists to the server

  /** An address gets its full prefix length, unless it comes with one. */
  function WithPrefix(ip: string, family: string -> Family): string {
    if '/' in ip then ip else ip + if family(ip) == Inet then "/32" else "/128"
  }

  function WithPrefixes(ips: seq<string>, family: string -> Family): seq<string> {
    seq(|ips|, i requires 0 <= i < |ips| => WithPrefix(ips[i], family))
  }

  function BlacklistLines(name: string, message: string, ips: seq<string>, family: string -> Family): seq<Line> {
    [Line("name", false, Text(name)), Line("message", false, Text(message)),
     Line("ips", false, Many(Texts(WithPrefixes(ips, family))))]
  }

  /** What the server takes from the message: the name, the message and the addresses of a list. */
  function BlacklistOf(vars: Vars): Option<(string, string, seq<string>)> {
    var name, message, ips := GetStr(vars, "name"), GetStr(vars, "message"), GetList(vars, "ips");
    if name.Some? && message.Some? && ips.Some? then Some((name.value, message.value, StringsOf(ips.value))) else None
  }

  predicate AreQuotable(ss: seq<string>) {
    forall i :: 0 <= i < |ss| ==> IsQuotable(ss[i])
  }

  predicate ArePlain(ss: seq<string>) {
    forall i :: 0 <= i < |ss| ==> IsPlain(ss[i])
  }

  function AllUnescaped(ss: seq<string>): seq<string> {
    if ss == [] then [] else [Unescaped(ss[0])] + AllUnescaped(ss[1..])
  }

  lemma TextsMore(s: string, ss: seq<string>)
    ensures Texts([s] + ss) == [Text(s)] + Texts(ss)
  {
  }

  lemma AsReadMore(v: Value, vs: seq<Value>)
    ensures AllAsRead([v] + vs) == [AsRead(v)] + AllAsRead(vs)
  {
    assert ([v] + vs)[1..] == vs;
  }

  lemma {:induction false} TextsAsRead(ss: seq<string>)
    ensures AllAsRead(Texts(ss)) == Texts(AllUnescaped(ss))
  {
    hide Texts, AllAsRead, Unescaped;
    if ss == [] {
      NoTexts();
    } else {
      var s, rest := ss[0], ss[1..];
      assert ss == [s] + rest;
      TextsAsRead(rest);
      TextsMore(s, rest);
      AsReadMore(Text(s), Texts(rest));
      TextsMore(Unescaped(s), AllUnescaped(rest));
    }
  }

  lemma NoTexts()
    ensures Texts([]) == [] && AllAsRead([]) == []
  {
  }

  lemma {:induction false} PlainAsIs(ss: seq<string>)
    requires ArePlain(ss)
    ensures AreQuotable(ss) && AllUnescaped(ss) == ss
  {
    if ss != [] {
      PlainIff(ss[0]);
      assert forall i :: 0 <= i < |ss[1..]| ==> ss[1..][i] == ss[i + 1];
      PlainAsIs(ss[1..]);
      forall i | 0 <= i < |ss| ensures IsQuotable(ss[i]) {
        assert i > 0 ==> ss[i] == ss[1..][i - 1];
      }
    }
  }

  lemma BlacklistIsMessage(name: string, message: string, ips: seq<string>, family: string -> Family)
    requires ips != [] && IsQuotable(name) && IsQuotable(message) && AreQuotable(WithPrefixes(ips, family))
    ensures IsMessage(BlacklistLines(name, message, ips, family))
    ensures Distinct(BlacklistLines(name, message, ips, family))
  {
    NamesAreNames();
    MoreNames();
    hide IsName, IsQuotable, WithPrefix;
    assert IsValue(Many(Texts(WithPrefixes(ips, family))));
    hide WithPrefixes;
  }

  /** The server gets the name, the message and the addresses that were sent, in order and with their escapes undone. */
  lemma BlacklistArrives(name: string, message: string, ips: seq<string>, family: string -> Family)
    requires ips != [] && IsQuotable(name) && IsQuotable(message) && AreQuotable(WithPrefixes(ips, family))
    ensures IsMessage(BlacklistLines(name, message, ips, family))
    ensures BlacklistOf(Received(BlacklistLines(name, message, ips, family))) ==
            Some((Unescaped(name), Unescaped(message), AllUnescaped(WithPrefixes(ips, family))))
  {
    var ls := BlacklistLines(name, message, ips, family);
    BlacklistIsMessage(name, message, ips, family);
    hide IsMessage, Received, Assigned, Distinct, WithPrefixes, AreQuotable, IsQuotable, Texts, StringsOf, Unescaped,
      AllUnescaped;
    ReceivedIsAssigned(ls);
    AssignedAt(ls, 0);
    AssignedAt(ls, 1);
    AssignedAt(ls, 2);
    TextsAsRead(WithPrefixes(ips, family));
    StringsOfTexts(AllUnescaped(WithPrefixes(ips, family)));
  }

  /** The end of the first line of the shipped example's message: as the setup program sends it, having read it from the
      configuration file, and as the server then expands it, at a newline. */
  lemma LineEndArrives()
    ensures IsQuotable("p\\\\n") && Unescaped("p\\\\n") == "p\\n" && Expand("p\\n", "0").out == "p\n"
    ensures !IsPlain("p\\\\n")
  {
    var w := "p\\\\n";
    assert w[1..] == "\\\\n" && "\\\\n"[1..] == "\\n" && "\\n"[1..] == "n" && "n"[1..] == "";
    assert UnescapedFrom("n", false) == "n" && UnescapedFrom("\\n", true) == "\\n";
    assert UnescapedFrom("\\\\n", false) == "\\n";
    assert Encloses("n", false) && Encloses("\\n", true) && Encloses("\\\\n", false);
    assert "p\\n"[..2] == "p\\" && "p\\"[..1] == "p" && "p"[..0] == "";
    assert Expand("p", "0") == Expansion("p", None) && Expand("p\\", "0") == Expansion("p", Some('\\'));
    assert w[1] == '\\';
  }

  /** Prints a list for the server; nothing is sent for an empty one. */
  method SendConfig(name: string, message: string, ips: seq<string>, family: string -> Family) returns (out: string)
    ensures out == if ips == [] then "" else PrintMessage(BlacklistLines(name, message, ips, family))
  {
    out := "";
    if |ips| > 0 {
      BlacklistText(name, message, ips, family);
      hide PrintMessage, BlacklistLines, Joined, Texts, WithPrefixes;
      out := "name=\"" + name + "\"\n";
      out := out + ("message=\"" + message + "\"\n");
      out := out + "ips=[";
      var items := PrintStrings(WithPrefixes(ips, family));
      out := out + items;
      out := out + "]\n%\n";
    }
  }

  /** Quoted strings, a comma before each but the first. */
  method PrintStrings(ss: seq<string>) returns (out: string)
    ensures out == Joined(Texts(ss))
  {
    ghost var vs := Texts(ss);
    var first := true;
    out := "";
    for i := 0 to |ss|
      invariant first == (i == 0)
      invariant out == Joined(vs[..i])
    {
      out := out + (if first then "" else ",") + ("\"" + ss[i] + "\"");
      first := false;
      JoinedNext(vs, i);
    }
    assert vs[..|ss|] == vs;
  }

  lemma TextLine(name: string, s: string)
    ensures PrintLine(Line(name, false, Text(s))) + "\n" == name + "=\"" + s + "\"\n"
  {
    assert name + "=" + ("\"" + s + "\"") + "\n" == name + ("=" + "\"") + s + ("\"" + "\n");
    assert "=" + "\"" == "=\"" && "\"" + "\n" == "\"\n";
  }

  lemma ListLine(name: string, vs: seq<Value>)
    ensures PrintLine(Line(name, false, Many(vs))) + "\n" + "%\n" == name + "=[" + Joined(vs) + "]\n%\n"
  {
    hide Joined;
    assert name + "=" + ("[" + Joined(vs) + "]") + "\n" + "%\n"
        == name + ("=" + "[") + Joined(vs) + ("]" + "\n" + "%\n");
    assert "=" + "[" == "=[" && "]" + "\n" + "%\n" == "]\n%\n";
  }

  lemma ThreeLines(a: Line, b: Line, c: Line)
    ensures PrintMessage([a, b, c]) == (PrintLine(a) + "\n") + (PrintLine(b) + "\n") + (PrintLine(c) + "\n" + "%\n")
  {
    hide PrintLine;
    var ls := [a, b, c];
    var x, y, z := PrintLine(a) + "\n", PrintLine(b) + "\n", PrintLine(c) + "\n";
    assert ls[1..] == [b, c] && [b, c][1..] == [c] && [c][1..] == [];
    assert PrintLines([c]) == z + "" == z;
    assert PrintLines([b, c]) == y + z;
    assert PrintLines(ls) == x + (y + z);
    assert x + (y + z) + "%\n" == x + y + (z + "%\n");
  }

  lemma BlacklistText(name: string, message: string, ips: seq<string>, family: string -> Family)
    ensures PrintMessage(BlacklistLines(name, message, ips, family)) ==
            "name=\"" + name + "\"\n" + ("message=\"" + message + "\"\n") + "ips=["
                + Joined(Texts(WithPrefixes(ips, family)))
            + "]\n%\n"
  {
    var vs := Texts(WithPrefixes(ips, family));
    hide Texts, WithPrefixes, PrintMessage, PrintLine, Joined;
    ThreeLines(Line("name", false, Text(name)), Line("message", false, Text(message)), Line("ips", false, Many(vs)));
    TextLine("name", name);
    TextLine("message", message);
    ListLine("ips", vs);
    assert "name" + "=\"" == "name=\"" && "message" + "=\"" == "message=\"" && "ips" + "=[" == "ips=[";
    var a, b := "name=\"" + name + "\"\n", "message=\"" + message + "\"\n";
    assert a + b + ("ips=[" + Joined(vs) + "]\n%\n") == a + b + "ips=[" + Joined(vs) + "]\n%\n";
  }

  lemma {:induction false} MoreNext(vs: seq<Value>, v: Value)
    ensures PrintMore(vs + [v]) == PrintMore(vs) + "," + PrintItem(v)
  {
    hide PrintItem;
    if vs == [] {
      assert vs + [v] == [v] && [v][1..] == [];
      assert PrintMore([]) == "" && "," + PrintItem(v) + "" == "" + "," + PrintItem(v);
    } else {
      MoreNext(vs[1..], v);
      assert (vs + [v])[0] == vs[0] && (vs + [v])[1..] == vs[1..] + [v];
      var head := "," + PrintItem(vs[0]);
      assert head + (PrintMore(vs[1..]) + "," + PrintItem(v)) == head + PrintMore(vs[1..]) + "," + PrintItem(v);
    }
  }

  lemma JoinedNext(vs: seq<Value>, i: nat)
    requires i < |vs|
    ensures Joined(vs[..i + 1]) == Joined(vs[..i]) + (if i == 0 then "" else ",") + PrintItem(vs[i])
  {
    hide PrintItem;
    if i > 0 {
      MoreNext(vs[1..i], vs[i]);
      assert vs[..i][1..] == vs[1..i] && vs[..i + 1][1..] == vs[1..i] + [vs[i]];
    }
  }

  // ---------------------------------------------------------------- whitelists to the firewall

  function ReplaceLines(name: string, af: nat, ips: seq<string>): seq<Line> {
    [Line("type", false, Text("replace")), Line("name", false, Text(name)), Line("af", false, Number(af)),
     Line("ips", false, Many(Texts(ips)))]
  }

  /** What reaches the firewall: the set's name, its family and the addresses that are any, when there are some. */
  function ReplaceOf(vars: Vars, inet: int, valid: string -> bool): Option<(string, int, seq<string>)> {
    var name, ips := GetStr(vars, "name"), GetList(vars, "ips");
    if GetStr(vars, "type") != Some("replace") || ips.None? then None else
    var whitelist := Valid(StringsOf(ips.value), valid);
    if whitelist == [] then None
    else Some((if name.Some? then name.value else "", GetInt(vars, "af", inet), whitelist))
  }

  function Valid(ss: seq<string>, valid: string -> bool): seq<string> {
    if ss == [] then [] else (if valid(ss[0]) then [ss[0]] else []) + Valid(ss[1..], valid)
  }

  lemma {:induction false} AllValid(ss: seq<string>, valid: string -> bool)
    requires forall i :: 0 <= i < |ss| ==> valid(ss[i])
    ensures Valid(ss, valid) == ss
  {
    if ss != [] {
      AllValid(ss[1..], valid);
    }
  }

  lemma ReplaceAsRead()
    ensures IsQuotable("replace") && Unescaped("replace") == "replace"
  {
    assert IsPlain("replace");
    PlainIff("replace");
  }

  lemma ReplaceIsMessage(name: string, af: nat, ips: seq<string>)
    requires ips != [] && IsPlain(name) && ArePlain(ips)
    ensures IsMessage(ReplaceLines(name, af, ips)) && Distinct(ReplaceLines(name, af, ips))
  {
    hide IsName, IsPlain, IsQuotable;
    NamesAreNames();
    MoreNames();
    ReplaceAsRead();
    PlainIff(name);
    PlainAsIs(ips);
    TextsAreValue(ips);
    hide Texts, ArePlain, AreQuotable;
    ReplaceNames(ReplaceLines(name, af, ips));
  }

  lemma TextsAreValue(ss: seq<string>)
    requires ss != [] && AreQuotable(ss)
    ensures IsValue(Many(Texts(ss)))
  {
    hide IsQuotable;
  }

  lemma ReplaceNames(ls: seq<Line>)
    requires |ls| == 4 && ls[0].name == "type" && ls[1].name == "name" && ls[2].name == "af" && ls[3].name == "ips"
    ensures Distinct(ls)
  {
  }

  /** A whitelist of valid addresses reaches the firewall complete and in order. */
  lemma WhitelistArrives(name: string, af: nat, ips: seq<string>, inet: int, valid: string -> bool)
    requires ips != [] && IsPlain(name) && ArePlain(ips) && forall i :: 0 <= i < |ips| ==> valid(ips[i])
    ensures IsMessage(ReplaceLines(name, af, ips))
    ensures ReplaceOf(Received(ReplaceLines(name, af, ips)), inet, valid) == Some((name, af, ips))
  {
    var ls := ReplaceLines(name, af, ips);
    ReplaceIsMessage(name, af, ips);
    AllValid(ips, valid);
    hide IsMessage, Received, Assigned, Distinct, ArePlain, AreQuotable, IsPlain, IsQuotable, Texts, StringsOf, Valid,
      Unescaped, AllUnescaped;
    ReplaceAsRead();
    PlainIff(name);
    PlainAsIs(ips);
    TextsAsRead(ips);
    ReceivedIsAssigned(ls);
    AssignedAt(ls, 0);
    AssignedAt(ls, 1);
    AssignedAt(ls, 2);
    AssignedAt(ls, 3);
    StringsOfTexts(ips);
  }

  /** Prints a whitelist for the firewall; nothing is sent for an empty one. */
  method UpdateFirewall(name: string, af: nat, ips: seq<string>) returns (out: string)
    ensures out == if ips == [] then "" else PrintMessage(ReplaceLines(name, af, ips))
  {
    out := "";
    if |ips| > 0 {
      ReplaceText(name, af, ips);
      hide PrintMessage, ReplaceLines, Joined, Texts, Decimal;
      out := "type=\"replace\"\n";
      out := out + ("name=\"" + name + "\"\n");
      out := out + ("af=" + Decimal(af) + "\n");
      out := out + "ips=[";
      var items := PrintStrings(ips);
      out := out + items;
      out := out + "]\n%\n";
    }
  }

  lemma FourLines(a: Line, b: Line, c: Line, d: Line)
    ensures PrintMessage([a, b, c, d]) == (PrintLine(a) + "\n") + PrintMessage([b, c, d])
  {
    hide PrintLine;
    assert [a, b, c, d][1..] == [b, c, d];
    assert PrintLine(a) + "\n" + PrintLines([b, c, d]) + "%\n" == PrintLine(a) + "\n" + (PrintLines([b, c, d]) + "%\n");
  }

  lemma ReplaceText(name: string, af: nat, ips: seq<string>)
    ensures PrintMessage(ReplaceLines(name, af, ips)) ==
            "type=\"replace\"\n" + ("name=\"" + name + "\"\n") + ("af=" + Decimal(af) + "\n") + "ips=["
                + Joined(Texts(ips))
            + "]\n%\n"
  {
    var vs := Texts(ips);
    hide Texts, PrintMessage, Joined, Decimal;
    var a, b := Line("type", false, Text("replace")), Line("name", false, Text(name));
    var c, d := Line("af", false, Number(af)), Line("ips", false, Many(vs));
    assert PrintLine(c) + "\n" == "af=" + Decimal(af) + "\n" by {
      assert "af" + "=" == "af=";
    }
    hide PrintLine;
    FourLines(a, b, c, d);
    ThreeLines(b, c, d);
    TextLine("type", "replace");
    TextLine("name", name);
    ListLine("ips", vs);
    assert "type" + "=\"" + "replace" + "\"\n" == "type=\"replace\"\n";
    assert "name" + "=\"" == "name=\"" && "ips" + "=[" == "ips=[";
    var x, y, z := "type=\"replace\"\n", "name=\"" + name + "\"\n", "af=" + Decimal(af) + "\n";
    var end := "ips=[" + Joined(vs) + "]\n%\n";
    assert x + (y + z + end) == x + y + z + end;
    assert x + y + z + end == x + y + z + "ips=[" + Joined(vs) + "]\n%\n";
  }
}
