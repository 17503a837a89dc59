/** What the lines of a client say: the argument of HELO and the paths of MAIL and RCPT, and what one step makes of
    them. */
module Envelopes {
  import opened Wrappers
  import opened Fold
  import opened Reply
  import opened Con

  // ---------------------------------------------------------------- lines

  predicate IsBlank(c: char) {
    c == ' ' || c == '\t'
  }

  predicate AreBlanks(s: string) {
    forall i :: 0 <= i < |s| ==> IsBlank(s[i])
  }

  predicate EndsWord(s: string) {
    s == "" || IsBlank(s[0])
  }

  /** Text that a line can hold without a blank in it. */
  predicate IsSolid(s: string) {
    forall i :: 0 <= i < |s| ==> s[i] !in " \t\n\r"
  }

  /** A path without the characters that are dropped from it, and short enough for its field. */
  predicate IsPath(s: string) {
    IsSolid(s) && |s| <= 1021 && forall i :: 0 <= i < |s| ==> s[i] !in "\\\"><"
  }

  function Lowered(s: string): string {
    seq(|s|, i requires 0 <= i < |s| => Lower(s[i]))
  }

  /** How a line is worded around its argument. */
  datatype Wording = Wording(verb: string, middle: string, gap: string, tail: string)

  /** `MAIL FROM:<path>` and its like, in any case, with blanks before the path and perhaps parameters behind it. */
  predicate IsAddressLine(line: string, w: Wording, word: string, path: string) {
    && line == w.verb + w.middle + (":" + (w.gap + ("<" + path + ">" + w.tail)))
    && EqualFold(w.verb, word) && ':' !in w.verb + w.middle && AreBlanks(w.gap) && EndsWord(w.tail) && IsPath(path)
  }

  /** `HELO name`. */
  predicate IsHeloLine(line: string, w: Wording, word: string, name: string) {
    && line == w.verb + (w.gap + (name + w.tail))
    && EqualFold(w.verb, word) && word in {"HELO", "EHLO"} && AreBlanks(w.gap) && EndsWord(w.tail)
    && IsSolid(name) && 0 < |name| <= 1023
  }

  // ---------------------------------------------------------------- arguments

  lemma {:induction false} BlanksSkipped(gap: string, t: string)
    requires AreBlanks(gap) && (t != "" ==> !IsBlank(t[0]))
    ensures SkipBlanks(gap + t) == t
    decreases |gap|
  {
    if gap == "" {
      assert gap + t == t;
    } else {
      BlanksSkipped(gap[1..], t);
      assert (gap + t)[1..] == gap[1..] + t;
    }
  }

  lemma {:induction false} WordTaken(s: string, t: string)
    requires IsSolid(s) && EndsWord(t)
    ensures Word(s + t) == s
    decreases |s|
  {
    if s == "" {
      assert s + t == t;
    } else {
      WordTaken(s[1..], t);
      assert (s + t)[1..] == s[1..] + t && s == [s[0]] + s[1..];
    }
  }

  lemma {:induction false} ColonFound(a: string, t: string)
    requires ':' !in a
    ensures AfterColon(a + (":" + t)) == Some(t)
    decreases |a|
  {
    if a == "" {
      assert a + (":" + t) == ":" + t && (":" + t)[1..] == t;
    } else {
      ColonFound(a[1..], t);
      assert (a + (":" + t))[1..] == a[1..] + (":" + t);
    }
  }

  lemma {:induction false} PathCleaned(s: string)
    requires IsPath(s)
    ensures Cleaned(s + ">") == Lowered(s)
    decreases |s|
  {
    if s == "" {
      assert Cleaned(">") == [] + Cleaned("") && s + ">" == ">" && ">"[1..] == "";
    } else {
      PathCleaned(s[1..]);
      assert (s + ">")[1..] == s[1..] + ">" && Lowered(s) == [Lower(s[0])] + Lowered(s[1..]);
    }
  }

  /** What the field holds afterwards: the path in lower case, and what a longer one before left behind it. */
  function FieldAfter(before: string, path: string): string {
    Lowered(path) + if |path| < |before| then before[|path|..] else ""
  }

  lemma PathRead(line: string, w: Wording, word: string, path: string, field: string)
    requires IsAddressLine(line, w, word, path)
    ensures Normalized(AddressArgument(line), field) == FieldAfter(field, path)
  {
    var arg := "<" + path + ">";
    ColonFound(w.verb + w.middle, w.gap + (arg + w.tail));
    assert arg + w.tail == "<" + path + ">" + w.tail;
    BlanksSkipped(w.gap, arg + w.tail);
    assert IsSolid(arg);
    WordTaken(arg, w.tail);
    PathCleaned(path);
    assert arg[1..] == path + ">";
  }

  lemma NameRead(line: string, w: Wording, word: string, name: string)
    requires IsHeloLine(line, w, word, name)
    ensures |line| >= 4 && HeloArgument(line) == name
  {
    assert line[4..] == w.gap + (name + w.tail);
    BlanksSkipped(w.gap, name + w.tail);
    WordTaken(name, w.tail);
  }

  lemma LineMatches(verb: string, rest: string, word: string)
    requires EqualFold(verb, word)
    ensures Matches(verb + rest, word)
  {
    assert (verb + rest)[..|word|] == verb;
  }

  // ---------------------------------------------------------------- steps

  /** Everything the client has said, and who it is. */
  predicate SameWords(c: Con, d: Con) {
    && d.mail == c.mail && d.rcpt == c.rcpt && d.helo == c.helo && d.srcAddr == c.srcAddr && d.dstAddr == c.dstAddr
    && d.blacklists == c.blacklists
  }

  /** An answer is to be written. */
  predicate Answers(d: Con, text: string, next: State) {
    d.out == Pending(text, 0, |text|) && d.state == next
  }

  lemma HeloStep(c: Con, env: Env, w: Wording, word: string, name: string)
    requires c.state == HeloIn && IsHeloLine(c.inBuf, w, word, name)
    ensures var d := Next(c, env);
            && Answers(d, "250 " + env.hostname + "\r\n", HeloOut) && d.r == c.r && d.helo == name
            && SameWords(c.(helo := name), d) && ReportOf(c, env).None?
    ensures CommandOf(c.inBuf) in {Helo, Ehlo}
  {
    LineMatches(w.verb, w.gap + (name + w.tail), word);
    CommandIsItsWord(c.inBuf);
    NameRead(c.inBuf, w, word, name);
    hide CommandOf, HeloArgument, Matches, IsHeloLine, ReplyOutput, AddressArgument;
  }

  /** Without a name HELO is refused, and may be said again. */
  lemma NamelessStep(c: Con, env: Env, verb: string, gap: string, word: string)
    requires c.state == HeloIn && c.inBuf == verb + gap && EqualFold(verb, word) && word in {"HELO", "EHLO"}
    requires AreBlanks(gap)
    ensures var d := Next(c, env);
            && Answers(d, "501 Syntax: " + word + " hostname\r\n", BannerOut)
            && SameWords(c.(helo := ""), d) && ReportOf(c, env).None?
  {
    LineMatches(verb, gap, word);
    CommandIsItsWord(c.inBuf);
    assert c.inBuf[4..] == gap + "";
    BlanksSkipped(gap, "");
    hide CommandOf, Matches, ReplyOutput, AddressArgument;
  }

  /** NOOP and what is not recognised lead back to where the client was; the latter is counted. */
  lemma OtherStep(c: Con, env: Env)
    requires c.state in {HeloIn, MailIn, RcptIn} && CommandOf(c.inBuf) in {Noop, Unknown} && c.badCmd < MAX_BAD_CMD
    ensures var d := Next(c, env);
            var text := if CommandOf(c.inBuf) == Noop then "250 OK\r\n" else "500 Command unrecognized\r\n";
            && Answers(d, text, c.lastState) && SameWords(c, d) && ReportOf(c, env).None?
            && d.badCmd == c.badCmd + if CommandOf(c.inBuf) == Noop then 0 else 1
  {
    hide CommandOf, AddressArgument, ReplyOutput;
  }

  /** What comes from no proxy, or from one that is not accepted, ends the session. */
  lemma ProxyStep(c: Con, env: Env)
    requires c.state == ProxyOut && CommandOf(c.inBuf) != Quit && !(Matches(c.inBuf, "PROXY") && env.proxy.Accepted?)
    ensures Next(c, env).state == Close && ReportOf(c, env).None?
  {
    hide CommandOf, Matches, ReplyOutput, Obeyed;
  }

  lemma MailStep(c: Con, env: Env, w: Wording, path: string)
    requires c.state in {HeloIn, MailIn} && IsAddressLine(c.inBuf, w, "MAIL", path)
    ensures var d := Next(c, env);
            && Answers(d, "250 OK\r\n", MailOut) && d.r == c.r && d.mail == FieldAfter(c.mail, path)
            && SameWords(c.(mail := FieldAfter(c.mail, path)), d) && ReportOf(c, env).None?
    ensures CommandOf(c.inBuf) == Mail
  {
    hide CommandOf, AddressArgument, Normalized, Matches, IsAddressLine, ReplyOutput, HeloArgument, FieldAfter, Finish;
    AddressCommand(c.inBuf, w, "MAIL", path);
    CommandIsItsWord(c.inBuf);
    PathRead(c.inBuf, w, "MAIL", path, c.mail);
    assert Next(c, env) == Obeyed(c, Mail, env);
  }

  lemma AddressCommand(line: string, w: Wording, word: string, path: string)
    requires IsAddressLine(line, w, word, path)
    ensures Matches(line, word)
  {
    var rest := w.middle + (":" + (w.gap + ("<" + path + ">" + w.tail)));
    assert line == w.verb + rest;
    LineMatches(w.verb, rest, word);
  }

  /** A greylisted client is reported, with the destination that it was sent to if that is known. */
  lemma RcptStep(c: Con, env: Env, w: Wording, path: string)
    requires c.state in {HeloIn, MailIn, RcptIn} && IsAddressLine(c.inBuf, w, "RCPT", path)
    ensures var d := Next(c, env);
            var rcpt := FieldAfter(c.rcpt, path);
            var dst := if env.origDst.Some? then env.origDst.value else c.dstAddr;
            var reported := env.greylist && c.blacklists == [] && c.mail != "" && rcpt != "";
            && Answers(d, "250 OK\r\n", RcptOut) && d.r == c.r
            && SameWords(c.(rcpt := rcpt, dstAddr := if reported then dst else c.dstAddr), d)
            && ReportOf(c, env) == if reported then Some(Report(dst, c.srcAddr, c.helo, c.mail, rcpt)) else None
    ensures CommandOf(c.inBuf) == Rcpt
  {
    hide CommandOf, AddressArgument, Normalized, Matches, IsAddressLine, ReplyOutput, HeloArgument, FieldAfter, Finish;
    AddressCommand(c.inBuf, w, "RCPT", path);
    CommandIsItsWord(c.inBuf);
    PathRead(c.inBuf, w, "RCPT", path, c.rcpt);
    assert Next(c, env) == Obeyed(c, Rcpt, env);
  }

  /** A greylisted client is sent away after DATA, any other is asked for its message. */
  lemma DataStep(c: Con, env: Env)
    requires c.state in {HeloIn, MailIn, RcptIn} && Matches(c.inBuf, "DATA")
    ensures var d := Next(c, env);
            && SameWords(c, d) && d.r == c.r && ReportOf(c, env).None?
            && if env.greylist && c.blacklists == [] then Answers(d, TEMPORARY_FAILURE, Close)
               else Answers(d, "354 End data with <CR><LF>.<CR><LF>\r\n", DataOut)
  {
    CommandIsItsWord(c.inBuf);
    hide CommandOf, Matches;
  }

  // ---------------------------------------------------------------- the field of an earlier path

  /** A path takes the place of the one before exactly when it is not shorter. */
  lemma FieldIff(before: string, path: string)
    ensures FieldAfter(before, path) == Lowered(path) <==> |before| <= |path|
  {
  }

  /** After `MAIL FROM:<alice@example.com>` and a reset, `MAIL FROM:<bob@x.org>` makes this the sender. */
  lemma SenderShows()
    ensures FieldAfter("alice@example.com", "bob@x.org") == "bob@x.orgmple.com"
  {
    assert Lowered("bob@x.org") == "bob@x.org";
    assert "alice@example.com"[9..] == "mple.com";
  }
}
