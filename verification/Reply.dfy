/** The rejection a blacklisted client gets: the blacklists' messages, expanded and joined into one multi-line
    reply (section 4.2.1 of RFC 5321). */
module Reply {
  import opened Wrappers

  // ---------------------------------------------------------------- expanding one message

  /** What has been put out so far and the escape character that is waiting for its partner. */
  datatype Expansion = Expansion(out: string, saved: Option<char>)

  function ExpandChar(e: Expansion, c: char, src: string): Expansion {
    if c == '\\' || c == '%' then
      if e.saved.None? then e.(saved := Some(c)) else Expansion(e.out + [e.saved.value], None)
    else if e.saved == Some('\\') && c == 'n' then Expansion(e.out + "\n", None)
    else if e.saved == Some('%') && c == 'A' then Expansion(e.out + src, None)
    else Expansion(e.out + (if e.saved.Some? then [e.saved.value] else []) + [c], None)
  }

  function Expand(fmt: string, src: string): Expansion {
    if fmt == "" then Expansion("", None) else ExpandChar(Expand(fmt[..|fmt| - 1], src), fmt[|fmt| - 1], src)
  }

  predicate EndsLine(t: string) {
    t != "" && t[|t| - 1] == '\n'
  }

  /** A message gets a newline of its own unless its text ends in one; a dangling escape opens another line. */
  predicate NeedsNewline(e: Expansion) {
    !EndsLine(e.out) || e.saved.Some?
  }

  function MessageText(fmt: string, src: string): string {
    var e := Expand(fmt, src);
    e.out + if NeedsNewline(e) then "\n" else ""
  }

  function Text(messages: seq<string>, src: string): string {
    if messages == [] then "" else Text(messages[..|messages| - 1], src) + MessageText(messages[|messages| - 1], src)
  }

  // ---------------------------------------------------------------- multi-line replies

  /** The lines of a text, each with its newline; a last line may lack it. */
  function Lines(t: string): (ls: seq<string>)
    ensures |ls| > 0 <==> t != ""
  {
    if t == "" then [] else
    var n := FirstLine(t);
    [t[..n]] + Lines(t[n..])
  }

  function FirstLine(t: string): (n: nat)
    requires t != ""
    ensures 0 < n <= |t| && '\n' !in t[..n - 1] && (t[n - 1] == '\n' || n == |t|)
  {
    if t[0] == '\n' || |t| == 1 then 1 else
    var n := 1 + FirstLine(t[1..]);
    assert t[..n - 1] == [t[0]] + t[1..][..n - 2];
    n
  }

  function Join(ls: seq<string>): string {
    if ls == [] then "" else ls[0] + Join(ls[1..])
  }

  /** Every line starts with the code, followed by a dash on all lines but the last and a space on the last. */
  function Prefixed(code: string, ls: seq<string>): seq<string> {
    seq(|ls|, i requires 0 <= i < |ls| => code + (if i == |ls| - 1 then " " else "-") + ls[i])
  }

  /** The reply that carries a text. */
  function MultiLine(code: string, t: string): string {
    Join(Prefixed(code, Lines(t)))
  }

  /** A reply under construction and the place of the mark that follows the code in its last line. */
  datatype Draft = Draft(buf: string, mark: nat)

  /** The draft after text `t`: a new line is opened, and the mark of the one before patched, only when more text
      follows. */
  ghost function DraftOf(code: string, t: string): (d: Draft)
    ensures d.mark < |d.buf| && d.buf[d.mark] == ' '
  {
    if t == "" then Draft(code + " ", |code|)
    else if EndsLine(t[..|t| - 1]) then
      var o := Opened(code, DraftOf(code, t[..|t| - 1]));
      Draft(o.buf + [t[|t| - 1]], o.mark)
    else
      var d := DraftOf(code, t[..|t| - 1]);
      Draft(d.buf + [t[|t| - 1]], d.mark)
  }

  /** A new line is opened. */
  ghost function Opened(code: string, d: Draft): (o: Draft)
    requires d.mark < |d.buf|
    ensures o.mark < |o.buf| && o.buf[o.mark] == ' '
  {
    Draft(d.buf[d.mark := '-'] + code + " ", |d.buf| + |code|)
  }

  /** One more character, on the line that is open or on a new one. */
  ghost function Extended(code: string, d: Draft, opens: bool, c: char): Draft
    requires d.mark < |d.buf|
  {
    var o := if opens then Opened(code, d) else d;
    Draft(o.buf + [c], o.mark)
  }

  lemma DraftSnoc(code: string, t: string, c: char)
    requires t != ""
    ensures DraftOf(code, t + [c]) == Extended(code, DraftOf(code, t), EndsLine(t), c)
  {
    assert (t + [c])[..|t + [c]| - 1] == t;
  }

  /** The draft `d`, behind `p`. */
  ghost function Behind(p: string, d: Draft): Draft {
    Draft(p + d.buf, |p| + d.mark)
  }

  lemma ExtendedBehind(code: string, p: string, d: Draft, opens: bool, c: char)
    requires d.mark < |d.buf|
    ensures Extended(code, Behind(p, d), opens, c) == Behind(p, Extended(code, d, opens, c))
  {
    assert (p + d.buf)[|p| + d.mark := '-'] == p + d.buf[d.mark := '-'];
  }

  /** The first line in front of a draft. */
  lemma {:induction false} DraftBehindLine(code: string, l: string, t: string)
    requires EndsLine(l) && '\n' !in l[..|l| - 1] && t != ""
    ensures DraftOf(code, l + t) == Behind(code + "-" + l, DraftOf(code, t))
  {
    var n := |t| - 1;
    var k, c := t[..n], t[n];
    var p := code + "-" + l;
    assert t == k + [c];
    assert l + t == (l + k) + [c];
    DraftSnoc(code, l + k, c);
    if n == 0 {
      assert l + k == l;
      DraftOneLine(code, l);
      assert (code + " " + l)[|code| := '-'] == p;
      DraftOneLine(code, t);
    } else {
      DraftBehindLine(code, l, k);
      assert EndsLine(k) == EndsLine(l + k);
      ExtendedBehind(code, p, DraftOf(code, k), EndsLine(k), c);
      DraftSnoc(code, k, c);
    }
  }

  lemma {:induction false} DraftOneLine(code: string, l: string)
    requires l != "" ==> '\n' !in l[..|l| - 1]
    ensures DraftOf(code, l) == Draft(code + " " + l, |code|)
  {
    if l != "" {
      var k := l[..|l| - 1];
      assert !EndsLine(k) by {
        assert k != "" ==> k[|k| - 1] in l[..|l| - 1];
      }
      assert k != "" ==> forall c :: c in k[..|k| - 1] ==> c in k;
      DraftOneLine(code, k);
      assert code + " " + l == (code + " " + k) + [l[|l| - 1]];
    }
  }

  lemma PrefixedMore(code: string, l: string, ls: seq<string>)
    requires ls != []
    ensures Prefixed(code, [l] + ls) == [code + "-" + l] + Prefixed(code, ls)
  {
  }

  lemma PrefixedOne(code: string, l: string)
    ensures Prefixed(code, [l]) == [code + " " + l]
  {
  }

  lemma JoinMore(l: string, ls: seq<string>)
    ensures Join([l] + ls) == l + Join(ls)
  {
    assert ([l] + ls)[1..] == ls;
  }

  /** The first line of a text and the rest. */
  lemma SplitLine(t: string) returns (l: string, rest: string)
    requires t != ""
    ensures t == l + rest && l != "" && Lines(t) == [l] + Lines(rest) && '\n' !in l[..|l| - 1]
    ensures rest != "" ==> EndsLine(l)
  {
    var n := FirstLine(t);
    l, rest := t[..n], t[n..];
    assert l[..n - 1] == t[..n - 1];
  }

  /** The back-patched draft is the multi-line reply. */
  lemma {:induction false} DraftIsMultiLine(code: string, t: string)
    requires t != ""
    ensures DraftOf(code, t).buf == MultiLine(code, t)
    decreases |t|
  {
    hide DraftOf, Prefixed, Lines, Join;
    var l, rest := SplitLine(t);
    if rest == "" {
      OneLine(code, t, l);
      DraftOneLine(code, t);
    } else {
      DraftBehindLine(code, l, rest);
      DraftIsMultiLine(code, rest);
      SeveralLines(code, t, l, rest);
    }
  }

  lemma NoLine()
    ensures Lines("") == [] && Join([]) == ""
  {
  }

  lemma OneLine(code: string, t: string, l: string)
    requires t == l + "" && Lines(t) == [l] + Lines("")
    ensures l == t && Prefixed(code, Lines(t)) == [code + " " + t] && MultiLine(code, t) == code + " " + t
  {
    hide Prefixed;
    NoLine();
    assert l + "" == l && [l] + [] == [l];
    PrefixedOne(code, t);
    JoinMore(code + " " + t, []);
    assert [code + " " + t] + [] == [code + " " + t];
  }

  lemma SeveralLines(code: string, t: string, l: string, rest: string)
    requires Lines(t) == [l] + Lines(rest) && rest != ""
    ensures Prefixed(code, Lines(t)) == [code + "-" + l] + Prefixed(code, Lines(rest))
    ensures MultiLine(code, t) == code + "-" + l + MultiLine(code, rest)
  {
    hide Prefixed, Join;
    PrefixedMore(code, l, Lines(rest));
    JoinMore(code + "-" + l, Prefixed(code, Lines(rest)));
  }

  /** Reading a reply back line by line gives the lines of its text, each behind its prefix. */
  lemma {:induction false} ReplyLines(code: string, t: string)
    requires '\n' !in code && t != ""
    ensures Lines(MultiLine(code, t)) == Prefixed(code, Lines(t))
    ensures Join(Lines(t)) == t
    decreases |t|
  {
    hide Prefixed, Lines, Join, MultiLine;
    var l, rest := SplitLine(t);
    JoinMore(l, Lines(rest));
    if rest == "" {
      OneLine(code, t, l);
      NoLine();
      LineInFront(code + " " + l, "");
      assert code + " " + l + "" == code + " " + t && [code + " " + l] + [] == [code + " " + l];
    } else {
      ReplyLines(code, rest);
      SeveralLines(code, t, l, rest);
      LineInFront(code + "-" + l, MultiLine(code, rest));
    }
  }

  lemma LineInFront(l: string, t: string)
    requires l != "" && '\n' !in l[..|l| - 1] && (l[|l| - 1] == '\n' || t == "")
    ensures Lines(l + t) == [l] + Lines(t)
  {
    FirstLineIs(l, t);
    assert (l + t)[..|l|] == l && (l + t)[|l|..] == t;
  }

  lemma {:induction false} FirstLineIs(l: string, t: string)
    requires l != "" && '\n' !in l[..|l| - 1] && (l[|l| - 1] == '\n' || t == "")
    ensures FirstLine(l + t) == |l|
  {
    if |l| > 1 {
      assert l[0] in l[..|l| - 1];
      assert (l + t)[1..] == l[1..] + t;
      assert l[..|l| - 1] == [l[0]] + l[1..][..|l| - 2];
      FirstLineIs(l[1..], t);
    }
  }

  // ---------------------------------------------------------------- building the reply

  /** A draft whose last line may be open without any text on it. */
  ghost function Shown(code: string, t: string, isOpen: bool): (d: Draft)
    ensures d.mark < |d.buf|
  {
    if isOpen && t != "" then Opened(code, DraftOf(code, t)) else DraftOf(code, t)
  }

  /** After the expansion `e` of a message the last line is open and empty. */
  predicate OpenLine(e: Expansion) {
    e.out == "" || (EndsLine(e.out) && e.saved.Some?)
  }

  lemma LastOfDraft(code: string, t: string)
    requires t != ""
    ensures DraftOf(code, t).buf[|DraftOf(code, t).buf| - 1] == t[|t| - 1]
  {
  }

  /** Text put on the line that is open. */
  lemma {:induction false} Emit(code: string, t: string, isOpen: bool, s: string)
    requires if isOpen then t == "" || EndsLine(t) else t != "" && !EndsLine(t)
    requires s != "" && '\n' !in s[..|s| - 1]
    ensures var d := Shown(code, t, isOpen); DraftOf(code, t + s) == Draft(d.buf + s, d.mark)
  {
    var n := |s| - 1;
    var k, c := s[..n], s[n];
    assert s == k + [c] && t + s == (t + k) + [c];
    if n == 0 {
      assert t + k == t;
      if t != "" {
        DraftSnoc(code, t, c);
      } else {
        DraftOneLine(code, s);
        assert t + s == s;
      }
    } else {
      assert forall x :: x in k[..n - 1] ==> x in k;
      Emit(code, t, isOpen, k);
      assert k[n - 1] in k;
      assert !EndsLine(t + k);
      DraftSnoc(code, t + k, c);
    }
  }

  /** The text that one format character puts out. */
  function Output(e: Expansion, c: char, src: string): (s: string)
    ensures ExpandChar(e, c, src).out == e.out + s
  {
    if c == '\\' || c == '%' then (if e.saved.None? then "" else [e.saved.value])
    else if e.saved == Some('\\') && c == 'n' then "\n"
    else if e.saved == Some('%') && c == 'A' then src
    else (if e.saved.Some? then [e.saved.value] else []) + [c]
  }

  predicate Saveable(e: Expansion) {
    e.saved.Some? ==> e.saved.value == '\\' || e.saved.value == '%'
  }

  lemma OutputIsOneLine(e: Expansion, c: char, src: string)
    requires src != "" && '\n' !in src && Saveable(e)
    ensures Saveable(ExpandChar(e, c, src))
    ensures Output(e, c, src) == "" <==> (c == '\\' || c == '%') && e.saved.None?
    ensures Output(e, c, src) == "" <==> ExpandChar(e, c, src).saved.Some?
    ensures Output(e, c, src) != "" ==> '\n' !in Output(e, c, src)[..|Output(e, c, src)| - 1]
  {
    assert Output(e, c, src) == src ==> forall x :: x in src[..|src| - 1] ==> x in src;
  }

  /** One format character: the line it may open, then its output. */
  lemma ExpandStep(code: string, t: string, e: Expansion, c: char, src: string)
    requires t == "" || EndsLine(t)
    requires src != "" && '\n' !in src && Saveable(e)
    ensures var d := Shown(code, t + e.out, OpenLine(e) || EndsLine(e.out));
            var e' := ExpandChar(e, c, src);
            Shown(code, t + e'.out, OpenLine(e')) == Draft(d.buf + Output(e, c, src), d.mark)
  {
    var s, e' := Output(e, c, src), ExpandChar(e, c, src);
    OutputIsOneLine(e, c, src);
    assert t + e'.out == (t + e.out) + s;
    assert e.out == "" ==> t + e.out == t;
    if s == "" {
      assert e'.out == e.out;
    } else {
      Emit(code, t + e.out, OpenLine(e) || EndsLine(e.out), s);
    }
  }

  /** The previous line is marked as continued and the code is written again at the start of a new one. */
  method OpenLineIn(buf0: string, mark0: nat, code: string) returns (buf: string, mark: nat)
    requires code != "" && mark0 < |buf0| + 1 && (mark0 == |buf0| ==> mark0 == 0)
    ensures Draft(buf, mark) ==
            if mark0 == 0 then Draft(buf0 + code + " ", |buf0| + |code|) else Opened(code, Draft(buf0, mark0))
  {
    buf := buf0;
    if mark0 != 0 {
      buf := buf[mark0 := '-'];
    }
    buf := buf + code + " ";
    mark := |buf| - 1;
  }

  method PutChar(buf0: string, saved0: Option<char>, c: char, src: string, ghost e: Expansion)
    returns (buf: string, saved: Option<char>)
    requires saved0 == e.saved
    ensures buf == buf0 + Output(e, c, src) && saved == ExpandChar(e, c, src).saved
  {
    buf, saved := buf0, saved0;
    if c == '\\' || c == '%' {
      if saved.None? {
        saved := Some(c);
      } else {
        buf := buf + [saved.value];
        saved := None;
      }
    } else if saved == Some('\\') && c == 'n' {
      buf := buf + "\n";
      saved := None;
    } else if saved == Some('%') && c == 'A' {
      buf := buf + src;
      saved := None;
    } else {
      if saved.Some? {
        buf := buf + [saved.value];
      }
      buf := buf + [c];
      saved := None;
    }
  }

  /** Appends one expanded message to the reply `buf0` of text `t`. */
  method AppendErrorString(buf0: string, fmt: string, code: string, mark0: nat, src: string, ghost t: string)
    returns (buf: string, appended: nat, mark: nat)
    requires code != "" && src != "" && '\n' !in src
    requires t == "" ==> buf0 == ""
    requires t != "" ==> EndsLine(t) && Draft(buf0, mark0) == DraftOf(code, t)
    ensures |buf| == |buf0| + appended
    ensures Draft(buf, mark) == Shown(code, t + Expand(fmt, src).out, OpenLine(Expand(fmt, src)))
  {
    hide ExpandChar;
    MarkPositive(code, t);
    buf, mark := OpenLineIn(buf0, if |buf0| == 0 then 0 else mark0, code);
    assert t + "" == t;
    var i, saved := 0, None;
    ghost var e := Expansion("", None);
    while i < |fmt|
      invariant 0 <= i <= |fmt| && |buf0| <= |buf|
      invariant e == Expand(fmt[..i], src) && saved == e.saved && Saveable(e)
      invariant Draft(buf, mark) == Shown(code, t + e.out, OpenLine(e))
    {
      assert fmt[..i + 1][..i] == fmt[..i];
      ExpandStep(code, t, e, fmt[i], src);
      OutputIsOneLine(e, fmt[i], src);
      NewLineDue(code, t, e);
      if buf[|buf| - 1] == '\n' {
        MarkPositive(code, t + e.out);
        buf, mark := OpenLineIn(buf, mark, code);
      }
      buf, saved := PutChar(buf, saved, fmt[i], src, e);
      e := ExpandChar(e, fmt[i], src);
      i := i + 1;
    }
    assert fmt[..|fmt|] == fmt;
    appended := |buf| - |buf0|;
  }

  lemma MarkPositive(code: string, t: string)
    requires code != ""
    ensures DraftOf(code, t).mark > 0
  {
  }

  lemma NewLineDue(code: string, t: string, e: Expansion)
    requires t == "" || EndsLine(t)
    ensures var d := Shown(code, t + e.out, OpenLine(e));
            d.buf[|d.buf| - 1] == '\n' <==> EndsLine(e.out) && !OpenLine(e)
  {
    if !OpenLine(e) {
      LastOfDraft(code, t + e.out);
    }
  }

  const TEMPORARY_FAILURE := "451 Temporary failure, please try again later.\r\n"

  /** The output buffer, where writing has got to in it, and how much is left to write. */
  datatype OutBuffer = Pending(buf: string, p: nat, remaining: int)

  /** How much of the reply is marked for writing: all that was there when the last message that needed a newline
      of its own got it. */
  function Remaining(messages: seq<string>, code: string, src: string, before: int): int {
    if messages == [] then before else
    if NeedsNewline(Expand(messages[|messages| - 1], src)) then |MultiLine(code, Text(messages, src))|
    else Remaining(messages[..|messages| - 1], code, src, before)
  }

  function SomeNeedsNewline(messages: seq<string>, src: string): bool {
    messages != [] &&
    (NeedsNewline(Expand(messages[|messages| - 1], src)) || SomeNeedsNewline(messages[..|messages| - 1], src))
  }

  /** The reply to a client on the blacklists with these messages, or on none. */
  function ReplyOutput(messages: seq<string>, code: string, src: string, before: OutBuffer): OutBuffer {
    if messages == [] then Pending(TEMPORARY_FAILURE, 0, |TEMPORARY_FAILURE|)
    else Pending(MultiLine(code, Text(messages, src)), if SomeNeedsNewline(messages, src) then 0 else before.p,
                 Remaining(messages, code, src, before.remaining))
  }

  lemma {:induction false} TextEndsLine(messages: seq<string>, src: string)
    ensures messages != [] ==> EndsLine(Text(messages, src))
  {
  }

  lemma MessageDone(code: string, t: string, fmt: string, src: string, d: Draft)
    requires t == "" || EndsLine(t)
    requires d == Shown(code, t + Expand(fmt, src).out, OpenLine(Expand(fmt, src)))
    ensures d.buf[|d.buf| - 1] != '\n' <==> NeedsNewline(Expand(fmt, src))
    ensures DraftOf(code, t + MessageText(fmt, src)) ==
            if NeedsNewline(Expand(fmt, src)) then Draft(d.buf + "\n", d.mark) else d
  {
    var e := Expand(fmt, src);
    assert e.out == "" ==> t + e.out == t;
    NewLineDue(code, t, e);
    if NeedsNewline(e) {
      assert t + MessageText(fmt, src) == (t + e.out) + "\n";
      Emit(code, t + e.out, OpenLine(e), "\n");
    } else {
      assert t + MessageText(fmt, src) == t + e.out;
    }
  }

  method AddMessage(o0: OutBuffer, mark0: nat, fmt: string, code: string, src: string, ghost t: string)
    returns (o: OutBuffer, mark: nat)
    requires code != "" && src != "" && '\n' !in src
    requires t == "" ==> o0.buf == ""
    requires t != "" ==> EndsLine(t) && Draft(o0.buf, mark0) == DraftOf(code, t)
    ensures Draft(o.buf, mark) == DraftOf(code, t + MessageText(fmt, src))
    ensures o.remaining == if NeedsNewline(Expand(fmt, src)) then |o.buf| else o0.remaining
    ensures o.p == if NeedsNewline(Expand(fmt, src)) then 0 else o0.p
  {
    var buf, appended;
    buf, appended, mark := AppendErrorString(o0.buf, fmt, code, mark0, src, t);
    MessageDone(code, t, fmt, src, Draft(buf, mark));
    o := o0.(buf := buf);
    if o.buf[|o0.buf| + appended - 1] != '\n' {
      o := o.(buf := o.buf + "\n");
      o := o.(p := 0, remaining := |o.buf|);
    }
  }

  lemma TextSnoc(messages: seq<string>, i: nat, code: string, src: string, before: int)
    requires i < |messages|
    ensures var t, m := Text(messages[..i], src), messages[i];
      && Text(messages[..i + 1], src) == t + MessageText(m, src)
      && EndsLine(t + MessageText(m, src)) && (i > 0 ==> EndsLine(t)) && (i == 0 ==> t == "")
      && Remaining(messages[..i + 1], code, src, before)
         == (if NeedsNewline(Expand(m, src)) then |DraftOf(code, t + MessageText(m, src)).buf|
             else Remaining(messages[..i], code, src, before))
      && SomeNeedsNewline(messages[..i + 1], src)
         == (NeedsNewline(Expand(m, src)) || SomeNeedsNewline(messages[..i], src))
  {
    assert messages[..i + 1][..i] == messages[..i];
    TextEndsLine(messages[..i], src);
    TextEndsLine(messages[..i + 1], src);
    DraftIsMultiLine(code, Text(messages[..i + 1], src));
  }

  method BuildReply(messages: seq<string>, code: string, src: string, before: OutBuffer) returns (o: OutBuffer)
    requires code != "" && src != "" && '\n' !in src
    ensures o == ReplyOutput(messages, code, src, before)
  {
    if |messages| == 0 {
      return Pending(TEMPORARY_FAILURE, 0, |TEMPORARY_FAILURE|);
    }
    var mark := 0;
    o := before.(buf := "");
    for i := 0 to |messages|
      invariant i == 0 ==> o.buf == ""
      invariant i > 0 ==> Draft(o.buf, mark) == DraftOf(code, Text(messages[..i], src))
      invariant o.remaining == Remaining(messages[..i], code, src, before.remaining)
      invariant o.p == if SomeNeedsNewline(messages[..i], src) then 0 else before.p
    {
      if i > 0 {
        TextSnoc(messages, i - 1, code, src, before.remaining);
      }
      TextSnoc(messages, i, code, src, before.remaining);
      o, mark := AddMessage(o, mark, messages[i], code, src, Text(messages[..i], src));
    }
    assert messages[..|messages|] == messages;
    TextEndsLine(messages, src);
    DraftIsMultiLine(code, Text(messages, src));
  }

  /** The buffer of a blacklisted client's reply is one well-formed multi-line reply: read line by line it is the code,
      a dash on all lines but the last and a space on the last, and the lines of the messages' texts. */
  lemma ReplyWellFormed(messages: seq<string>, code: string, src: string, before: OutBuffer)
    requires messages != [] && '\n' !in code
    ensures var buf, t := ReplyOutput(messages, code, src, before).buf, Text(messages, src);
      && Lines(buf) == Prefixed(code, Lines(t)) && Join(Lines(t)) == t
      && EndsLine(t)
  {
    TextEndsLine(messages, src);
    ReplyLines(code, Text(messages, src));
  }

  // ---------------------------------------------------------------- what is left to write

  lemma {:induction false} DraftGrows(code: string, t: string, s: string)
    ensures |DraftOf(code, t + s).buf| >= |DraftOf(code, t).buf| + |s|
  {
    if s == "" {
      assert t + s == t;
    } else {
      var k := s[..|s| - 1];
      assert (t + s)[..|t + s| - 1] == t + k;
      DraftGrows(code, t, k);
    }
  }

  lemma {:induction false} RemainingWithin(messages: seq<string>, code: string, src: string, before: int)
    requires messages != [] && before <= 0
    ensures Remaining(messages, code, src, before) <= |MultiLine(code, Text(messages, src))|
    ensures (Remaining(messages, code, src, before) == |MultiLine(code, Text(messages, src))|)
            <==> NeedsNewline(Expand(messages[|messages| - 1], src))
  {
    var init, m := messages[..|messages| - 1], messages[|messages| - 1];
    TextEndsLine(messages, src);
    TextEndsLine(init, src);
    DraftIsMultiLine(code, Text(messages, src));
    if !NeedsNewline(Expand(m, src)) && init != [] {
      RemainingWithin(init, code, src, before);
      DraftIsMultiLine(code, Text(init, src));
      DraftGrows(code, Text(init, src), MessageText(m, src));
    }
  }

  /** With nothing left from before, the whole reply is marked for writing exactly when the last message does not
      itself end in a newline ... */
  lemma WholeReplyPendingIff(messages: seq<string>, code: string, src: string, before: OutBuffer)
    requires messages != [] && before.remaining == 0
    ensures var o := ReplyOutput(messages, code, src, before);
            o.remaining == |o.buf| <==> NeedsNewline(Expand(messages[|messages| - 1], src))
  {
    RemainingWithin(messages, code, src, 0);
  }

  /** ... and anything of it at all exactly when some message does not. */
  lemma {:induction false} SomethingPendingIff(messages: seq<string>, code: string, src: string, before: int)
    requires before == 0
    ensures Remaining(messages, code, src, before) > 0 <==> SomeNeedsNewline(messages, src)
    ensures Remaining(messages, code, src, before) >= 0
  {
    if messages != [] {
      TextEndsLine(messages, src);
      DraftIsMultiLine(code, Text(messages, src));
      SomethingPendingIff(messages[..|messages| - 1], code, src, before);
    }
  }

  /** Where every message ends in a newline of its own nothing is marked. */
  lemma {:induction false} NothingMarked(messages: seq<string>, code: string, src: string, before: int)
    requires !SomeNeedsNewline(messages, src)
    ensures Remaining(messages, code, src, before) == before
  {
    if messages != [] {
      NothingMarked(messages[..|messages| - 1], code, src, before);
    }
  }

  /** A message that ends in a newline of its own leaves nothing to write. */
  lemma NothingPending()
    ensures Remaining(["a\\n"], "450", "1.2.3.4", 0) == 0
  {
    var fmt := "a\\n";
    assert fmt[..2][..1] == "a" && fmt[..1][..0] == "";
    assert Expand("a", "1.2.3.4") == Expansion("a", None);
    assert fmt[..2] == "a\\";
    assert "a\\"[..1] == "a";
    assert Expand("a\\", "1.2.3.4") == Expansion("a", Some('\\'));
    assert Expand(fmt, "1.2.3.4") == Expansion("a\n", None);
    assert ["a\\n"][..0] == [];
  }
}
