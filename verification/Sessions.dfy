/** Whole sessions: what the greylister is told of the envelope that a client gives line by line, whatever other events
    there are in between and however the lines come in. */
module Sessions {
  import opened Wrappers
  import opened Fold
  import opened Reply
  import opened Con
  import opened Greyd
  import opened GreydSafety
  import opened GreydRuns
  import opened Envelopes

  // ---------------------------------------------------------------- phases

  /** From the writing of an answer to the line that comes after it. */
  function LineAfter(out: State): State {
    match out
    case ProxyIn => ProxyOut
    case BannerOut => HeloIn
    case HeloOut => MailIn
    case DataOut => Message
    case _ => RcptIn
  }

  predicate IsPhase(out: State) {
    out in {ProxyIn, BannerOut, HeloOut, MailOut, RcptOut, DataOut}
  }

  /** The answer is being written, or the line that follows it is awaited. */
  predicate InPhase(c: Con, out: State)
    requires IsPhase(out)
  {
    || (c.state == out && c.r == 0 && Spent(out, CommandOf(c.inBuf)))
    || (c.state == LineAfter(out) && c.w == 0 && c.inP <= |c.inBuf|)
  }

  /** The input so far. */
  function InputSoFar(c: Con): string {
    if c.inP <= |c.inBuf| then c.inBuf[..c.inP] else c.inBuf
  }

  /** Anything but the end of a line from the client in slot `k`. */
  predicate IsQuiet(v: Server, e: Event, k: nat) {
    e.Readable? && e.i == k && e.input.Got? && k < |v.cons| ==>
      '\n' !in CString(e.input.data) && |e.input.data| < v.cons[k].inRemaining
  }

  /** Nothing has changed but the progress of reading and writing. */
  predicate Idles(c: Con, d: Con, out: State)
    requires IsPhase(out)
  {
    InPhase(d, out) && SameWords(c, d)
  }

  lemma AwaitIdles(c: Con, env: Env, out: State)
    requires IsPhase(out) && c.state == out && c.r == 0 && c.w == 0 && Spent(out, CommandOf(c.inBuf))
    ensures Idles(c, Next(c, env), out) && ReportOf(c, env).None?
  {
    hide CommandOf, Obeyed, BodyFrom, ReplyOutput, AddressArgument;
  }

  lemma ReadingIdles(v: Server, k: nat, input: Input, env: Env, out: State)
    requires WantsRead(v, k) && IsPhase(out) && InPhase(v.cons[k], out)
    requires IsQuiet(v, Readable(k, input, env), k)
    ensures var v' := Reading(v, k, input, env);
            Open(v'.cons[k]) ==> Idles(v.cons[k], v'.cons[k], out) && v'.reports == v.reports
                                 && input.Got? && InputSoFar(v'.cons[k]) == InputSoFar(v.cons[k]) + input.data
                                 && v'.cons[k].inRemaining == v.cons[k].inRemaining - |input.data|
  {
    hide CommandOf, Complete, CString;
    if !input.Got? {
      CompleteKeeps(CloseCon(v, k), k, k, env);
    }
  }

  /** Of the writer's own doing. */
  lemma WrittenIdles(v: Server, st: Settings, k: nat, crWritten: bool, written: int, now: int, out: State)
    requires WantsWrite(v, k, now) && IsPhase(out) && InPhase(v.cons[k], out)
    ensures var u := Written(Set(v, k, Unstuttered(v.cons[k], st, now)), k, crWritten, written);
            && k < |u.cons| && u.reports == v.reports
            && (Open(u.cons[k]) ==> SameWords(v.cons[k], u.cons[k]) && u.cons[k].state == out && u.cons[k].r == 0
                                    && u.cons[k].inBuf == v.cons[k].inBuf
                                    && Spent(out, CommandOf(v.cons[k].inBuf)))
  {
    hide CommandOf, CharAt;
  }

  lemma AfterWriteIdles(v: Server, k: nat, env: Env, out: State)
    requires k < |v.cons| && IsPhase(out) && v.cons[k].state == out && v.cons[k].r == 0
    requires Spent(out, CommandOf(v.cons[k].inBuf))
    ensures var v' := AfterWrite(v, k, env);
            k < |v'.cons| && Idles(v.cons[k], v'.cons[k], out) && v'.reports == v.reports
  {
    hide CommandOf, Next, ReportOf;
    AwaitIdles(v.cons[k].(w := 0), env, out);
    assert v.reports + [] == v.reports;
  }

  lemma WritingIdles(v: Server, st: Settings, k: nat, crWritten: bool, written: int, env: Env, out: State)
    requires WantsWrite(v, k, env.now) && IsPhase(out) && InPhase(v.cons[k], out)
    ensures var v' := Writing(v, st, k, crWritten, written, env);
            Open(v'.cons[k]) ==> Idles(v.cons[k], v'.cons[k], out) && v'.reports == v.reports
  {
    hide CommandOf, Written, AfterWrite, Unstuttered;
    var u := Written(Set(v, k, Unstuttered(v.cons[k], st, env.now)), k, crWritten, written);
    WrittenIdles(v, st, k, crWritten, written, env.now, out);
    AfterWriteKeeps(u, k, k, env);
    if Open(u.cons[k]) {
      AfterWriteIdles(u, k, env, out);
    }
  }

  // ---------------------------------------------------------------- other slots

  lemma AdvanceElsewhere(v: Server, i: nat, k: nat, env: Env)
    requires i < |v.cons| && k < |v.cons| && i != k
    ensures k < |Advance(v, i, env).cons| && Advance(v, i, env).cons[k] == v.cons[k]
  {
    hide Next, ReportOf;
  }

  lemma ReadingElsewhere(v: Server, i: nat, input: Input, k: nat, env: Env)
    requires i < |v.cons| && k < |v.cons| && i != k
    ensures k < |Reading(v, i, input, env).cons| && Reading(v, i, input, env).cons[k] == v.cons[k]
  {
    hide Advance, CString;
    var v' := if v.cons[i].r == 0 then v
              else if input.Got? then Set(v, i, Taken(v.cons[i], input.data)) else CloseCon(v, i);
    var c := v'.cons[i];
    var m := if c.inP <= |c.inBuf| then StrippedLength(c.inBuf, c.inP) else c.inP;
    var d := c.(inP := m, inBuf := if m <= |c.inBuf| then c.inBuf[..m] else c.inBuf, r := 0);
    AdvanceElsewhere(Set(v', i, d), i, k, env);
  }

  lemma WritingElsewhere(v: Server, st: Settings, i: nat, crWritten: bool, written: int, k: nat, env: Env)
    requires i < |v.cons| && k < |v.cons| && i != k
    ensures k < |Writing(v, st, i, crWritten, written, env).cons|
            && Writing(v, st, i, crWritten, written, env).cons[k] == v.cons[k]
  {
    hide Advance, CharAt;
    var u := Written(Set(v, i, Unstuttered(v.cons[i], st, env.now)), i, crWritten, written);
    AdvanceElsewhere(Set(u, i, u.cons[i].(w := 0)), i, k, env);
  }

  predicate IsAbout(e: Event, k: nat) {
    match e
    case Readable(i, _, _) => i == k
    case Writable(i, _, _, _) => i == k
    case Expire(i, _) => i == k
    case Hangup(i) => i == k
    case _ => false
  }

  /** An event that is not about slot `k` leaves the connection in it alone. */
  lemma OthersIdle(v: Server, st: Settings, e: Event, k: nat)
    requires k < |v.cons| && Open(v.cons[k]) && !IsAbout(e, k)
    ensures k < |Step(v, st, e).cons| && Step(v, st, e).cons[k] == v.cons[k]
  {
    hide Reading, Writing, Advance;
    match e
    case Accept(fd, src, blacklists, env) =>
      var i := FirstFree(v.cons);
      if i < |v.cons| {
        var black := v.blackClients + if blacklists != [] then 1 else 0;
        AdvanceElsewhere(Added(v, i, FreshCon(st, fd, v.accepted, src, blacklists, black, env.now)), i, k, env);
      }
    case Readable(i, input, env) => if WantsRead(v, i) { ReadingElsewhere(v, i, input, k, env); }
    case Writable(i, crWritten, written, env) =>
      if WantsWrite(v, i, env.now) { WritingElsewhere(v, st, i, crWritten, written, k, env); }
    case _ =>
  }

  /** A connection that was accepted before and is still held has been neither closed nor replaced. */
  lemma QuietStep(v: Server, st: Settings, e: Event, k: nat, n: nat, out: State)
    requires k < |v.cons| && n < v.accepted && IsPhase(out) && IsQuiet(v, e, k)
    requires Holds(v.cons, k, n) ==> InPhase(v.cons[k], out)
    requires Holds(Step(v, st, e).cons, k, n)
    ensures Holds(v.cons, k, n) && Idles(v.cons[k], Step(v, st, e).cons[k], out)
    ensures IsAbout(e, k) ==> Step(v, st, e).reports == v.reports
  {
    StepKeeps(v, st, e, k, n);
    hide Reading, Writing, Accepting, CloseCon, CommandOf, TimedOut;
    if !IsAbout(e, k) {
      OthersIdle(v, st, e, k);
    } else {
      match e
      case Readable(i, input, env) => if WantsRead(v, i) { ReadingIdles(v, k, input, env, out); }
      case Writable(i, crWritten, written, env) =>
        if WantsWrite(v, i, env.now) { WritingIdles(v, st, k, crWritten, written, env, out); }
      case _ => ClosedFree(v, k);
    }
  }

  lemma ClosedFree(v: Server, k: nat)
    requires k < |v.cons|
    ensures k < |CloseCon(v, k).cons| && !Open(CloseCon(v, k).cons[k])
  {
  }

  // ---------------------------------------------------------------- quiet times

  predicate IsQuietAt(v: Server, st: Settings, es: seq<Event>, j: nat, k: nat) {
    j < |es| && IsQuiet(RunFrom(v, st, es[..j]), es[j], k)
  }

  predicate QuietRun(v: Server, st: Settings, es: seq<Event>, k: nat) {
    forall j :: 0 <= j < |es| ==> IsQuietAt(v, st, es, j, k)
  }

  lemma QuietPrefix(v: Server, st: Settings, es: seq<Event>, k: nat)
    requires es != [] && QuietRun(v, st, es, k)
    ensures QuietRun(v, st, es[..|es| - 1], k) && IsQuiet(RunFrom(v, st, es[..|es| - 1]), es[|es| - 1], k)
  {
    hide IsQuiet, RunFrom;
    var es' := es[..|es| - 1];
    forall j | 0 <= j < |es'| ensures IsQuietAt(v, st, es', j, k) {
      assert IsQuietAt(v, st, es, j, k) && es'[..j] == es[..j];
    }
    assert IsQuietAt(v, st, es, |es| - 1, k);
  }

  /** Over any events without the end of a line from it, a connection that is still held has idled. */
  lemma {:induction false} QuietKeeps(v: Server, st: Settings, es: seq<Event>, k: nat, n: nat, out: State)
    requires IsPhase(out) && Holds(v.cons, k, n) && n < v.accepted && InPhase(v.cons[k], out)
    requires QuietRun(v, st, es, k) && Holds(RunFrom(v, st, es).cons, k, n)
    ensures Idles(v.cons[k], RunFrom(v, st, es).cons[k], out) && n < RunFrom(v, st, es).accepted
    decreases |es|
  {
    hide Step, InPhase, IsQuiet, QuietRun;
    if es != [] {
      var es' := es[..|es| - 1];
      var u := RunFrom(v, st, es');
      QuietPrefix(v, st, es, k);
      RunKeeps(v, st, es', k, n);
      StepKeeps(u, st, es[|es| - 1], k, n);
      QuietKeeps(v, st, es', k, n, out);
      QuietStep(u, st, es[|es| - 1], k, n, out);
    }
  }

  lemma {:induction false} RunKeeps(v: Server, st: Settings, es: seq<Event>, k: nat, n: nat)
    requires k < |v.cons|
    ensures |RunFrom(v, st, es).cons| == |v.cons| && v.accepted <= RunFrom(v, st, es).accepted
  {
    hide Step;
    if es != [] {
      RunKeeps(v, st, es[..|es| - 1], k, n);
      StepKeeps(RunFrom(v, st, es[..|es| - 1]), st, es[|es| - 1], k, n);
    }
  }

  // ---------------------------------------------------------------- lines

  predicate IsLineEnd(e: string) {
    forall i :: 0 <= i < |e| ==> EndsInput(e[i])
  }

  /** With this event the line of the client in slot `k` is complete, whatever pieces it came in. */
  predicate Completes(v: Server, e: Event, k: nat, line: string) {
    && e.Readable? && e.i == k && e.input.Got? && WantsRead(v, k)
    && '\n' in e.input.data && '\0' !in e.input.data
    && (line != "" ==> !EndsInput(line[|line| - 1]))
    && |line| <= |InputSoFar(v.cons[k]) + e.input.data| && line == (InputSoFar(v.cons[k]) + e.input.data)[..|line|]
    && IsLineEnd((InputSoFar(v.cons[k]) + e.input.data)[|line|..])
  }

  lemma {:induction false} NoZero(s: string)
    requires '\0' !in s
    ensures CString(s) == s
  {
    if s != "" {
      NoZero(s[1..]);
    }
  }

  lemma {:induction false} LineEndStripped(text: string, m: nat, n: nat)
    requires m <= n <= |text| && (m > 0 ==> !EndsInput(text[m - 1])) && IsLineEnd(text[m..])
    ensures StrippedLength(text, n) == m
    decreases n
  {
    if n > m {
      assert text[n - 1] == text[m..][n - 1 - m];
      LineEndStripped(text, m, n - 1);
    }
  }

  /** The dialogue then advances on just this line. */
  lemma LineAdvances(v: Server, st: Settings, e: Event, k: nat, line: string) returns (c: Con)
    requires Completes(v, e, k, line) && v.cons[k].inP <= |v.cons[k].inBuf|
    ensures Step(v, st, e) == Advance(Set(v, k, c), k, e.env)
    ensures SameWords(v.cons[k], c) && c.state == v.cons[k].state && c.inBuf == line && c.inP == |line| && c.r == 0
            && c.w == v.cons[k].w && c.fd == v.cons[k].fd && c.serial == v.cons[k].serial
  {
    hide Advance, CString;
    var data := e.input.data;
    NoZero(data);
    var d := Taken(v.cons[k], data);
    var text := InputSoFar(v.cons[k]) + data;
    assert d.inBuf == text && d.inP == |text|;
    LineEndStripped(text, |line|, |text|);
    c := d.(inP := |line|, inBuf := line, r := 0);
    assert Set(Set(v, k, d), k, c) == Set(v, k, c);
  }

  /** Pieces of a line add up. */
  lemma {:induction false} PiecesHeard(v: Server, st: Settings, es: seq<Event>, k: nat, n: nat, out: State,
                                       pieces: seq<string>)
    requires IsPhase(out) && Holds(v.cons, k, n) && n < v.accepted && WantsRead(v, k) && InPhase(v.cons[k], out)
    requires |pieces| == |es| && QuietRun(v, st, es, k) && Holds(RunFrom(v, st, es).cons, k, n)
    requires forall j :: 0 <= j < |es| ==> es[j].Readable? && es[j].i == k && es[j].input == Got(pieces[j])
    ensures var c := RunFrom(v, st, es).cons[k];
            && InputSoFar(c) == InputSoFar(v.cons[k]) + Concatenated(pieces)
            && WantsRead(RunFrom(v, st, es), k) && InPhase(c, out)
    decreases |es|
  {
    hide Step, InPhase, IsQuiet, QuietRun, InputSoFar;
    if es == [] {
      assert InputSoFar(v.cons[k]) + "" == InputSoFar(v.cons[k]);
    } else {
      var m := |es| - 1;
      var u, e := RunFrom(v, st, es[..m]), es[m];
      QuietPrefix(v, st, es, k);
      RunKeeps(v, st, es[..m], k, n);
      StepKeeps(u, st, e, k, n);
      PiecesHeard(v, st, es[..m], k, n, out, pieces[..m]);
      PieceHeard(u, st, e, k, out);
      assert InputSoFar(v.cons[k]) + Concatenated(pieces[..m]) + pieces[m]
          == InputSoFar(v.cons[k]) + Concatenated(pieces);
    }
  }

  function Concatenated(pieces: seq<string>): string {
    if pieces == [] then "" else Concatenated(pieces[..|pieces| - 1]) + pieces[|pieces| - 1]
  }

  lemma PieceHeard(v: Server, st: Settings, e: Event, k: nat, out: State)
    requires IsPhase(out) && WantsRead(v, k) && InPhase(v.cons[k], out) && IsQuiet(v, e, k)
    requires e.Readable? && e.i == k && e.input.Got?
    requires k < |Step(v, st, e).cons| && Open(Step(v, st, e).cons[k])
    ensures var c := Step(v, st, e).cons[k];
            InputSoFar(c) == InputSoFar(v.cons[k]) + e.input.data && WantsRead(Step(v, st, e), k) && InPhase(c, out)
  {
    hide CommandOf, Complete, CString;
  }

  // ---------------------------------------------------------------- stages of a session

  /** Slot `k` holds connection `n` at the end of a quiet time after the stage `out`, with these words said. */
  predicate InStage(v: Server, k: nat, n: nat, out: State, c: Con)
    requires IsPhase(out)
  {
    Holds(v.cons, k, n) && n < v.accepted && InPhase(v.cons[k], out) && SameWords(c, v.cons[k])
  }

  /** A stage lasts through quiet times. */
  lemma StageLasts(v: Server, st: Settings, es: seq<Event>, k: nat, n: nat, out: State, c: Con)
    requires IsPhase(out) && InStage(v, k, n, out, c) && QuietRun(v, st, es, k) && Holds(RunFrom(v, st, es).cons, k, n)
    ensures InStage(RunFrom(v, st, es), k, n, out, c)
  {
    hide RunFrom, QuietRun, InPhase;
    QuietKeeps(v, st, es, k, n, out);
  }

  /** What a complete line does. */
  lemma Spoken(v: Server, st: Settings, e: Event, k: nat, n: nat, out: State, c: Con, line: string) returns (d: Con)
    requires IsPhase(out) && InStage(v, k, n, out, c) && Completes(v, e, k, line)
    ensures SameWords(c, d) && d.state == LineAfter(out) && d.inBuf == line && d.inP == |line| && d.r == 0 && d.w == 0
    ensures d.state != Close && d.fd != -1 && d.serial == n
    ensures k < |Step(v, st, e).cons| && Step(v, st, e).cons[k] == Next(d, e.env)
    ensures Step(v, st, e).accepted == v.accepted
    ensures Step(v, st, e).reports ==
            v.reports + if ReportOf(d, e.env).Some? then [ReportOf(d, e.env).value] else []
  {
    hide Next, ReportOf, InputSoFar, CommandOf;
    d := LineAdvances(v, st, e, k, line);
  }

  lemma HeloSaid(v: Server, st: Settings, e: Event, k: nat, n: nat, c: Con, line: string, w: Wording, word: string,
                 name: string)
    requires InStage(v, k, n, BannerOut, c) && Completes(v, e, k, line) && IsHeloLine(line, w, word, name)
    ensures var v' := Step(v, st, e);
            && InStage(v', k, n, HeloOut, c.(helo := name)) && v'.reports == v.reports
            && Answers(v'.cons[k], "250 " + e.env.hostname + "\r\n", HeloOut)
  {
    hide Step, IsHeloLine, CommandOf, Next, ReportOf;
    var d := Spoken(v, st, e, k, n, BannerOut, c, line);
    HeloStep(d, e.env, w, word, name);
    assert v.reports + [] == v.reports;
  }

  lemma MailSaid(v: Server, st: Settings, e: Event, k: nat, n: nat, out: State, c: Con, line: string, w: Wording,
                 path: string)
    requires out in {BannerOut, HeloOut} && InStage(v, k, n, out, c) && Completes(v, e, k, line)
    requires IsAddressLine(line, w, "MAIL", path)
    ensures var v' := Step(v, st, e);
            && InStage(v', k, n, MailOut, c.(mail := FieldAfter(c.mail, path))) && v'.reports == v.reports
            && Answers(v'.cons[k], "250 OK\r\n", MailOut)
  {
    hide Step, IsAddressLine, CommandOf, Next, ReportOf, FieldAfter;
    var d := Spoken(v, st, e, k, n, out, c, line);
    MailStep(d, e.env, w, path);
    assert v.reports + [] == v.reports;
  }

  /** The destination that is reported. */
  function Destination(c: Con, env: Env): string {
    if env.origDst.Some? then env.origDst.value else c.dstAddr
  }

  lemma RcptSaid(v: Server, st: Settings, e: Event, k: nat, n: nat, out: State, c: Con, line: string, w: Wording,
                 path: string)
    requires out in {BannerOut, HeloOut, MailOut, RcptOut} && InStage(v, k, n, out, c) && Completes(v, e, k, line)
    requires IsAddressLine(line, w, "RCPT", path) && e.env.greylist && c.blacklists == [] && c.mail != ""
    requires FieldAfter(c.rcpt, path) != ""
    ensures var v' := Step(v, st, e);
            var dst := Destination(c, e.env);
            && InStage(v', k, n, RcptOut, c.(rcpt := FieldAfter(c.rcpt, path), dstAddr := dst))
            && v'.reports == v.reports + [Report(dst, c.srcAddr, c.helo, c.mail, FieldAfter(c.rcpt, path))]
            && Answers(v'.cons[k], "250 OK\r\n", RcptOut)
  {
    hide Step, IsAddressLine, CommandOf, Next, ReportOf, FieldAfter;
    var d := Spoken(v, st, e, k, n, out, c, line);
    RcptStep(d, e.env, w, path);
  }

  /** After DATA a greylisted client is given a temporary failure and then closed. */
  lemma DataSaid(v: Server, st: Settings, e: Event, k: nat, n: nat, out: State, c: Con, line: string)
    requires out in {BannerOut, HeloOut, MailOut, RcptOut} && InStage(v, k, n, out, c) && Completes(v, e, k, line)
    requires Matches(line, "DATA")
    ensures var v' := Step(v, st, e);
            && Holds(v'.cons, k, n) && SameWords(c, v'.cons[k]) && v'.reports == v.reports
            && if e.env.greylist && c.blacklists == [] then Answers(v'.cons[k], TEMPORARY_FAILURE, Close)
               else Answers(v'.cons[k], "354 End data with <CR><LF>.<CR><LF>\r\n", DataOut)
  {
    hide Step, CommandOf, Next, ReportOf, Matches;
    var d := Spoken(v, st, e, k, n, out, c, line);
    DataStep(d, e.env);
    assert v.reports + [] == v.reports;
  }

  /** A reset leads back to the state after HELO; what was said before stays in the fields. */
  lemma ResetSaid(v: Server, st: Settings, e: Event, k: nat, n: nat, out: State, c: Con, line: string)
    requires out in {HeloOut, MailOut, RcptOut} && InStage(v, k, n, out, c) && Completes(v, e, k, line)
    requires Matches(line, "RSET")
    ensures var v' := Step(v, st, e);
            InStage(v', k, n, HeloOut, c) && v'.reports == v.reports && Answers(v'.cons[k], "250 OK\r\n", HeloOut)
  {
    hide Step, CommandOf, Matches, Obeyed;
    var d := Spoken(v, st, e, k, n, out, c, line);
    CommandIsItsWord(line);
    assert v.reports + [] == v.reports;
  }

  /** A client that quits is told so and then closed. */
  lemma QuitSaid(v: Server, st: Settings, e: Event, k: nat, n: nat, out: State, c: Con, line: string)
    requires IsPhase(out) && InStage(v, k, n, out, c) && Completes(v, e, k, line) && Matches(line, "QUIT")
    ensures var v' := Step(v, st, e);
            && Holds(v'.cons, k, n) && SameWords(c, v'.cons[k]) && v'.reports == v.reports
            && Answers(v'.cons[k], "221 " + e.env.hostname + "\r\n", Close)
  {
    hide Step, CommandOf, Matches, Obeyed;
    var d := Spoken(v, st, e, k, n, out, c, line);
    CommandIsItsWord(line);
    assert v.reports + [] == v.reports;
  }

  // ---------------------------------------------------------------- whole sessions

  /** A client that has said nothing yet. */
  predicate SaidNothing(c: Con) {
    c.helo == c.mail == c.rcpt == ""
  }

  lemma NoCommand()
    ensures CommandOf("") == Unknown
  {
  }

  lemma FirstStep(c: Con, env: Env)
    requires c.state in {ProxyIn, BannerIn} && c.inBuf == "" && c.r == c.w == 0
    ensures InPhase(Next(c, env), if c.state == ProxyIn then ProxyIn else BannerOut)
    ensures SameWords(c, Next(c, env)) && ReportOf(c, env).None?
  {
    NoCommand();
    hide CommandOf, Obeyed, BodyFrom, ReplyOutput, Banner;
  }

  /** A client gets a slot and its banner. */
  lemma Accepted(v: Server, st: Settings, e: Event) returns (c: Con)
    requires e.Accept? && e.fd != -1 && FirstFree(v.cons) < |v.cons|
    ensures var k := FirstFree(v.cons);
            InStage(Step(v, st, e), k, v.accepted, if st.proxyProtocol then ProxyIn else BannerOut, c)
    ensures SaidNothing(c) && c.srcAddr == e.src && c.dstAddr == "" && c.blacklists == e.blacklists
    ensures Step(v, st, e).reports == v.reports
  {
    var k := FirstFree(v.cons);
    var black := v.blackClients + if e.blacklists != [] then 1 else 0;
    c := FreshCon(st, e.fd, v.accepted, e.src, e.blacklists, black, e.env.now);
    hide FirstFree, Next, ReportOf, InPhase, SameWords;
    FirstStep(c, e.env);
    assert v.reports + [] == v.reports;
  }

  /** A proxy tells where its client comes from and was sent to. */
  lemma Proxied(v: Server, st: Settings, e: Event, k: nat, n: nat, c: Con, line: string)
    requires InStage(v, k, n, ProxyIn, c) && Completes(v, e, k, line)
    requires Matches(line, "PROXY") && e.env.proxy.Accepted?
    ensures var v' := Step(v, st, e);
            && InStage(v', k, n, BannerOut, c.(srcAddr := e.env.proxy.src, dstAddr := e.env.proxy.dst))
            && v'.reports == v.reports
  {
    hide Step, CommandOf, Matches, ReplyOutput, Obeyed;
    var d := Spoken(v, st, e, k, n, ProxyIn, c, line);
    ProxyCommand(line);
    assert v.reports + [] == v.reports;
  }

  lemma NotProxy(line: string, word: string)
    requires Matches(line, "PROXY") && |word| == 4 && Lower(word[0]) != 'p'
    ensures !Matches(line, word)
  {
    assert line[..5][0] == line[0] && Lower(line[..5][0]) == Lower("PROXY"[0]);
    assert line[..4][0] == line[0];
  }

  lemma ProxyCommand(line: string)
    requires Matches(line, "PROXY")
    ensures CommandOf(line) == Unknown
  {
    hide Matches;
    NotProxy(line, "QUIT");
    NotProxy(line, "RSET");
    NotProxy(line, "HELO");
    NotProxy(line, "EHLO");
    NotProxy(line, "MAIL");
    NotProxy(line, "RCPT");
    NotProxy(line, "DATA");
    NotProxy(line, "NOOP");
  }

  /** HELO, MAIL and RCPT, with any quiet times behind each line. */
  datatype Envelope = Envelope(helo: Event, afterHelo: seq<Event>, mail: Event, afterMail: seq<Event>, rcpt: Event)

  /** The server when each of the three lines is complete. */
  function AtMail(v: Server, st: Settings, n: Envelope): Server {
    RunFrom(Step(v, st, n.helo), st, n.afterHelo)
  }

  function AtRcpt(v: Server, st: Settings, n: Envelope): Server {
    RunFrom(Step(AtMail(v, st, n), st, n.mail), st, n.afterMail)
  }

  /** From a client that has said nothing yet, greylisted and still connected, a HELO line with name `name`, a MAIL line
      with path `from` and a RCPT line with path `to` make one report, with just these, its address and where it was
      sent to; and none before. */
  lemma EnvelopeReported(v: Server, st: Settings, k: nat, n: nat, c: Con, s: Envelope, lines: seq<string>,
                         ws: seq<Wording>, word: string, name: string, from: string, to: string)
    requires InStage(v, k, n, BannerOut, c) && SaidNothing(c) && c.blacklists == [] && |lines| == |ws| == 3
    requires Completes(v, s.helo, k, lines[0]) && IsHeloLine(lines[0], ws[0], word, name)
    requires QuietRun(Step(v, st, s.helo), st, s.afterHelo, k) && Holds(AtMail(v, st, s).cons, k, n)
    requires Completes(AtMail(v, st, s), s.mail, k, lines[1]) && IsAddressLine(lines[1], ws[1], "MAIL", from)
    requires QuietRun(Step(AtMail(v, st, s), st, s.mail), st, s.afterMail, k) && Holds(AtRcpt(v, st, s).cons, k, n)
    requires Completes(AtRcpt(v, st, s), s.rcpt, k, lines[2]) && IsAddressLine(lines[2], ws[2], "RCPT", to)
    requires s.rcpt.env.greylist && from != "" && to != ""
    ensures Step(v, st, s.helo).reports == v.reports
    ensures Step(AtMail(v, st, s), st, s.mail).reports == AtMail(v, st, s).reports
    ensures Step(AtRcpt(v, st, s), st, s.rcpt).reports == AtRcpt(v, st, s).reports
            + [Report(Destination(c, s.rcpt.env), c.srcAddr, name, Lowered(from), Lowered(to))]
  {
    hide Step, RunFrom, IsHeloLine, IsAddressLine, Completes, QuietRun, InStage, Holds, InPhase;
    HeloSaid(v, st, s.helo, k, n, c, lines[0], ws[0], word, name);
    var c1 := c.(helo := name);
    StageLasts(Step(v, st, s.helo), st, s.afterHelo, k, n, HeloOut, c1);
    MailSaid(AtMail(v, st, s), st, s.mail, k, n, HeloOut, c1, lines[1], ws[1], from);
    FreshField(from);
    FreshField(to);
    var c2 := c1.(mail := Lowered(from));
    StageLasts(Step(AtMail(v, st, s), st, s.mail), st, s.afterMail, k, n, MailOut, c2);
    RcptSaid(AtRcpt(v, st, s), st, s.rcpt, k, n, MailOut, c2, lines[2], ws[2], to);
  }

  /** The same from the moment that the client is accepted, without a proxy and after anything before. */
  lemma SessionReported(v: Server, st: Settings, accept: Event, before: seq<Event>, s: Envelope, lines: seq<string>,
                        ws: seq<Wording>, word: string, name: string, from: string, to: string)
    requires accept.Accept? && accept.fd != -1 && accept.blacklists == [] && !st.proxyProtocol
    requires FirstFree(v.cons) < |v.cons| && |lines| == |ws| == 3
    requires var k, n, u := FirstFree(v.cons), v.accepted, RunFrom(Step(v, st, accept), st, before);
             && QuietRun(Step(v, st, accept), st, before, k) && Holds(u.cons, k, n)
             && Completes(u, s.helo, k, lines[0]) && IsHeloLine(lines[0], ws[0], word, name)
             && QuietRun(Step(u, st, s.helo), st, s.afterHelo, k) && Holds(AtMail(u, st, s).cons, k, n)
             && Completes(AtMail(u, st, s), s.mail, k, lines[1]) && IsAddressLine(lines[1], ws[1], "MAIL", from)
             && QuietRun(Step(AtMail(u, st, s), st, s.mail), st, s.afterMail, k) && Holds(AtRcpt(u, st, s).cons, k, n)
             && Completes(AtRcpt(u, st, s), s.rcpt, k, lines[2]) && IsAddressLine(lines[2], ws[2], "RCPT", to)
             && s.rcpt.env.greylist && from != "" && to != ""
    ensures var u := RunFrom(Step(v, st, accept), st, before);
            var dst := if s.rcpt.env.origDst.Some? then s.rcpt.env.origDst.value else "";
            Step(AtRcpt(u, st, s), st, s.rcpt).reports == AtRcpt(u, st, s).reports
            + [Report(dst, accept.src, name, Lowered(from), Lowered(to))]
  {
    hide Step, RunFrom, IsHeloLine, IsAddressLine, Completes, QuietRun, InStage, Holds, FirstFree, AtMail, AtRcpt;
    var k, n := FirstFree(v.cons), v.accepted;
    var c := Accepted(v, st, accept);
    StageLasts(Step(v, st, accept), st, before, k, n, BannerOut, c);
    EnvelopeReported(RunFrom(Step(v, st, accept), st, before), st, k, n, c, s, lines, ws, word, name, from, to);
  }

  lemma FreshField(path: string)
    ensures FieldAfter("", path) == Lowered(path) && (path != "" ==> Lowered(path) != "")
  {
    assert Lowered(path) + "" == Lowered(path);
  }

  /** In lower case a path is reported as it was given. */
  lemma LowerCaseKept(s: string)
    requires forall i :: 0 <= i < |s| ==> !('A' <= s[i] <= 'Z')
    ensures Lowered(s) == s
  {
  }
}
