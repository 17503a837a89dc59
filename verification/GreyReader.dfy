/** The reader of the greylister's pipe: message after message, up to one that is refused or of no known kind. */
module GreyReader {
  import opened Wrappers
  import opened ConfigLexer
  import opened ConfigParser
  import opened ConfigPipe
  import opened ConfigSites
  import opened Messages
  import opened Reports
  import Con
  import G = Greylister
  import Grey

  predicate IsKnown(m: G.Message) {
    m.kind in {G.MSG_GREY, G.MSG_TRAP, G.MSG_WHITE}
  }

  function MessageHeard(c: Config, number: string -> Option<int>): G.Message {
    MessageOf(VarsOf(c), number)
  }

  lemma NothingHeard(p: Parser, number: string -> Option<int>)
    requires p.rest == ""
    ensures Start(p, NONE).ok && !IsKnown(MessageHeard(Start(p, NONE).p.config, number))
    ensures Start(p, NONE).p.section == p.section
  {
  }

  /** The messages that are processed, from the text that is left. */
  function Processed(p: Parser, number: string -> Option<int>): seq<G.Message>
    decreases |p.rest|
  {
    StartShortens(p, NONE);
    if p.rest == "" then NothingHeard(p, number); [] else
    var o := Start(p, NONE);
    if o.ok && IsKnown(MessageHeard(o.p.config, number)) then
      [MessageHeard(o.p.config, number)] + Processed(o.p, number)
    else []
  }

  /** No message leaves a section open. */
  predicate LeavesNoneOpen(p: Parser, number: string -> Option<int>)
    decreases |p.rest|
  {
    StartShortens(p, NONE);
    p.section == None &&
    var o := Start(p, NONE);
    p.rest == "" || (o.ok && IsKnown(MessageHeard(o.p.config, number)) ==> LeavesNoneOpen(o.p, number))
  }

  /** The table after messages, the `i`-th of them processed at time `clock(i)`. */
  ghost function AfterAll(cfg: Grey.Config, dbDomains: set<string>, spamtraps: set<string>, t: Grey.Table,
                          ms: seq<G.Message>, clock: nat -> int): Grey.Table {
    if ms == [] then t else
    var n := |ms| - 1;
    G.AfterMessage(cfg, dbDomains, spamtraps, AfterAll(cfg, dbDomains, spamtraps, t, ms[..n], clock), ms[n], clock(n))
  }

  /** What other servers are told meanwhile. */
  ghost function ToldAll(cfg: Grey.Config, dbDomains: set<string>, spamtraps: set<string>, t: Grey.Table,
                         ms: seq<G.Message>, clock: nat -> int): seq<Grey.Told> {
    if ms == [] then [] else
    var n := |ms| - 1;
    ToldAll(cfg, dbDomains, spamtraps, t, ms[..n], clock)
    + G.ToldOf(cfg, dbDomains, spamtraps, AfterAll(cfg, dbDomains, spamtraps, t, ms[..n], clock), ms[n], clock(n))
  }

  /** One turn of the loop on values. */
  lemma ReaderStep(p: Parser, number: string -> Option<int>)
    requires LeavesNoneOpen(p, number)
    ensures var o := Start(p, NONE);
            && p.section == None
            && Processed(p, number) == (if o.ok && IsKnown(MessageHeard(o.p.config, number)) then
                                          [MessageHeard(o.p.config, number)] + Processed(o.p, number) else [])
            && (o.ok && IsKnown(MessageHeard(o.p.config, number)) ==>
                  LeavesNoneOpen(o.p, number) && |o.p.rest| < |p.rest|)
  {
    hide Start, MessageHeard, IsKnown;
    StartShortens(p, NONE);
    if p.rest == "" {
      NothingHeard(p, number);
    }
  }

  lemma OneMore(cfg: Grey.Config, dbDomains: set<string>, spamtraps: set<string>, t: Grey.Table, ms: seq<G.Message>,
                m: G.Message, clock: nat -> int)
    ensures var before := AfterAll(cfg, dbDomains, spamtraps, t, ms, clock);
            && AfterAll(cfg, dbDomains, spamtraps, t, ms + [m], clock)
               == G.AfterMessage(cfg, dbDomains, spamtraps, before, m, clock(|ms|))
            && ToldAll(cfg, dbDomains, spamtraps, t, ms + [m], clock)
               == ToldAll(cfg, dbDomains, spamtraps, t, ms, clock)
                  + G.ToldOf(cfg, dbDomains, spamtraps, before, m, clock(|ms|))
  {
    hide G.AfterMessage, G.ToldOf;
    assert (ms + [m])[..|ms|] == ms;
  }

  lemma UnknownIsNothing(cfg: Grey.Config, dbDomains: set<string>, spamtraps: set<string>, t: Grey.Table, m: G.Message,
                         now: int)
    requires !IsKnown(m)
    ensures G.AfterMessage(cfg, dbDomains, spamtraps, t, m, now) == t
    ensures G.ToldOf(cfg, dbDomains, spamtraps, t, m, now) == []
  {
  }

  /** The loop over the pipe. */
  method ReadGrey(g: G.Greylister, src: string, number: string -> Option<int>, clock: nat -> int)
    requires LeavesNoneOpen(Parser(src, Eof, NONE, None, Plain, []), number)
    modifies g`entries, g`told
    ensures g.entries == AfterAll(g.cfg, g.dbDomains, g.spamtraps, old(g.entries),
                                  Processed(Parser(src, Eof, NONE, None, Plain, []), number), clock)
    ensures g.told == old(g.told) + ToldAll(g.cfg, g.dbDomains, g.spamtraps, old(g.entries),
                                            Processed(Parser(src, Eof, NONE, None, Plain, []), number), clock)
  {
    hide Start, MessageHeard, Processed, LeavesNoneOpen, G.AfterMessage, G.ToldOf;
    var parser := new ConfigParser(src);
    ghost var all, done := Processed(parser.View(), number), [];
    var i := 0;
    while true
      invariant fresh(parser) && fresh(parser.lexer) && parser.Valid() && LeavesNoneOpen(parser.View(), number)
      invariant i == |done| && done + Processed(parser.View(), number) == all
      invariant g.entries == AfterAll(g.cfg, g.dbDomains, g.spamtraps, old(g.entries), done, clock)
      invariant g.told == old(g.told) + ToldAll(g.cfg, g.dbDomains, g.spamtraps, old(g.entries), done, clock)
      decreases |parser.View().rest|
    {
      hide AfterAll, ToldAll;
      ReaderStep(parser.View(), number);
      assert done + [] == done;
      var ok := parser.ParseStart(NONE);
      if !ok {
        break;
      }
      var m := MessageHeard(parser.config, number);
      if !IsKnown(m) {
        UnknownIsNothing(g.cfg, g.dbDomains, g.spamtraps, g.entries, m, clock(i));
      }
      var r := g.ProcessMessage(m, clock(i));
      if r == -1 {
        break;
      }
      OneMore(g.cfg, g.dbDomains, g.spamtraps, old(g.entries), done, m, clock);
      i, done := i + 1, done + [m];
    }
  }

  // ---------------------------------------------------------------- what is printed is processed

  function HeardOf(ls: seq<Line>, number: string -> Option<int>): G.Message {
    MessageOf(Assigned(ls, map[]), number)
  }

  function AllHeard(ms: seq<seq<Line>>, number: string -> Option<int>): seq<G.Message> {
    if ms == [] then [] else [HeardOf(ms[0], number)] + AllHeard(ms[1..], number)
  }

  predicate AreKnown(ms: seq<seq<Line>>, number: string -> Option<int>) {
    forall i :: 0 <= i < |ms| ==> IsMessage(ms[i]) && IsKnown(HeardOf(ms[i], number))
  }

  /** A parser between messages. */
  function At(text: string): Parser {
    Parser(text, Eof, NONE, None, Plain, [])
  }

  /** The token and the configuration left by the run before play no part. */
  lemma StartForgets(p: Parser, q: Parser)
    requires q == p.(curr := q.curr, config := q.config)
    ensures Start(q, NONE) == Start(p, NONE)
  {
    hide NextTok, Statement, Statements, Accept;
    assert Advance(q.(config := WithDefault(NONE))) == Advance(p.(config := WithDefault(NONE)));
  }

  lemma ProcessedForgets(p: Parser, q: Parser, number: string -> Option<int>)
    requires q == p.(curr := q.curr, config := q.config)
    ensures Processed(q, number) == Processed(p, number)
    ensures LeavesNoneOpen(q, number) == LeavesNoneOpen(p, number)
  {
    hide Start, MessageHeard;
    StartForgets(p, q);
  }

  /** One printed message is processed, and the reader goes on behind it. */
  lemma OneProcessed(ls: seq<Line>, t: string, number: string -> Option<int>)
    requires IsMessage(ls) && IsKnown(HeardOf(ls, number))
    ensures Processed(At(PrintMessage(ls) + t), number) == [HeardOf(ls, number)] + Processed(At(t), number)
    ensures LeavesNoneOpen(At(PrintMessage(ls) + t), number) == LeavesNoneOpen(At(t), number)
  {
    hide Start, PrintLines, IsMessage, Assigned, MessageOf;
    var p := At(PrintMessage(ls) + t);
    MessageReads(ls, t, p);
    var q := Start(p, NONE).p;
    assert VarsOf(q.config) == Assigned(ls, map[]);
    ProcessedForgets(At(t), q, number);
  }

  /** Whatever follows printed messages, these are processed first, each once and in order. */
  lemma {:induction false} PrintedProcessed(ms: seq<seq<Line>>, t: string, number: string -> Option<int>)
    requires AreKnown(ms, number)
    ensures Processed(At(PrintMessages(ms) + t), number) == AllHeard(ms, number) + Processed(At(t), number)
    ensures LeavesNoneOpen(At(PrintMessages(ms) + t), number) == LeavesNoneOpen(At(t), number)
    decreases |ms|
  {
    hide Processed, LeavesNoneOpen, PrintMessage, HeardOf, IsMessage, IsKnown;
    if ms == [] {
      assert PrintMessages(ms) + t == t && AllHeard(ms, number) + Processed(At(t), number) == Processed(At(t), number);
    } else {
      var more := PrintMessages(ms[1..]) + t;
      assert PrintMessages(ms) + t == PrintMessage(ms[0]) + more;
      OneProcessed(ms[0], more, number);
      PrintedProcessed(ms[1..], t, number);
      assert [HeardOf(ms[0], number)] + (AllHeard(ms[1..], number) + Processed(At(t), number))
          == AllHeard(ms, number) + Processed(At(t), number);
    }
  }

  /** At the end of the pipe the reader has processed exactly the printed messages, and stops. */
  lemma ExactlyPrinted(ms: seq<seq<Line>>, number: string -> Option<int>)
    requires AreKnown(ms, number)
    ensures Processed(At(PrintMessages(ms)), number) == AllHeard(ms, number)
    ensures LeavesNoneOpen(At(PrintMessages(ms)), number)
  {
    PrintedProcessed(ms, "", number);
    assert PrintMessages(ms) + "" == PrintMessages(ms);
    assert AllHeard(ms, number) + [] == AllHeard(ms, number);
  }

  /** A report that is refused ends the reader: nothing behind it is processed, whatever it is. */
  lemma RefusedEnds(ms: seq<seq<Line>>, r: Con.Report, t: string, number: string -> Option<int>)
    requires AreKnown(ms, number) && !RunOn(r, t).ok
    ensures Processed(At(PrintMessages(ms) + (PrintMessage(ReportLines(r)) + t)), number) == AllHeard(ms, number)
  {
    hide Start, PrintMessages, PrintMessage, ReportLines, AllHeard;
    PrintedProcessed(ms, PrintMessage(ReportLines(r)) + t, number);
    assert AllHeard(ms, number) + [] == AllHeard(ms, number);
  }

  /** One report whose HELO argument holds a quote before a letter loses every message behind it. */
  lemma QuoteLosesTheRest(ms: seq<seq<Line>>, r: Con.Report, a: string, b: string, later: seq<seq<Line>>,
                          number: string -> Option<int>)
    requires AreKnown(ms, number) && IsQuotable(r.dst) && IsQuotable(r.src)
    requires r.helo == a + ("\"" + b) && IsPlain(a) && b != "" && IsAlpha(b[0])
    ensures var text := PrintMessages(ms) + (PrintMessage(ReportLines(r)) + PrintMessages(later));
            Processed(At(text), number) == AllHeard(ms, number)
  {
    hide RunOn, PrintMessages, PrintMessage, ReportLines, AllHeard, Processed;
    ReportRefused(r, a, b, PrintMessages(later));
    RefusedEnds(ms, r, PrintMessages(later), number);
  }
}
