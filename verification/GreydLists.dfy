/** Which blacklists the server's bookkeeping survives: exactly those of which some message needs a newline of its own.
    With others nothing of the final reply is marked, the write of nothing closes the connection, and the handler, which
    then finds nothing left to write, closes it again. */
module GreydLists {
  import opened Wrappers
  import opened Reply
  import opened Con
  import opened Greyd
  import opened GreydSafety
  import opened GreydRuns

  /** Every client accepted is on blacklists with these messages. */
  predicate Accepts(es: seq<Event>, lists: seq<string>) {
    forall i :: 0 <= i < |es| && es[i].Accept? ==> es[i].blacklists == lists
  }

  ghost predicate InOrder(v: Server) {
    CountersRight(v) && forall n :: ClosedOnce(v, n)
  }

  /** All runs that accept only such clients keep counters and closes in order. */
  ghost predicate AlwaysInOrder(lists: seq<string>) {
    forall maxCons: nat, st, es ::
      PromisedRun(maxCons, st, es) && Accepts(es, lists) ==> InOrder(Run(maxCons, st, es))
  }

  lemma {:induction false} AcceptedGood(maxCons: nat, st: Settings, es: seq<Event>, lists: seq<string>)
    requires PromisedRun(maxCons, st, es) && Accepts(es, lists) && GoodLists(lists)
    ensures GoodRun(maxCons, st, es)
  {
    hide Promised, GoodLists;
    if es != [] {
      AcceptedGood(maxCons, st, es[..|es| - 1], lists);
    }
  }

  const SETTINGS := Settings(0, false, 0, 0, true)
  const ENV := Env(1, "h", "b", "t", "450", false, Refused, None)

  /** One client sends one line where a proxy's is expected, and the system then takes what there is to write:
      nothing. */
  function BadRun(lists: seq<string>): seq<Event> {
    [Accept(3, "0", lists, ENV), Readable(0, Got("x\n"), ENV), Writable(0, true, 0, ENV)]
  }

  /** The connection once accepted. */
  function Waiting(lists: seq<string>): Con {
    Con(3, 0, ProxyOut, ProxyIn, "0", "", "", "", "", lists, 1, 0, 1, "", 0, IN_SIZE, Pending("", 0, 0),
        0, false, 0, 0, false)
  }

  /** The connection that has sent its line. */
  function Refusing(lists: seq<string>): Con {
    Finish(Waiting(lists).(inP := 1, inBuf := "x", inRemaining := IN_SIZE - 2, r := 0), ProxyOut, ENV)
  }

  function OneSlot(c: Con): Server {
    Server([c], 1, 1, 0, 1, [], [])
  }

  lemma AcceptStep(lists: seq<string>)
    requires lists != []
    ensures Step(Start(1), SETTINGS, BadRun(lists)[0]) == OneSlot(Waiting(lists))
  {
    var v := Start(1);
    assert FirstFree(v.cons) == 0;
    assert CommandOf("") == Unknown;
    var c := FreshCon(SETTINGS, 3, 0, "0", lists, 1, 1);
    assert Next(c, ENV) == Waiting(lists);
    assert WithClient(v, 0, SETTINGS, 3, "0", lists, ENV).cons == [Waiting(lists)];
  }

  /** The line without its end. */
  lemma LineText()
    ensures '\n' in CString("x\n") && StrippedLength("x\n", 2) == 1 && "x\n"[..1] == "x" && CommandOf("x") == Unknown
  {
    assert "x\n"[1..] == "\n" && CString("\n") == "\n" + CString("");
  }

  lemma LineStep(lists: seq<string>)
    requires lists != []
    ensures Step(OneSlot(Waiting(lists)), SETTINGS, BadRun(lists)[1]) == OneSlot(Refusing(lists))
  {
    hide Finish, CString, StrippedLength, CommandOf, Obeyed;
    LineText();
    var c := Taken(Waiting(lists), "x\n");
    assert c.inBuf == "x\n" && c.inP == 2;
    LineNext(lists, c.(inP := 1, inBuf := "x", r := 0));
    assert Complete(OneSlot(c), 0, ENV) == OneSlot(Refusing(lists));
    assert Set(OneSlot(Waiting(lists)), 0, c) == OneSlot(c);
  }

  lemma LineNext(lists: seq<string>, d: Con)
    requires d == Waiting(lists).(inP := 1, inBuf := "x", inRemaining := IN_SIZE - 2, r := 0) && lists != []
    ensures Next(d, ENV) == Refusing(lists) && ReportOf(d, ENV) == None
    ensures Advance(OneSlot(d), 0, ENV) == OneSlot(Refusing(lists))
  {
    hide Finish, Obeyed;
    assert CommandOf("x") == Unknown;
    assert Advance(OneSlot(d), 0, ENV).cons == [Refusing(lists)];
  }

  lemma WriteStep(lists: seq<string>)
    requires lists != [] && !SomeNeedsNewline(lists, "0")
    ensures var v := Step(OneSlot(Refusing(lists)), SETTINGS, BadRun(lists)[2]);
            v.clients == -1 && v.closed == [0, 0] && v.accepted == 1
    ensures Refusing(lists).out.remaining == 0 && Refusing(lists).stutter == 0
  {
    hide Remaining, SomeNeedsNewline, MultiLine, Next, CharAt;
    NothingMarked(lists, "450", "0", 0);
    var c := Refusing(lists);
    assert c.out.remaining == 0 && c.state == Close && c.w == 1 && c.fd == 3 && c.serial == 0;
    assert Unstuttered(c, SETTINGS, 1) == c;
    WrittenTwice(c);
  }

  /** Any connection at its end that waits to write nothing is closed twice by the write. */
  lemma WrittenTwice(c: Con)
    requires c.w != 0 && c.state == Close && c.out.remaining == 0
    ensures var v := AfterWrite(Written(Set(OneSlot(c), 0, c), 0, true, 0), 0, ENV);
            v.clients == -1 && v.closed == [c.serial, c.serial] && v.accepted == 1
  {
    hide CharAt, Next;
    var w := Written(Set(OneSlot(c), 0, c), 0, true, 0);
    assert w == CloseCon(Set(Set(OneSlot(c), 0, c), 0, c.(seenCr := CharAt(c.out) == '\r')), 0);
    assert w.closed == [c.serial] && w.clients == 0;
  }

  /** The write of nothing closes the connection, and the handler closes it once more. */
  lemma ClosedTwice(lists: seq<string>)
    requires lists != [] && !SomeNeedsNewline(lists, "0")
    ensures PromisedRun(1, SETTINGS, BadRun(lists)) && Accepts(BadRun(lists), lists)
    ensures var v := Run(1, SETTINGS, BadRun(lists)); v.clients == -1 && v.closed == [0, 0] && v.accepted == 1
  {
    hide Step, Refusing;
    var es := BadRun(lists);
    assert es[..3] == es && es[..3][..2] == es[..2] && es[..2][..1] == es[..1] && es[..1][..0] == [];
    AcceptStep(lists);
    assert Run(1, SETTINGS, es[..1]) == Step(Run(1, SETTINGS, es[..1][..0]), SETTINGS, es[0]);
    LineStep(lists);
    assert Run(1, SETTINGS, es[..2]) == Step(Run(1, SETTINGS, es[..1]), SETTINGS, es[1]);
    WriteStep(lists);
    assert Run(1, SETTINGS, es) == Step(Run(1, SETTINGS, es[..2]), SETTINGS, es[2]);
    assert PromisedRun(1, SETTINGS, es[..1][..0]);
    assert PromisedRun(1, SETTINGS, es[..1]);
    assert PromisedRun(1, SETTINGS, es[..2]);
  }

  /** A client on blacklists: all runs that accept clients on these lists keep the counters right and close every
      connection exactly once if and only if some message of the lists needs a newline of its own. */
  lemma InOrderIff(lists: seq<string>)
    requires lists != []
    ensures AlwaysInOrder(lists) <==> SomeNeedsNewline(lists, "0")
  {
    hide Step, PromisedRun, Accepts, Run;
    if SomeNeedsNewline(lists, "0") {
      forall maxCons: nat, st, es | PromisedRun(maxCons, st, es) && Accepts(es, lists)
        ensures InOrder(Run(maxCons, st, es))
      {
        StaysInOrder(maxCons, st, es, lists);
      }
    } else {
      ClosedTwice(lists);
      var v := Run(1, SETTINGS, BadRun(lists));
      assert multiset(v.closed)[0] == 2;
      assert !ClosedOnce(v, 0);
      assert !InOrder(v);
    }
  }

  lemma StaysInOrder(maxCons: nat, st: Settings, es: seq<Event>, lists: seq<string>)
    requires PromisedRun(maxCons, st, es) && Accepts(es, lists) && GoodLists(lists)
    ensures InOrder(Run(maxCons, st, es))
  {
    hide Step, Run, CountersRight, ClosedOnce;
    AcceptedGood(maxCons, st, es, lists);
    CountersAreRight(maxCons, st, es);
    forall n ensures ClosedOnce(Run(maxCons, st, es), n) {
      ClosedExactlyOnce(maxCons, st, es, n);
    }
  }

  /** A message that ends in a newline of its own, alone on the client's lists, is such an input ... */
  lemma NewlineLosesOrder()
    ensures !AlwaysInOrder(["a\\n"])
  {
    EndsItself();
    InOrderIff(["a\\n"]);
  }

  /** ... and behind any message that does not end so it is none. */
  lemma SecondNewlineKeepsOrder()
    ensures AlwaysInOrder(["b", "a\\n"])
  {
    EndsItself();
    assert ["b", "a\\n"][..1] == ["b"] && ["b"][..0] == [];
    assert "b"[..0] == "";
    assert Expand("b", "0") == Expansion("b", None);
    InOrderIff(["b", "a\\n"]);
  }

  lemma EndsItself()
    ensures Expand("a\\n", "0") == Expansion("a\n", None)
  {
    assert "a\\n"[..2] == "a\\" && "a\\"[..1] == "a" && "a"[..0] == "";
    assert Expand("a", "0") == Expansion("a", None);
    assert Expand("a\\", "0") == Expansion("a", Some('\\'));
  }
}
