/** The server's counters, its slots and the life of every connection over any sequence of events. */
module GreydRuns {
  import opened Wrappers
  import opened Con
  import opened NextState
  import opened Greyd
  import opened GreydSafety

  // ---------------------------------------------------------------- counting

  /** The number of the connection in a slot, if it is open and, when asked for, has a blacklist. */
  function Tag(c: Con, black: bool): Option<nat> {
    if Open(c) && (black ==> c.blacklists != []) then Some(c.serial) else None
  }

  function Tags(cons: seq<Con>, black: bool): seq<Option<nat>> {
    seq(|cons|, i requires 0 <= i < |cons| => Tag(cons[i], black))
  }

  ghost function One(t: Option<nat>): multiset<nat> {
    if t.Some? then multiset{t.value} else multiset{}
  }

  ghost function Numbers(ts: seq<Option<nat>>): multiset<nat> {
    if ts == [] then multiset{} else Numbers(ts[..|ts| - 1]) + One(ts[|ts| - 1])
  }

  ghost function Below(n: nat): multiset<nat> {
    if n == 0 then multiset{} else Below(n - 1) + multiset{n - 1}
  }

  lemma {:induction false} NumbersSetAt(ts: seq<Option<nat>>, i: nat, t: Option<nat>, k: nat)
    requires i < |ts|
    ensures Numbers(ts[i := t])[k] + One(ts[i])[k] == Numbers(ts)[k] + One(t)[k]
  {
    hide One;
    var n := |ts| - 1;
    if i < n {
      NumbersSetAt(ts[..n], i, t, k);
      assert ts[i := t][..n] == ts[..n][i := t];
    } else {
      assert ts[i := t][..n] == ts[..n];
    }
  }

  lemma NumbersSet(ts: seq<Option<nat>>, i: nat, t: Option<nat>)
    requires i < |ts|
    ensures Numbers(ts[i := t]) + One(ts[i]) == Numbers(ts) + One(t)
  {
    hide Numbers, One;
    forall k: nat ensures (Numbers(ts[i := t]) + One(ts[i]))[k] == (Numbers(ts) + One(t))[k] {
      NumbersSetAt(ts, i, t, k);
    }
  }

  /** How many slots are filled. */
  function Count(ts: seq<Option<nat>>): nat {
    if ts == [] then 0 else Count(ts[..|ts| - 1]) + if ts[|ts| - 1].Some? then 1 else 0
  }

  lemma {:induction false} CountSet(ts: seq<Option<nat>>, i: nat, t: Option<nat>)
    requires i < |ts|
    ensures Count(ts[i := t]) == Count(ts) - (if ts[i].Some? then 1 else 0) + if t.Some? then 1 else 0
  {
    var n := |ts| - 1;
    if i < n {
      CountSet(ts[..n], i, t);
      assert ts[i := t][..n] == ts[..n][i := t];
    } else {
      assert ts[i := t][..n] == ts[..n];
    }
  }

  lemma {:induction false} CountIsSize(ts: seq<Option<nat>>, s: set<nat>)
    requires forall i: nat :: i in s <==> i < |ts| && ts[i].Some?
    ensures Count(ts) == |s| <= |ts|
  {
    if ts == [] {
      assert s == {};
    } else {
      var n := |ts| - 1;
      CountIsSize(ts[..n], s - {n});
    }
  }

  lemma {:induction false} NumberHeld(ts: seq<Option<nat>>, n: nat) returns (i: nat)
    requires Numbers(ts)[n] >= 1
    ensures i < |ts| && ts[i] == Some(n)
  {
    var last := |ts| - 1;
    if ts[last] == Some(n) {
      i := last;
    } else {
      i := NumberHeld(ts[..last], n);
    }
  }

  lemma {:induction false} HeldNumber(ts: seq<Option<nat>>, i: nat, n: nat)
    requires i < |ts| && ts[i] == Some(n)
    ensures Numbers(ts)[n] >= 1
  {
    if i < |ts| - 1 {
      HeldNumber(ts[..|ts| - 1], i, n);
    }
  }

  lemma {:induction false} HeldTwice(ts: seq<Option<nat>>, i: nat, j: nat, n: nat)
    requires i < j < |ts| && ts[i] == Some(n) && ts[j] == Some(n)
    ensures Numbers(ts)[n] >= 2
  {
    var last := |ts| - 1;
    if j < last {
      HeldTwice(ts[..last], i, j, n);
    } else {
      HeldNumber(ts[..last], i, n);
    }
  }

  lemma {:induction false} BelowOnce(n: nat, k: nat)
    ensures Below(n)[k] == if k < n then 1 else 0
  {
    if n > 0 {
      BelowOnce(n - 1, k);
    }
  }

  /** The numbers below `n` are those of the closed connections and those of the open ones, each once. */
  ghost predicate Tally(closed: seq<nat>, ts: seq<Option<nat>>, n: nat) {
    multiset(closed) + Numbers(ts) == Below(n)
  }

  /** The counters are right, and every accepted connection is either open in one slot or closed, exactly once. */
  ghost predicate Tallied(v: Server) {
    && v.clients == Count(Tags(v.cons, false))
    && v.blackClients == Count(Tags(v.cons, true))
    && Tally(v.closed, Tags(v.cons, false), v.accepted)
  }

  ghost predicate Good(v: Server) {
    Tallied(v) && forall i :: 0 <= i < |v.cons| && Open(v.cons[i]) ==> ConOk(v.cons[i])
  }

  // ---------------------------------------------------------------- single changes

  predicate SameSlot(c: Con, d: Con) {
    Open(c) == Open(d) && (Open(c) ==> c.serial == d.serial && c.blacklists == d.blacklists)
  }

  lemma TagsSet(cons: seq<Con>, i: nat, d: Con, black: bool)
    requires i < |cons|
    ensures |Tags(cons, black)| == |cons|
    ensures Tags(cons[i := d], black) == Tags(cons, black)[i := Tag(d, black)]
    ensures Tags(cons, black)[i] == Tag(cons[i], black)
    ensures SameSlot(cons[i], d) ==> Tags(cons[i := d], black) == Tags(cons, black)
  {
    assert Tags(cons[i := d], black) == Tags(cons, black)[i := Tag(d, black)];
  }

  lemma SetTallied(v: Server, i: nat, d: Con)
    requires i < |v.cons| && Tallied(v) && SameSlot(v.cons[i], d)
    ensures Tallied(Set(v, i, d))
  {
    TagsSet(v.cons, i, d, false);
    TagsSet(v.cons, i, d, true);
  }

  lemma CloseTallied(v: Server, i: nat)
    requires i < |v.cons| && Tallied(v) && Open(v.cons[i])
    ensures Tallied(CloseCon(v, i)) && !Open(CloseCon(v, i).cons[i])
  {
    hide Count, Numbers, Tags, Tally;
    var c := v.cons[i];
    TagsSet(v.cons, i, Closed(c), false);
    TagsSet(v.cons, i, Closed(c), true);
    CountSet(Tags(v.cons, false), i, None);
    CountSet(Tags(v.cons, true), i, None);
    TallyCloses(v.closed, Tags(v.cons, false), v.accepted, i);
  }

  function Added(v: Server, i: nat, c: Con): Server
    requires i < |v.cons|
  {
    Set(v, i, c).(clients := v.clients + 1, accepted := v.accepted + 1,
                  blackClients := v.blackClients + if c.blacklists != [] then 1 else 0)
  }

  lemma AddTallied(v: Server, i: nat, c: Con)
    requires i < |v.cons| && Tallied(v) && !Open(v.cons[i]) && Open(c) && c.serial == v.accepted
    ensures Tallied(Added(v, i, c))
  {
    hide Count, Numbers, Tags, Tally;
    TagsSet(v.cons, i, c, false);
    TagsSet(v.cons, i, c, true);
    CountSet(Tags(v.cons, false), i, Tag(c, false));
    CountSet(Tags(v.cons, true), i, Tag(c, true));
    TallyAdds(v.closed, Tags(v.cons, false), v.accepted, i);
  }

  lemma TallyAdds(closed: seq<nat>, ts: seq<Option<nat>>, n: nat, i: nat)
    requires i < |ts| && ts[i] == None && Tally(closed, ts, n)
    ensures Tally(closed, ts[i := Some(n)], n + 1)
  {
    NumbersSet(ts, i, Some(n));
    var c: multiset<nat> := multiset(closed);
    assert Numbers(ts[i := Some(n)]) == Numbers(ts) + multiset{n};
    assert c + (Numbers(ts) + multiset{n}) == (c + Numbers(ts)) + multiset{n};
  }

  lemma TallyCloses(closed: seq<nat>, ts: seq<Option<nat>>, n: nat, i: nat)
    requires i < |ts| && ts[i].Some? && Tally(closed, ts, n)
    ensures Tally(closed + [ts[i].value], ts[i := None], n)
  {
    var k := ts[i].value;
    NumbersSet(ts, i, None);
    var c: multiset<nat> := multiset(closed);
    assert multiset(closed + [k]) == c + multiset{k};
    assert Numbers(ts[i := None]) + multiset{k} == Numbers(ts);
    assert c + multiset{k} + Numbers(ts[i := None]) == c + Numbers(ts);
  }

  /** All slots but one are in order. */
  ghost predicate OthersOk(v: Server, i: nat) {
    Tallied(v) && forall j :: 0 <= j < |v.cons| && j != i && Open(v.cons[j]) ==> ConOk(v.cons[j])
  }

  lemma SetOthers(v: Server, i: nat, d: Con)
    requires i < |v.cons| && OthersOk(v, i) && SameSlot(v.cons[i], d)
    ensures OthersOk(Set(v, i, d), i)
    ensures !Open(d) || ConOk(d) ==> Good(Set(v, i, d))
  {
    hide CommandOf;
    SetTallied(v, i, d);
  }

  lemma CloseOthers(v: Server, i: nat)
    requires i < |v.cons| && OthersOk(v, i) && Open(v.cons[i])
    ensures Good(CloseCon(v, i))
  {
    hide CommandOf;
    CloseTallied(v, i);
  }

  lemma GoodOthers(v: Server, i: nat)
    requires Good(v)
    ensures OthersOk(v, i)
    ensures i < |v.cons| && Open(v.cons[i]) ==> ConOk(v.cons[i])
  {
  }

  lemma AdvanceGood(v: Server, i: nat, env: Env)
    requires i < |v.cons| && OthersOk(v, i) && Open(v.cons[i]) && GoodEnv(env)
    requires v.cons[i].state == Close || Ready(v.cons[i])
    ensures Good(Advance(v, i, env)) && |Advance(v, i, env).cons| == |v.cons|
  {
    hide ConOk, Ready, Next;
    if v.cons[i].state == Close {
      CloseOthers(v, i);
    } else {
      NextOk(v.cons[i], env);
      SetOthers(v, i, Next(v.cons[i], env));
    }
  }

  // ---------------------------------------------------------------- events

  predicate GoodSettings(st: Settings) {
    st.stutter >= 0
  }

  /** What the operating system promises: a read brings at least one and at most the characters asked for, a write takes
      no more than it is given, a new connection has a descriptor and an address. */
  predicate Promised(v: Server, st: Settings, e: Event) {
    match e
    case Accept(fd, src, blacklists, env) => fd != -1 && ValidSource(src) && GoodEnv(env)
    case AcceptFailed(_, _) => true
    case Readable(i, input, env) =>
      GoodEnv(env) && (i < |v.cons| && input.Got? ==> 0 < |input.data| <= v.cons[i].inRemaining)
    case Writable(i, _, written, env) =>
      GoodEnv(env) && (i < |v.cons| ==> written <= ToBeWritten(v, Unstuttered(v.cons[i], st, env.now)))
    case Expire(_, _) => true
    case Hangup(_) => true
  }

  /** Beyond that, of a client on blacklists some message needs a newline of its own. */
  predicate GoodEvent(v: Server, st: Settings, e: Event) {
    Promised(v, st, e) && (e.Accept? ==> GoodLists(e.blacklists))
  }

  lemma RefusedGood(v: Server)
    requires Good(v)
    ensures Good(v.(slowUntil := 0))
  {
    hide ConOk;
  }

  lemma AddOthers(v: Server, i: nat, c: Con)
    requires i < |v.cons| && Good(v) && !Open(v.cons[i]) && Open(c) && c.serial == v.accepted
    ensures OthersOk(Added(v, i, c), i)
  {
    AddTallied(v, i, c);
    hide ConOk, Tallied;
  }

  lemma AcceptingGood(v: Server, st: Settings, fd: int, src: string, blacklists: seq<string>, env: Env)
    requires Good(v) && GoodSettings(st) && fd != -1 && ValidSource(src) && GoodLists(blacklists) && GoodEnv(env)
    ensures Good(Accepting(v, st, fd, src, blacklists, env))
    ensures |Accepting(v, st, fd, src, blacklists, env).cons| == |v.cons|
  {
    hide ConOk, Ready, Tallied, Good, Advance, OthersOk;
    RefusedGood(v);
    var i := FirstFree(v.cons);
    if i < |v.cons| {
      var black := v.blackClients + if blacklists != [] then 1 else 0;
      var c := FreshCon(st, fd, v.accepted, src, blacklists, black, env.now);
      AddOthers(v, i, c);
      FreshReady(st, fd, v.accepted, src, blacklists, black, env.now);
      AdvanceGood(Added(v, i, c), i, env);
    }
  }

  lemma FreshReady(st: Settings, fd: int, serial: nat, src: string, blacklists: seq<string>, black: int, now: int)
    requires GoodSettings(st) && ValidSource(src) && GoodLists(blacklists)
    ensures Ready(FreshCon(st, fd, serial, src, blacklists, black, now))
  {
  }

  /** A connection whose input has just come. */
  predicate Fed(c: Con) {
    && Steady(c) && c.w == 0 && c.out.remaining == 0 && LegalReading(c.state, c.lastState)
    && c.badCmd <= MAX_BAD_CMD
  }

  lemma CompleteGood(v: Server, i: nat, env: Env)
    requires i < |v.cons| && OthersOk(v, i) && Open(v.cons[i]) && GoodEnv(env) && Fed(v.cons[i])
    ensures Good(Complete(v, i, env)) && |Complete(v, i, env).cons| == |v.cons|
  {
    hide OthersOk, CommandOf, Next, Good, Advance;
    var c := v.cons[i];
    var n := StrippedLength(c.inBuf, c.inP);
    StrippedWithin(c.inBuf, c.inP);
    var d := c.(inP := n, inBuf := c.inBuf[..n], r := 0);
    SetOthers(v, i, d);
    AdvanceGood(Set(v, i, d), i, env);
  }

  lemma {:induction false} StrippedWithin(buf: string, n: nat)
    requires n <= |buf|
    ensures StrippedLength(buf, n) <= n
  {
    if n > 0 && EndsInput(buf[n - 1]) {
      StrippedWithin(buf, n - 1);
    }
  }

  lemma ReadingGood(v: Server, i: nat, input: Input, env: Env)
    requires Good(v) && WantsRead(v, i) && GoodEnv(env) && (input.Got? ==> 0 < |input.data| <= v.cons[i].inRemaining)
    ensures Good(Reading(v, i, input, env)) && |Reading(v, i, input, env).cons| == |v.cons|
  {
    GoodOthers(v, i);
    hide OthersOk, CommandOf, Good, Complete;
    var c := v.cons[i];
    if input.Got? {
      var d := Taken(c, input.data);
      SetOthers(v, i, d);
      if '\n' in CString(input.data) || d.inRemaining == 0 {
        CompleteGood(Set(v, i, d), i, env);
      }
    } else {
      CloseOthers(v, i);
    }
  }

  lemma WritingGood(v: Server, st: Settings, i: nat, crWritten: bool, written: int, env: Env)
    requires Good(v) && WantsWrite(v, i, env.now) && GoodEnv(env)
    requires written <= ToBeWritten(v, Unstuttered(v.cons[i], st, env.now))
    ensures Good(Writing(v, st, i, crWritten, written, env))
            && |Writing(v, st, i, crWritten, written, env).cons| == |v.cons|
  {
    GoodOthers(v, i);
    hide OthersOk, CommandOf, Good, Advance, Written, AfterWrite;
    var c := Unstuttered(v.cons[i], st, env.now);
    SetOthers(v, i, c);
    WrittenGood(Set(v, i, c), i, crWritten, written, env);
  }

  lemma WrittenGood(v: Server, i: nat, crWritten: bool, written: int, env: Env)
    requires i < |v.cons| && OthersOk(v, i) && Open(v.cons[i]) && GoodEnv(env) && Steady(v.cons[i])
    requires IsWriting(v.cons[i], CommandOf(v.cons[i].inBuf)) && written <= v.cons[i].out.remaining
    ensures Good(AfterWrite(Written(v, i, crWritten, written), i, env))
    ensures |AfterWrite(Written(v, i, crWritten, written), i, env).cons| == |v.cons|
  {
    hide OthersOk, CommandOf, Good, AfterWrite, CharAt;
    var c := v.cons[i];
    var d := c.(seenCr := CharAt(c.out) == '\r');
    SetOthers(v, i, d);
    if CharAt(c.out) == '\n' && !c.seenCr && !crWritten {
      ClosedWhileWriting(v, i, env);
    } else if written <= 0 {
      ClosedWhileWriting(Set(v, i, d), i, env);
    } else {
      SentGood(v, i, d, written, env);
    }
  }

  lemma SentGood(v: Server, i: nat, d: Con, written: nat, env: Env)
    requires i < |v.cons| && OthersOk(v, i) && Open(v.cons[i]) && SameSlot(v.cons[i], d) && GoodEnv(env) && Steady(d)
    requires IsWriting(d, CommandOf(d.inBuf)) && written <= d.out.remaining
    ensures var v1 := Set(v, i, d.(out := d.out.(p := d.out.p + written, remaining := d.out.remaining - written)));
            Good(AfterWrite(v1, i, env)) && |AfterWrite(v1, i, env).cons| == |v.cons|
  {
    hide OthersOk, CommandOf, Good, Advance;
    var e := d.(out := d.out.(p := d.out.p + written, remaining := d.out.remaining - written));
    var f := e.(w := if e.out.remaining == 0 then 0 else env.now + e.stutter);
    SetOthers(v, i, e);
    SetOthers(Set(v, i, e), i, f);
    if f.out.remaining == 0 {
      AdvanceGood(Set(Set(v, i, e), i, f), i, env);
    }
  }

  /** A connection closed in the middle of a write is not advanced, and so not closed a second time. */
  lemma ClosedWhileWriting(v: Server, i: nat, env: Env)
    requires i < |v.cons| && OthersOk(v, i) && Open(v.cons[i]) && v.cons[i].out.remaining > 0
    ensures Good(AfterWrite(CloseCon(v, i), i, env)) && |AfterWrite(CloseCon(v, i), i, env).cons| == |v.cons|
  {
    hide OthersOk, ConOk, Good, Tallied, Advance;
    CloseOthers(v, i);
    var v1 := CloseCon(v, i);
    GoodOthers(v1, i);
    SetOthers(v1, i, v1.cons[i].(w := env.now + v1.cons[i].stutter));
  }

  lemma StepGood(v: Server, st: Settings, e: Event)
    requires Good(v) && GoodSettings(st) && GoodEvent(v, st, e)
    ensures Good(Step(v, st, e)) && |Step(v, st, e).cons| == |v.cons|
  {
    hide OthersOk, ConOk, Accepting, Reading, Writing;
    match e
    case Accept(fd, src, blacklists, env) => AcceptingGood(v, st, fd, src, blacklists, env);
    case AcceptFailed(_, _) =>
    case Readable(i, input, env) => if WantsRead(v, i) { ReadingGood(v, i, input, env); }
    case Writable(i, crWritten, written, env) =>
      if WantsWrite(v, i, env.now) { WritingGood(v, st, i, crWritten, written, env); }
    case Expire(i, now) => if TimedOut(v, i, now) { GoodOthers(v, i); CloseOthers(v, i); }
    case Hangup(i) => if i < |v.cons| && Open(v.cons[i]) { GoodOthers(v, i); CloseOthers(v, i); }
  }

  predicate GoodRun(maxCons: nat, st: Settings, es: seq<Event>) {
    es == [] || (GoodRun(maxCons, st, es[..|es| - 1]) && GoodEvent(Run(maxCons, st, es[..|es| - 1]), st, es[|es| - 1]))
  }

  predicate PromisedRun(maxCons: nat, st: Settings, es: seq<Event>) {
    && GoodSettings(st)
    && (es == [] || (PromisedRun(maxCons, st, es[..|es| - 1])
                     && Promised(Run(maxCons, st, es[..|es| - 1]), st, es[|es| - 1])))
  }

  lemma {:induction false} RunGood(maxCons: nat, st: Settings, es: seq<Event>)
    requires GoodSettings(st) && GoodRun(maxCons, st, es)
    ensures Good(Run(maxCons, st, es)) && |Run(maxCons, st, es).cons| == maxCons
  {
    hide ConOk, Step;
    if es == [] {
      NoneOpen(Tags(Start(maxCons).cons, false));
      NoneOpen(Tags(Start(maxCons).cons, true));
    } else {
      RunGood(maxCons, st, es[..|es| - 1]);
      StepGood(Run(maxCons, st, es[..|es| - 1]), st, es[|es| - 1]);
    }
  }

  lemma {:induction false} NoneOpen(ts: seq<Option<nat>>)
    requires forall i :: 0 <= i < |ts| ==> ts[i] == None
    ensures Numbers(ts) == multiset{} && Count(ts) == 0
  {
    if ts != [] {
      NoneOpen(ts[..|ts| - 1]);
    }
  }

  // ---------------------------------------------------------------- what this says

  /** The counters are the numbers of open slots and of open slots with a blacklist. */
  ghost predicate CountersRight(v: Server) {
    && v.clients == |set i: nat | i < |v.cons| && Open(v.cons[i])|
    && v.blackClients == |set i: nat | i < |v.cons| && Black(v.cons[i])|
  }

  lemma CountersAreRight(maxCons: nat, st: Settings, es: seq<Event>)
    requires GoodSettings(st) && GoodRun(maxCons, st, es)
    ensures var v := Run(maxCons, st, es); CountersRight(v) && v.blackClients <= v.clients <= maxCons
  {
    hide ConOk, Step;
    var v := Run(maxCons, st, es);
    RunGood(maxCons, st, es);
    CountIsSize(Tags(v.cons, false), set i: nat | i < |v.cons| && Open(v.cons[i]));
    CountIsSize(Tags(v.cons, true), set i: nat | i < |v.cons| && Black(v.cons[i]));
    CountBlack(v.cons);
  }

  lemma {:induction false} CountBlack(cons: seq<Con>)
    ensures Count(Tags(cons, true)) <= Count(Tags(cons, false))
  {
    if cons != [] {
      var n := |cons| - 1;
      CountBlack(cons[..n]);
      assert forall b :: Tags(cons, b)[..n] == Tags(cons[..n], b);
    }
  }

  predicate Holds(cons: seq<Con>, i: nat, n: nat) {
    i < |cons| && Open(cons[i]) && cons[i].serial == n
  }

  /** An accepted connection is open in exactly one slot and was never closed, or in none and was closed exactly once;
      a connection not accepted appears nowhere. */
  ghost predicate ClosedOnce(v: Server, n: nat) {
    var held := exists i :: Holds(v.cons, i, n);
    && multiset(v.closed)[n] == (if n < v.accepted && !held then 1 else 0)
    && (held ==> n < v.accepted)
    && forall i, j :: Holds(v.cons, i, n) && Holds(v.cons, j, n) ==> i == j
  }

  lemma TalliedOnce(closed: seq<nat>, ts: seq<Option<nat>>, n: nat, k: nat)
    requires Tally(closed, ts, n)
    ensures multiset(closed)[k] + Numbers(ts)[k] == if k < n then 1 else 0
  {
    BelowOnce(n, k);
    assert (multiset(closed) + Numbers(ts))[k] == multiset(closed)[k] + Numbers(ts)[k];
  }

  /** The slots that hold a number are as many as the times it is counted. */
  lemma HoldersCounted(cons: seq<Con>, n: nat)
    ensures Numbers(Tags(cons, false))[n] >= 1 <==> exists i :: Holds(cons, i, n)
    ensures forall i, j :: i < j && Holds(cons, i, n) && Holds(cons, j, n) ==> Numbers(Tags(cons, false))[n] >= 2
  {
    var ts := Tags(cons, false);
    if Numbers(ts)[n] >= 1 {
      var i := NumberHeld(ts, n);
      assert Holds(cons, i, n);
    }
    forall i | Holds(cons, i, n) ensures Numbers(ts)[n] >= 1 {
      HeldNumber(ts, i, n);
    }
    forall i, j | i < j && Holds(cons, i, n) && Holds(cons, j, n) ensures Numbers(ts)[n] >= 2 {
      HeldTwice(ts, i, j, n);
    }
  }

  lemma ClosedExactlyOnce(maxCons: nat, st: Settings, es: seq<Event>, n: nat)
    requires GoodSettings(st) && GoodRun(maxCons, st, es)
    ensures ClosedOnce(Run(maxCons, st, es), n)
  {
    hide ConOk, Run, Numbers, Tags, Tally;
    var v := Run(maxCons, st, es);
    RunGood(maxCons, st, es);
    var ts := Tags(v.cons, false);
    TalliedOnce(v.closed, ts, v.accepted, n);
    HoldersCounted(v.cons, n);
  }

  /** A connection that waits to write always has something left to write, and every pair of states is legal. */
  lemma EveryConnectionIsLegal(maxCons: nat, st: Settings, es: seq<Event>, i: nat)
    requires GoodSettings(st) && GoodRun(maxCons, st, es)
    requires i < |Run(maxCons, st, es).cons| && Open(Run(maxCons, st, es).cons[i])
    ensures var c := Run(maxCons, st, es).cons[i];
            && (c.w != 0 ==> c.out.remaining > 0 && LegalWriting(c.state, c.lastState))
            && (c.r != 0 ==> c.inRemaining > 0 && LegalReading(c.state, c.lastState))
            && (c.r != 0) != (c.w != 0)
            && (c.badCmd > MAX_BAD_CMD ==> c.state == Close)
  {
    hide CommandOf, Step, Tallied;
    RunGood(maxCons, st, es);
  }

  // ---------------------------------------------------------------- after DATA

  /** From `v` to `v'` slot `k` keeps its connection or loses it, and one that has given DATA is not led back. */
  predicate Keeps(v: Server, v': Server, k: nat) {
    && k < |v.cons| == |v'.cons| && v'.accepted == v.accepted
    && (Open(v'.cons[k]) ==> Open(v.cons[k]) && v'.cons[k].serial == v.cons[k].serial)
    && (AfterData(v.cons[k].state) ==> AfterData(v'.cons[k].state))
  }

  lemma AdvanceKeeps(v: Server, i: nat, k: nat, env: Env)
    requires i < |v.cons| && k < |v.cons|
    ensures Keeps(v, Advance(v, i, env), k)
  {
    hide Next, ReportOf, AfterData;
    AfterDataStays(v.cons[k], env);
  }

  lemma CompleteKeeps(v: Server, i: nat, k: nat, env: Env)
    requires i < |v.cons| && k < |v.cons|
    ensures Keeps(v, Complete(v, i, env), k)
  {
    hide Advance, AfterData;
    var c := v.cons[i];
    var n := if c.inP <= |c.inBuf| then StrippedLength(c.inBuf, c.inP) else c.inP;
    AdvanceKeeps(Set(v, i, c.(inP := n, inBuf := if n <= |c.inBuf| then c.inBuf[..n] else c.inBuf, r := 0)), i, k, env);
  }

  lemma ReadingKeeps(v: Server, i: nat, input: Input, k: nat, env: Env)
    requires WantsRead(v, i) && k < |v.cons|
    ensures Keeps(v, Reading(v, i, input, env), k)
  {
    hide Complete, CString, AfterData;
    var v' := if input.Got? then Set(v, i, Taken(v.cons[i], input.data)) else CloseCon(v, i);
    assert Keeps(v, v', k);
    CompleteKeeps(v', i, k, env);
  }

  lemma WrittenKeeps(v: Server, i: nat, crWritten: bool, written: int, k: nat)
    requires i < |v.cons| && k < |v.cons|
    ensures Keeps(v, Written(v, i, crWritten, written), k)
  {
    hide CharAt, AfterData;
  }

  lemma AfterWriteKeeps(v: Server, i: nat, k: nat, env: Env)
    requires i < |v.cons| && k < |v.cons|
    ensures Keeps(v, AfterWrite(v, i, env), k)
  {
    hide Advance, AfterData;
    AdvanceKeeps(Set(v, i, v.cons[i].(w := 0)), i, k, env);
  }

  lemma WritingKeeps(v: Server, st: Settings, i: nat, crWritten: bool, written: int, k: nat, env: Env)
    requires i < |v.cons| && k < |v.cons|
    ensures Keeps(v, Writing(v, st, i, crWritten, written, env), k)
  {
    hide Written, AfterWrite, AfterData;
    var u := Set(v, i, Unstuttered(v.cons[i], st, env.now));
    WrittenKeeps(u, i, crWritten, written, k);
    AfterWriteKeeps(Written(u, i, crWritten, written), i, k, env);
  }

  /** No event brings a connection that has given DATA back to the envelope, and an open slot holds the connection it
      held before or one just accepted. */
  lemma StepKeeps(v: Server, st: Settings, e: Event, k: nat, n: nat)
    requires k < |v.cons|
    ensures var v' := Step(v, st, e);
            && |v'.cons| == |v.cons| && v'.accepted >= v.accepted
            && (Holds(v'.cons, k, n) ==> Holds(v.cons, k, n) || v.accepted == n < v'.accepted)
            && (Holds(v'.cons, k, n) && n < v.accepted && AfterData(v.cons[k].state) ==> AfterData(v'.cons[k].state))
  {
    hide Advance, Reading, Writing, AfterData;
    match e
    case Accept(fd, src, blacklists, env) =>
      var i := FirstFree(v.cons);
      if i < |v.cons| {
        var black := v.blackClients + if blacklists != [] then 1 else 0;
        AdvanceKeeps(Added(v, i, FreshCon(st, fd, v.accepted, src, blacklists, black, env.now)), i, k, env);
      }
    case Readable(i, input, env) => if WantsRead(v, i) { ReadingKeeps(v, i, input, k, env); }
    case Writable(i, crWritten, written, env) =>
      if WantsWrite(v, i, env.now) { WritingKeeps(v, st, i, crWritten, written, k, env); }
    case _ =>
  }

  /** Once a connection has given DATA it stays in the message, the reply or the close over any further events, for as
      long as its slot holds it. */
  lemma {:induction false} AfterDataForever(v: Server, st: Settings, es: seq<Event>, k: nat, n: nat)
    requires Holds(v.cons, k, n) && AfterData(v.cons[k].state) && n < v.accepted
    ensures var v' := RunFrom(v, st, es);
            && v'.accepted >= v.accepted && |v'.cons| == |v.cons|
            && (Holds(v'.cons, k, n) ==> AfterData(v'.cons[k].state))
  {
    hide Step, AfterData;
    if es != [] {
      AfterDataForever(v, st, es[..|es| - 1], k, n);
      StepKeeps(RunFrom(v, st, es[..|es| - 1]), st, es[|es| - 1], k, n);
    }
  }

  /** A connection that a slot holds was accepted. */
  lemma {:induction false} HeldWasAccepted(maxCons: nat, st: Settings, es: seq<Event>, k: nat, n: nat)
    requires Holds(Run(maxCons, st, es).cons, k, n)
    ensures n < Run(maxCons, st, es).accepted && k < maxCons
    decreases |es|
  {
    hide Step;
    if es != [] {
      var v := Run(maxCons, st, es[..|es| - 1]);
      RunSlots(maxCons, st, es[..|es| - 1]);
      RunSlots(maxCons, st, es);
      StepKeeps(v, st, es[|es| - 1], k, n);
      if Holds(v.cons, k, n) {
        HeldWasAccepted(maxCons, st, es[..|es| - 1], k, n);
      }
    }
  }

  lemma {:induction false} RunSlots(maxCons: nat, st: Settings, es: seq<Event>)
    ensures |Run(maxCons, st, es).cons| == maxCons
  {
    hide Step;
    if es != [] {
      RunSlots(maxCons, st, es[..|es| - 1]);
      if maxCons > 0 {
        StepKeeps(Run(maxCons, st, es[..|es| - 1]), st, es[|es| - 1], 0, 0);
      } else {
        NoSlots(Run(maxCons, st, es[..|es| - 1]), st, es[|es| - 1]);
      }
    }
  }

  lemma NoSlots(v: Server, st: Settings, e: Event)
    requires v.cons == []
    ensures Step(v, st, e).cons == []
  {
    hide Advance, Reading, Writing;
  }

  /** In every run: a connection that has given DATA stays behind it in all longer runs, for as long as its slot holds
      it. */
  lemma AfterDataInRuns(maxCons: nat, st: Settings, es: seq<Event>, fs: seq<Event>, k: nat, n: nat)
    requires Holds(Run(maxCons, st, es).cons, k, n) && AfterData(Run(maxCons, st, es).cons[k].state)
    ensures Holds(Run(maxCons, st, es + fs).cons, k, n) ==> AfterData(Run(maxCons, st, es + fs).cons[k].state)
  {
    hide RunFrom, AfterData;
    HeldWasAccepted(maxCons, st, es, k, n);
    RunFromSplits(Start(maxCons), st, es, fs);
    AfterDataForever(Run(maxCons, st, es), st, fs, k, n);
  }
}
