/** How slowly a client is answered, and how long the server waits for it. */
module Tarpit {
  import opened Wrappers
  import opened Reply
  import opened Con
  import opened Greyd
  import opened GreydRuns
  import opened Sessions

  // ---------------------------------------------------------------- the pace of a connection

  /** Neither the pace nor the start of a connection has changed; what it wants to write waits for the pace. */
  predicate SamePace(c: Con, d: Con, now: int) {
    d.stutter == c.stutter && d.s == c.s && (d.w == c.w || d.w == now + c.stutter)
  }

  lemma EnvelopePace(c: Con, cmd: Command, env: Env)
    requires cmd in {Helo, Ehlo, Mail, Rcpt}
    ensures SamePace(c, Obeyed(c, cmd, env), env.now)
  {
    hide AddressArgument, HeloArgument, Normalized, ReplyOutput;
    if c.badCmd + 1 > MAX_BAD_CMD {
    } else {
    }
  }

  lemma OtherPace(c: Con, cmd: Command, env: Env)
    requires cmd !in {Helo, Ehlo, Mail, Rcpt}
    ensures SamePace(c, Obeyed(c, cmd, env), env.now)
  {
    hide ReplyOutput;
  }

  lemma ObeyedPace(c: Con, cmd: Command, env: Env)
    ensures SamePace(c, Obeyed(c, cmd, env), env.now)
  {
    hide Obeyed;
    if cmd in {Helo, Ehlo, Mail, Rcpt} {
      EnvelopePace(c, cmd, env);
    } else {
      OtherPace(c, cmd, env);
    }
  }

  lemma FollowedPace(c: Con, cmd: Command, env: Env)
    requires c.state !in {HeloIn, MailIn, RcptIn, DataIn}
    ensures SamePace(c, Followed(c, cmd, env), env.now)
  {
    hide BodyFrom, ReplyOutput, Matches, Obeyed, Banner;
  }

  lemma NextPace(c: Con, env: Env)
    ensures SamePace(c, Next(c, env), env.now)
  {
    hide CommandOf, Obeyed, BodyFrom, ReplyOutput;
    var cmd := CommandOf(c.inBuf);
    if c.state in {HeloIn, MailIn, RcptIn, DataIn} {
      ObeyedPace(c, cmd, env);
    } else {
      hide Followed;
      FollowedPace(c, cmd, env);
    }
  }

  /** The server writes to slot `k`. */
  predicate Writes(v: Server, e: Event, k: nat) {
    e.Writable? && e.i == k && WantsWrite(v, k, e.env.now)
  }

  /** A connection that goes on has kept its pace, or was released from it because it is on no blacklist and has waited
      long enough. */
  predicate Released(c: Con, st: Settings, e: Event) {
    e.Writable? && st.greylist && c.blacklists == [] && e.env.now - c.s > st.greyStutter
  }

  lemma ReadingPace(v: Server, k: nat, input: Input, env: Env)
    requires WantsRead(v, k) && Open(Reading(v, k, input, env).cons[k])
    ensures var c, d := v.cons[k], Reading(v, k, input, env).cons[k];
            && d.stutter == c.stutter && d.s == c.s && d.blacklists == c.blacklists
            && (d.w == c.w || d.w == env.now + c.stutter)
  {
    hide Next, CString, StrippedLength;
    var c := v.cons[k];
    if input.Got? {
      var u := Taken(c, input.data);
      var n := if u.inP <= |u.inBuf| then StrippedLength(u.inBuf, u.inP) else u.inP;
      NextPace(u.(inP := n, inBuf := if n <= |u.inBuf| then u.inBuf[..n] else u.inBuf, r := 0), env);
    } else {
      CompleteKeeps(CloseCon(v, k), k, k, env);
    }
  }

  lemma WrittenPace(v: Server, k: nat, crWritten: bool, written: int)
    requires k < |v.cons| && v.cons[k].w != 0
    ensures var x := Written(v, k, crWritten, written);
            && k < |x.cons|
            && (Open(x.cons[k]) ==> x.cons[k].s == v.cons[k].s && x.cons[k].blacklists == v.cons[k].blacklists
                                    && x.cons[k].stutter == v.cons[k].stutter && written > 0)
  {
    hide CharAt;
  }

  lemma AfterWritePace(v: Server, k: nat, env: Env)
    requires k < |v.cons|
    ensures var x := AfterWrite(v, k, env);
            && k < |x.cons|
            && (Open(x.cons[k]) ==> x.cons[k].s == v.cons[k].s && x.cons[k].blacklists == v.cons[k].blacklists
                                    && x.cons[k].stutter == v.cons[k].stutter
                                    && (x.cons[k].w == 0 || x.cons[k].w == env.now + x.cons[k].stutter))
  {
    hide Next, ReportOf;
    NextPace(v.cons[k].(w := 0), env);
  }

  lemma WritingPace(v: Server, st: Settings, k: nat, crWritten: bool, written: int, env: Env)
    requires WantsWrite(v, k, env.now) && Open(Writing(v, st, k, crWritten, written, env).cons[k])
    ensures var c, d := v.cons[k], Writing(v, st, k, crWritten, written, env).cons[k];
            && d.s == c.s && d.blacklists == c.blacklists
            && d.stutter == Unstuttered(c, st, env.now).stutter && (d.w == 0 || d.w == env.now + d.stutter)
            && written > 0
  {
    hide Written, AfterWrite;
    var u := Set(v, k, Unstuttered(v.cons[k], st, env.now));
    var x := Written(u, k, crWritten, written);
    WrittenPace(u, k, crWritten, written);
    AfterWriteKeeps(x, k, k, env);
    AfterWritePace(x, k, env);
  }

  lemma PaceStep(v: Server, st: Settings, e: Event, k: nat, n: nat)
    requires n < v.accepted && k < |v.cons| && Holds(Step(v, st, e).cons, k, n)
    ensures Holds(v.cons, k, n)
    ensures var c, d := v.cons[k], Step(v, st, e).cons[k];
            && d.s == c.s && d.blacklists == c.blacklists
            && (d.stutter == c.stutter || (d.stutter == 0 && Released(c, st, e)))
            && (Writes(v, e, k) ==> e.written > 0 && (d.w == 0 || d.w == e.env.now + d.stutter))
            && (!Writes(v, e, k) ==> d.w == c.w || (e.Readable? && e.i == k && d.w == e.env.now + d.stutter))
  {
    StepKeeps(v, st, e, k, n);
    hide Reading, Writing, Accepting, CloseCon, TimedOut;
    if !IsAbout(e, k) {
      OthersIdle(v, st, e, k);
    } else {
      match e
      case Readable(i, input, env) => if WantsRead(v, i) { ReadingPace(v, k, input, env); }
      case Writable(i, crWritten, written, env) =>
        if WantsWrite(v, i, env.now) { WritingPace(v, st, k, crWritten, written, env); }
      case _ => ClosedFree(v, k);
    }
  }

  // ---------------------------------------------------------------- over a run

  /** The times at which the server wrote to slot `k`. */
  function WriteTimes(v: Server, st: Settings, es: seq<Event>, k: nat): seq<int> {
    if es == [] then [] else
    var m := |es| - 1;
    WriteTimes(v, st, es[..m], k) + if Writes(RunFrom(v, st, es[..m]), es[m], k) then [es[m].env.now] else []
  }

  /** How many characters went out. */
  function CharsSent(v: Server, st: Settings, es: seq<Event>, k: nat): int {
    if es == [] then 0 else
    var m := |es| - 1;
    CharsSent(v, st, es[..m], k) + if Writes(RunFrom(v, st, es[..m]), es[m], k) then es[m].written else 0
  }

  predicate IsTimed(e: Event, k: nat) {
    (e.Readable? || e.Writable?) && e.i == k
  }

  function Time(e: Event, k: nat): int
    requires IsTimed(e, k)
  {
    e.env.now
  }

  /** The clock runs forward where slot `k` reads and writes. */
  ghost predicate ClockForward(es: seq<Event>, k: nat) {
    forall i, j :: 0 <= i <= j < |es| && IsTimed(es[i], k) && IsTimed(es[j], k) ==> Time(es[i], k) <= Time(es[j], k)
  }

  ghost predicate Spaced(ts: seq<int>, stutter: int) {
    forall i, j :: 0 <= i < j < |ts| && j == i + 1 ==> ts[i] + stutter <= ts[j]
  }

  /** Between the writes to a connection at least its stutter passes, as long as it has it. */
  lemma {:induction false} PaceKept(v: Server, st: Settings, es: seq<Event>, k: nat, n: nat, stutter: int)
    requires n < v.accepted && k < |v.cons| && stutter > 0 && ClockForward(es, k)
    requires Holds(RunFrom(v, st, es).cons, k, n) && RunFrom(v, st, es).cons[k].stutter == stutter
    ensures Holds(v.cons, k, n) && v.cons[k].stutter == stutter
    ensures var ts, w := WriteTimes(v, st, es, k), RunFrom(v, st, es).cons[k].w;
            && Spaced(ts, stutter)
            && (ts != [] ==> w == 0 || ts[|ts| - 1] + stutter <= w)
            && (ts != [] ==> exists i :: 0 <= i < |es| && IsTimed(es[i], k) && ts[|ts| - 1] == Time(es[i], k))
    decreases |es|
  {
    hide Step, Writes;
    if es != [] {
      var m := |es| - 1;
      var u, e := RunFrom(v, st, es[..m]), es[m];
      RunKeeps(v, st, es[..m], k, n);
      PaceStep(u, st, e, k, n);
      PaceKept(v, st, es[..m], k, n, stutter);
      var ts := WriteTimes(v, st, es[..m], k);
      if ts != [] {
        var i :| 0 <= i < m && IsTimed(es[i], k) && ts[|ts| - 1] == Time(es[i], k);
        assert IsTimed(e, k) ==> Time(es[i], k) <= Time(e, k);
      }
      if Writes(u, e, k) {
        WritesMeans(u, e, k);
        assert IsTimed(es[m], k) && Time(es[m], k) == e.env.now;
      }
    }
  }

  lemma WritesMeans(v: Server, e: Event, k: nat)
    requires Writes(v, e, k)
    ensures IsTimed(e, k) && k < |v.cons| && v.cons[k].w != 0 && v.cons[k].w <= e.env.now
  {
  }

  lemma {:induction false} GapsAddUp(ts: seq<int>, stutter: int, j: nat)
    requires Spaced(ts, stutter) && j < |ts|
    ensures ts[0] + j * stutter <= ts[j]
  {
    if j > 0 {
      GapsAddUp(ts, stutter, j - 1);
      assert j * stutter == (j - 1) * stutter + stutter;
    }
  }

  predicate AtMostOne(v: Server, e: Event, k: nat) {
    Writes(v, e, k) ==> e.written <= 1
  }

  /** Every write takes one character at most. */
  ghost predicate OneByOne(v: Server, st: Settings, es: seq<Event>, k: nat) {
    forall m :: 0 <= m < |es| ==> AtMostOne(RunFrom(v, st, es[..m]), es[m], k)
  }

  /** That is so for a connection with a stutter while the server has few clients. */
  lemma FewClientsOneByOne(v: Server, st: Settings, es: seq<Event>, k: nat)
    requires forall m :: 0 <= m < |es| ==>
               var u := RunFrom(v, st, es[..m]);
               && Promised(u, st, es[m]) && u.clients + CLIENT_TOLERANCE < |u.cons|
               && (Writes(u, es[m], k) ==> Unstuttered(u.cons[k], st, es[m].env.now).stutter != 0)
    ensures OneByOne(v, st, es, k)
  {
    hide RunFrom, Unstuttered;
  }

  lemma {:induction false} SentOneByOne(v: Server, st: Settings, es: seq<Event>, k: nat)
    requires OneByOne(v, st, es, k)
    ensures CharsSent(v, st, es, k) <= |WriteTimes(v, st, es, k)|
  {
    hide RunFrom;
    if es != [] {
      var m := |es| - 1;
      var before := es[..m];
      assert AtMostOne(RunFrom(v, st, es[..m]), es[m], k);
      forall j | 0 <= j < |before| ensures AtMostOne(RunFrom(v, st, before[..j]), before[j], k) {
        assert before[..j] == es[..j] && before[j] == es[j];
      }
      SentOneByOne(v, st, es[..m], k);
    }
  }

  lemma FewerTakeLess(a: int, b: int, stutter: int)
    requires a <= b && stutter > 0
    ensures a * stutter <= b * stutter
  {
  }

  /** So the characters sent to a connection that keeps its stutter take that many seconds each, but for the first. */
  lemma SlowlySent(v: Server, st: Settings, es: seq<Event>, k: nat, n: nat, stutter: int)
    requires n < v.accepted && k < |v.cons| && stutter > 0 && ClockForward(es, k) && OneByOne(v, st, es, k)
    requires Holds(RunFrom(v, st, es).cons, k, n) && RunFrom(v, st, es).cons[k].stutter == stutter
    ensures var ts := WriteTimes(v, st, es, k);
            ts != [] ==> (CharsSent(v, st, es, k) - 1) * stutter <= ts[|ts| - 1] - ts[0]
  {
    hide RunFrom, OneByOne, Spaced, ClockForward, CharsSent, WriteTimes;
    var ts := WriteTimes(v, st, es, k);
    PaceKept(v, st, es, k, n, stutter);
    SentOneByOne(v, st, es, k);
    if ts != [] {
      GapsAddUp(ts, stutter, |ts| - 1);
      FewerTakeLess(CharsSent(v, st, es, k) - 1, |ts| - 1, stutter);
    }
  }

  /** A client on a blacklist keeps its pace as long as it is connected. */
  lemma {:induction false} BlacklistedKeepsPace(v: Server, st: Settings, es: seq<Event>, k: nat, n: nat)
    requires n < v.accepted && k < |v.cons| && Holds(RunFrom(v, st, es).cons, k, n)
    ensures Holds(v.cons, k, n) && RunFrom(v, st, es).cons[k].blacklists == v.cons[k].blacklists
    ensures v.cons[k].blacklists != [] ==> RunFrom(v, st, es).cons[k].stutter == v.cons[k].stutter
  {
    hide Step, Released;
    if es != [] {
      var m := |es| - 1;
      var u := RunFrom(v, st, es[..m]);
      RunKeeps(v, st, es[..m], k, n);
      PaceStep(u, st, es[m], k, n);
      BlacklistedKeepsPace(v, st, es[..m], k, n);
      ReleasedMeans(u.cons[k], st, es[m]);
    }
  }

  lemma ReleasedMeans(c: Con, st: Settings, e: Event)
    ensures Released(c, st, e) ==> c.blacklists == [] && st.greylist && e.Writable? && e.env.now - c.s > st.greyStutter
  {
  }

  /** The pace that a client starts with: none if greylisted clients are not to wait, whether it is one of them or not,
      or if it is one blacklisted client too many; else the stutter of the server. */
  lemma FirstPace(v: Server, st: Settings, e: Event)
    requires e.Accept? && FirstFree(v.cons) < |v.cons|
    ensures var k := FirstFree(v.cons);
            var tooMany := e.blacklists != [] && st.greylist && v.blackClients + 1 > st.maxBlack;
            && k < |Step(v, st, e).cons|
            && Step(v, st, e).cons[k].stutter
               == (if (st.greylist && st.greyStutter == 0) || tooMany then 0 else st.stutter)
            && Step(v, st, e).cons[k].s == e.env.now
  {
    hide FirstFree, Next, ReportOf;
    var k := FirstFree(v.cons);
    var black := v.blackClients + if e.blacklists != [] then 1 else 0;
    NextPace(FreshCon(st, e.fd, v.accepted, e.src, e.blacklists, black, e.env.now), e.env);
  }

  /** A greylisted client that the server writes to when it has waited long enough is not slowed down any more. */
  lemma LateWriteReleases(v: Server, st: Settings, e: Event, k: nat, n: nat)
    requires n < v.accepted && Writes(v, e, k) && Released(v.cons[k], st, e) && Holds(Step(v, st, e).cons, k, n)
    ensures Step(v, st, e).cons[k].stutter == 0
  {
    hide Writing, Accepting;
    WritingPace(v, st, k, e.crWritten, e.written, e.env);
  }

  // ---------------------------------------------------------------- losing clients

  /** The client in slot `k` hangs up, or its end is found by a read or a write. */
  predicate Loses(v: Server, e: Event, k: nat) {
    || (e == Hangup(k) && k < |v.cons|)
    || (e.Readable? && e.i == k && !e.input.Got? && WantsRead(v, k))
    || (Writes(v, e, k) && e.written <= 0)
  }

  /** Its slot is then free. */
  lemma LostFreesSlot(v: Server, st: Settings, e: Event, k: nat)
    requires Loses(v, e, k)
    ensures k < |Step(v, st, e).cons| && !Open(Step(v, st, e).cons[k])
  {
    hide Next, ReportOf, CharAt, Complete, AfterWrite;
    match e
    case Readable(i, input, env) => CompleteKeeps(CloseCon(v, k), k, k, env);
    case Writable(i, crWritten, written, env) =>
      var x := Written(Set(v, k, Unstuttered(v.cons[k], st, env.now)), k, crWritten, written);
      AfterWriteKeeps(x, k, k, env);
    case _ =>
  }

  // ---------------------------------------------------------------- waiting for clients

  /** Neither a read nor a write has been waited for too long. */
  predicate NotLate(c: Con, now: int) {
    Open(c) ==> (c.r == 0 || now < c.r + MAX_TIME) && (c.w == 0 || now < c.w + MAX_TIME)
  }

  function Sweep(m: nat, now: int): seq<Event> {
    if m == 0 then [] else Sweep(m - 1, now) + [Expire(m - 1, now)]
  }

  lemma LateClosed(v: Server, i: nat, now: int)
    requires i < |v.cons|
    ensures TimedOut(v, i, now) <==> !NotLate(v.cons[i], now)
    ensures var v' := CloseCon(v, i);
            && |v'.cons| == |v.cons| && !Open(v'.cons[i]) && forall j :: 0 <= j < |v.cons| && j != i ==>
                 v'.cons[j] == v.cons[j]
  {
  }

  /** The main loop's look at all slots closes exactly those that have waited too long. */
  lemma {:induction false} SweepCloses(v: Server, st: Settings, m: nat, now: int)
    requires m <= |v.cons|
    ensures var v' := RunFrom(v, st, Sweep(m, now));
            && |v'.cons| == |v.cons|
            && (forall i :: 0 <= i < m ==> NotLate(v'.cons[i], now)
                                           && (NotLate(v.cons[i], now) ==> v'.cons[i] == v.cons[i]))
            && (forall i :: m <= i < |v.cons| ==> v'.cons[i] == v.cons[i])
  {
    hide CloseCon, TimedOut;
    if m > 0 {
      SweepCloses(v, st, m - 1, now);
      LateClosed(RunFrom(v, st, Sweep(m - 1, now)), m - 1, now);
      assert Sweep(m, now)[..|Sweep(m, now)| - 1] == Sweep(m - 1, now);
    }
  }
}
