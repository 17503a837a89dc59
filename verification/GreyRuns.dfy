/** Safety over whole runs of the greylister: who gets white, and when a trapped address gets out. */
module GreyRuns {
  import opened Wrappers
  import opened Grey
  import opened GreyScans

  /** A grey message, of which `trap` tells whether its recipient counted as trapped; a trap or white message
      (`trap` tells which); a scan. */
  datatype Event =
    | GreySeen(now: int, tuple: Tuple, trap: bool, sync: bool, dstIp: string)
    | Reported(now: int, trap: bool, ip: string, expires: Option<int>, delete: bool)
    | Scanned(now: int, order: seq<Key>)

  datatype Setup = Setup(cfg: Config, resolves: string -> bool)

  function Step(su: Setup, t: Table, e: Event): Table {
    match e
    case GreySeen(now, tuple, trap, sync, dstIp) => AfterGrey(su.cfg, t, tuple, trap, sync, dstIp, now)
    case Reported(now, trap, ip, expires, delete) => AfterNonGrey(t, trap, ip, expires, delete, now)
    case Scanned(now, order) => VisitAll(t, order, now, su.cfg.whiteExp, su.resolves).table
  }

  /** The table after a run that starts from nothing. */
  function Run(su: Setup, evs: seq<Event>): Table {
    if evs == [] then map[] else Step(su, Run(su, evs[..|evs| - 1]), evs[|evs| - 1])
  }

  // ---------------------------------------------------------------- counts

  lemma {:induction false} ScanKeepsCounts(t: Table, order: seq<Key>, now: int, whiteExp: int, resolves: string -> bool)
    requires Counted(t)
    ensures Counted(VisitAll(t, order, now, whiteExp, resolves).table)
  {
    if order != [] {
      ScanKeepsCounts(t, order[..|order| - 1], now, whiteExp, resolves);
    }
  }

  lemma {:induction false} RunCounted(su: Setup, evs: seq<Event>)
    ensures Counted(Run(su, evs))
  {
    if evs != [] {
      var t, e := Run(su, evs[..|evs| - 1]), evs[|evs| - 1];
      RunCounted(su, evs[..|evs| - 1]);
      if e.Scanned? {
        ScanKeepsCounts(t, e.order, e.now, su.cfg.whiteExp, su.resolves);
      }
    }
  }

  // ---------------------------------------------------------------- whitening

  /** The tuple was attempted, by a recipient that was not trapped, at time `now`. */
  predicate Attempt(e: Event, u: Tuple, now: int) {
    e.GreySeen? && !e.trap && e.tuple == u && e.now == now
  }

  ghost predicate FirstAttempt(evs: seq<Event>, a: int, u: Tuple, d: Data, greyExp: int) {
    0 <= a < |evs| && Attempt(evs[a], u, d.first) && d.expire == d.first + greyExp && d.pcount == 0
  }

  ghost predicate RetryOf(evs: seq<Event>, a: int, b: int, u: Tuple, d: Data, passTime: int) {
    0 <= a < b < |evs| && Attempt(evs[b], u, d.pass) && d.first + passTime < d.pass
  }

  /** Where a tuple's entry comes from: an attempt, and a later one if its pass time was brought forward. */
  ghost predicate Recorded(cfg: Config, evs: seq<Event>, u: Tuple, d: Data) {
    exists a :: FirstAttempt(evs, a, u, d, cfg.greyExp)
      && (d.pass == d.expire || exists b :: RetryOf(evs, a, b, u, d, cfg.passTime))
  }

  lemma RecordedLater(cfg: Config, evs: seq<Event>, e: Event, u: Tuple, d: Data)
    requires Recorded(cfg, evs, u, d)
    ensures Recorded(cfg, evs + [e], u, d)
  {
    var all := evs + [e];
    var a :| FirstAttempt(evs, a, u, d, cfg.greyExp)
      && (d.pass == d.expire || exists b :: RetryOf(evs, a, b, u, d, cfg.passTime));
    assert FirstAttempt(all, a, u, d, cfg.greyExp);
    if d.pass != d.expire {
      var b :| RetryOf(evs, a, b, u, d, cfg.passTime);
      assert RetryOf(all, a, b, u, d, cfg.passTime);
    }
  }

  lemma RecordedByAttempt(cfg: Config, evs: seq<Event>, e: Event, t: Table)
    requires e.GreySeen? && !e.trap && Key.Grey(e.tuple) in AfterGrey(cfg, t, e.tuple, e.trap, e.sync, e.dstIp, e.now)
    requires Key.Grey(e.tuple) in t ==> Recorded(cfg, evs, e.tuple, t[Key.Grey(e.tuple)])
    ensures Recorded(cfg, evs + [e], e.tuple,
                     AfterGrey(cfg, t, e.tuple, e.trap, e.sync, e.dstIp, e.now)[Key.Grey(e.tuple)])
  {
    var all, k, u := evs + [e], Key.Grey(e.tuple), e.tuple;
    var d' := AfterGrey(cfg, t, u, e.trap, e.sync, e.dstIp, e.now)[k];
    if k in t {
      var d := t[k];
      RecordedLater(cfg, evs, e, u, d);
      var a :| FirstAttempt(all, a, u, d, cfg.greyExp) && a < |evs|
        && (d.pass == d.expire || exists b :: RetryOf(all, a, b, u, d, cfg.passTime)) by {
        var a :| FirstAttempt(evs, a, u, d, cfg.greyExp)
          && (d.pass == d.expire || exists b :: RetryOf(evs, a, b, u, d, cfg.passTime));
        assert FirstAttempt(all, a, u, d, cfg.greyExp);
        if d.pass != d.expire {
          var b :| RetryOf(evs, a, b, u, d, cfg.passTime);
          assert RetryOf(all, a, b, u, d, cfg.passTime);
        }
      }
      assert FirstAttempt(all, a, u, d', cfg.greyExp);
      if d'.pass != d.pass {
        assert RetryOf(all, a, |evs|, u, d', cfg.passTime);
      } else if d.pass != d.expire {
        var b :| RetryOf(all, a, b, u, d, cfg.passTime);
        assert RetryOf(all, a, b, u, d', cfg.passTime);
      }
    } else {
      assert FirstAttempt(all, |evs|, u, d', cfg.greyExp);
    }
  }

  lemma {:induction false} ScanKeepsTuples(t: Table, order: seq<Key>, now: int, whiteExp: int,
      resolves: string -> bool, u: Tuple)
    requires Key.Grey(u) in VisitAll(t, order, now, whiteExp, resolves).table
    ensures Key.Grey(u) in t && VisitAll(t, order, now, whiteExp, resolves).table[Key.Grey(u)] == t[Key.Grey(u)]
  {
    if order != [] {
      ScanKeepsTuples(t, order[..|order| - 1], now, whiteExp, resolves, u);
    }
  }

  lemma {:induction false} TuplesRecorded(su: Setup, evs: seq<Event>, u: Tuple)
    requires Key.Grey(u) in Run(su, evs)
    ensures Recorded(su.cfg, evs, u, Run(su, evs)[Key.Grey(u)])
  {
    hide Recorded;
    if evs != [] {
      var n := |evs| - 1;
      var before, e := evs[..n], evs[n];
      var t := Run(su, before);
      assert evs == before + [e];
      if e.Scanned? {
        ScanKeepsTuples(t, e.order, e.now, su.cfg.whiteExp, su.resolves, u);
      }
      if Key.Grey(u) in t {
        TuplesRecorded(su, before, u);
        RecordedLater(su.cfg, before, e, u, t[Key.Grey(u)]);
      }
      if e.GreySeen? && !e.trap && e.tuple == u {
        RecordedByAttempt(su.cfg, before, e, t);
      }
    }
  }

  /** The same tuple was attempted at some t0 and again at some t1 with t0 + passTime < t1 < t0 + greyExp. */
  ghost predicate RetriedInTime(cfg: Config, evs: seq<Event>, a: int, b: int, u: Tuple) {
    && 0 <= a < b < |evs| && evs[a].GreySeen? && evs[b].GreySeen?
    && Attempt(evs[a], u, evs[a].now) && Attempt(evs[b], u, evs[b].now)
    && evs[a].now + cfg.passTime < evs[b].now < evs[a].now + cfg.greyExp
  }

  ghost predicate SomeRetried(cfg: Config, evs: seq<Event>, u: Tuple, now: int) {
    exists a, b :: RetriedInTime(cfg, evs, a, b, u) && evs[b].now <= now
  }

  /** After any run, a tuple whose pass time has come was retried in time, and the retry is not after that time. */
  lemma PassingWasRetried(su: Setup, evs: seq<Event>, u: Tuple, now: int)
    requires Passing(Run(su, evs), Key.Grey(u), u.ip, now)
    ensures SomeRetried(su.cfg, evs, u, now)
  {
    var d := Run(su, evs)[Key.Grey(u)];
    TuplesRecorded(su, evs, u);
    var a :| FirstAttempt(evs, a, u, d, su.cfg.greyExp)
      && (d.pass == d.expire || exists b :: RetryOf(evs, a, b, u, d, su.cfg.passTime));
    var b :| RetryOf(evs, a, b, u, d, su.cfg.passTime);
    assert RetriedInTime(su.cfg, evs, a, b, u);
  }

  /** After any run, an address that a scan lists as white or leaves with a white entry either had a white entry
      before, or one of its tuples was attempted, retried in time, and the retry was not after the scan. No clock
      is assumed to run forward. */
  lemma WhiteOnlyAfterRetry(su: Setup, evs: seq<Event>, order: seq<Key>, now: int, x: string)
    requires Distinct(order)
    ensures var s := VisitAll(Run(su, evs), order, now, su.cfg.whiteExp, su.resolves);
            InWhite(s, x) || (Ip(x) in s.table && s.table[Ip(x)].pcount >= 0) ==>
              || (Ip(x) in Run(su, evs) && Run(su, evs)[Ip(x)].pcount >= 0)
              || exists u: Tuple :: u.ip == x && SomeRetried(su.cfg, evs, u, now)
  {
    var t := Run(su, evs);
    RunCounted(su, evs);
    ScanTracks(t, order, x, now, su.cfg.whiteExp, su.resolves);
    if Promoted(t, order, x, now) {
      var j :| 0 <= j < |order| && Passing(t, order[j], x, now) && !Blocked(t, order, j, x, now);
      PassingWasRetried(su, evs, order[j].tuple, now);
    }
  }

  lemma {:induction false} RemovedWasPassing(t: Table, order: seq<Key>, u: Tuple, now: int, whiteExp: int,
      resolves: string -> bool)
    requires Live(t, Key.Grey(u), now) && Key.Grey(u) !in VisitAll(t, order, now, whiteExp, resolves).table
    ensures Passing(t, Key.Grey(u), u.ip, now)
  {
    if order != [] {
      var o := order[..|order| - 1];
      if Key.Grey(u) in VisitAll(t, o, now, whiteExp, resolves).table {
        ScanKeepsTuples(t, o, now, whiteExp, resolves, u);
      } else {
        RemovedWasPassing(t, o, u, now, whiteExp, resolves);
      }
    }
  }

  /** The very tuple that a scan takes for an address, removing it before it expires, was retried in time. */
  lemma TurnedWasRetried(su: Setup, evs: seq<Event>, order: seq<Key>, now: int, u: Tuple)
    requires Live(Run(su, evs), Key.Grey(u), now)
    requires Key.Grey(u) !in VisitAll(Run(su, evs), order, now, su.cfg.whiteExp, su.resolves).table
    ensures SomeRetried(su.cfg, evs, u, now)
  {
    RemovedWasPassing(Run(su, evs), order, u, now, su.cfg.whiteExp, su.resolves);
    PassingWasRetried(su, evs, u, now);
  }

  /** No white message for `x`; scans come by no row twice. */
  ghost predicate NoWhiteMessage(evs: seq<Event>, x: string) {
    forall m :: 0 <= m < |evs| ==>
      && (evs[m].Reported? && evs[m].ip == x ==> evs[m].trap || evs[m].delete)
      && (evs[m].Scanned? ==> Distinct(evs[m].order))
  }

  ghost predicate AddressRetried(cfg: Config, evs: seq<Event>, x: string) {
    exists u: Tuple, a, b :: u.ip == x && RetriedInTime(cfg, evs, a, b, u)
  }

  ghost predicate WhiteRow(t: Table, x: string) {
    Ip(x) in t && t[Ip(x)].pcount >= 0
  }

  lemma RetriedLater(cfg: Config, evs: seq<Event>, e: Event, x: string)
    requires AddressRetried(cfg, evs, x)
    ensures AddressRetried(cfg, evs + [e], x)
  {
    var u: Tuple, a, b :| u.ip == x && RetriedInTime(cfg, evs, a, b, u);
    assert RetriedInTime(cfg, evs + [e], a, b, u);
  }

  /** In every run without white messages for `x`, `x` has a white row only after one of its tuples was attempted and
      retried in time. */
  lemma {:induction false} WhiteRowOnlyAfterRetry(su: Setup, evs: seq<Event>, x: string)
    requires NoWhiteMessage(evs, x) && WhiteRow(Run(su, evs), x)
    ensures AddressRetried(su.cfg, evs, x)
  {
    var before, e := evs[..|evs| - 1], evs[|evs| - 1];
    assert evs == before + [e];
    if WhiteRow(Run(su, before), x) {
      WhiteRowOnlyAfterRetry(su, before, x);
      RetriedLater(su.cfg, before, e, x);
    } else {
      NewWhiteRow(su, Run(su, before), e, x);
      WhiteOnlyAfterRetry(su, before, e.order, e.now, x);
      assert AddressRetried(su.cfg, before, x);
      RetriedLater(su.cfg, before, e, x);
    }
  }

  /** Without a white message only a scan makes a white row. */
  lemma NewWhiteRow(su: Setup, t: Table, e: Event, x: string)
    requires !WhiteRow(t, x) && WhiteRow(Step(su, t, e), x)
    ensures e.Scanned? || (e.Reported? && e.ip == x && !e.trap && !e.delete)
  {
  }

  /** ... and a scan lists `x` as white only then. */
  lemma ListedOnlyAfterRetry(su: Setup, evs: seq<Event>, order: seq<Key>, now: int, x: string)
    requires NoWhiteMessage(evs, x) && Distinct(order)
    requires InWhite(VisitAll(Run(su, evs), order, now, su.cfg.whiteExp, su.resolves), x)
    ensures AddressRetried(su.cfg, evs, x)
  {
    WhiteOnlyAfterRetry(su, evs, order, now, x);
    if WhiteRow(Run(su, evs), x) {
      WhiteRowOnlyAfterRetry(su, evs, x);
    }
  }

  /** Conversely a retry in time makes the next scan list the address, unless it is trapped. */
  lemma RetryMakesWhite(su: Setup, t: Table, u: Tuple, sync: bool, dstIp: string, t1: int, order: seq<Key>, now: int)
    requires Counted(t) && Key.Grey(u) in t && !TrapRow(t, u.ip)
    requires t[Key.Grey(u)].first + su.cfg.passTime < t1 <= now < t[Key.Grey(u)].expire
    requires CursorOrder(AfterGrey(su.cfg, t, u, false, sync, dstIp, t1), order)
    ensures var t' := AfterGrey(su.cfg, t, u, false, sync, dstIp, t1);
            InWhite(VisitAll(t', order, now, su.cfg.whiteExp, su.resolves), u.ip)
  {
    var t' := AfterGrey(su.cfg, t, u, false, sync, dstIp, t1);
    ScanTracks(t', order, u.ip, now, su.cfg.whiteExp, su.resolves);
    var j :| 0 <= j < |order| && order[j] == Key.Grey(u);
    assert Passing(t', order[j], u.ip, now) && !Blocked(t', order, j, u.ip, now);
  }

  // ---------------------------------------------------------------- trapping

  /** What releases a trapped address: a scan that finds its entry expired, a deletion, and a white message, which
      counts the entry up from -1 to 0. */
  ghost predicate Releases(t: Table, e: Event, x: string)
    requires Ip(x) in t
  {
    match e
    case GreySeen(_, _, _, _, _) => false
    case Reported(_, trap, ip, expires, delete) => ip == x && (delete || (!trap && expires.Some? && expires.value != 0))
    case Scanned(now, _) => t[Ip(x)].expire <= now
  }

  ghost predicate ValidEvent(t: Table, e: Event) {
    e.Scanned? ==> CursorOrder(t, e.order)
  }

  /** A trapped address leaves the trapped state exactly by these events. */
  lemma TrapReleasedIff(su: Setup, t: Table, e: Event, x: string)
    requires Counted(t) && ValidEvent(t, e) && TrapRow(t, x)
    ensures !TrapRow(Step(su, t, e), x) <==> Releases(t, e, x)
  {
    if e.Scanned? {
      ScanTracks(t, e.order, x, e.now, su.cfg.whiteExp, su.resolves);
      assert e.order[..|e.order|] == e.order;
    }
  }

  ghost predicate ValidRun(su: Setup, evs: seq<Event>) {
    forall n :: 0 <= n < |evs| ==> ValidEvent(Run(su, evs[..n]), evs[n])
  }

  /** No deletion and no white message for `x` from event `n` on. */
  ghost predicate OnlyTrapsAndScans(evs: seq<Event>, n: nat, x: string) {
    forall m :: n <= m < |evs| && evs[m].Reported? && evs[m].ip == x ==> evs[m].trap && !evs[m].delete
  }

  ghost predicate ExpiredScan(su: Setup, evs: seq<Event>, m: int, x: string) {
    && 0 <= m < |evs| && evs[m].Scanned? && TrapRow(Run(su, evs[..m]), x)
    && Run(su, evs[..m])[Ip(x)].expire <= evs[m].now
  }

  lemma ScanReleases(su: Setup, evs: seq<Event>, n: nat, k: nat, x: string)
    requires ValidRun(su, evs) && n <= k < |evs| && OnlyTrapsAndScans(evs, n, x)
    requires TrapRow(Run(su, evs[..k]), x) && !TrapRow(Run(su, evs[..k + 1]), x)
    ensures ExpiredScan(su, evs, k, x)
  {
    hide Step, TrapRow, Counted;
    assert evs[..k + 1][..k] == evs[..k];
    RunCounted(su, evs[..k]);
    TrapReleasedIff(su, Run(su, evs[..k]), evs[k], x);
  }

  lemma {:induction false} TrapEndsWithin(su: Setup, evs: seq<Event>, n: nat, k: nat, x: string)
    requires ValidRun(su, evs) && n <= k <= |evs| && OnlyTrapsAndScans(evs, n, x)
    requires TrapRow(Run(su, evs[..n]), x) && !TrapRow(Run(su, evs[..k]), x)
    ensures exists m :: n <= m && ExpiredScan(su, evs, m, x)
    decreases k
  {
    hide Step, Run, TrapRow, ValidRun, OnlyTrapsAndScans, ExpiredScan;
    if TrapRow(Run(su, evs[..k - 1]), x) {
      ScanReleases(su, evs, n, k - 1, x);
    } else {
      TrapEndsWithin(su, evs, n, k - 1, x);
    }
  }

  /** In every run of grey messages, trap messages and scans a trapped address gets out only through a scan that finds
      the expiry of its entry passed. */
  lemma TrapEndsByExpiredScan(su: Setup, evs: seq<Event>, n: nat, x: string)
    requires ValidRun(su, evs) && n <= |evs| && OnlyTrapsAndScans(evs, n, x)
    requires TrapRow(Run(su, evs[..n]), x) && !TrapRow(Run(su, evs), x)
    ensures exists m :: n <= m && ExpiredScan(su, evs, m, x)
  {
    assert evs[..|evs|] == evs;
    TrapEndsWithin(su, evs, n, |evs|, x);
  }

  // ---------------------------------------------------------------- runs on whose tables the two scans differ

  /** A trap message and then a white one: a white row whose pass time is the trap's expiry. */
  lemma ReachesEarlyWhite(su: Setup, x: string, n0: int, n1: int, expires: int, white: int, now: int)
    requires now < expires && expires != 0 && white != 0
    ensures EarlyWhite(Run(su, [Reported(n0, true, x, Some(expires), false),
                                Reported(n1, false, x, Some(white), false)]), x, now)
  {
    var evs := [Reported(n0, true, x, Some(expires), false), Reported(n1, false, x, Some(white), false)];
    assert evs[..1] == [evs[0]] && evs[..1][..0] == [];
    assert Run(su, evs[..1]) == map[Ip(x) := Data(n0, expires, expires, 0, -1)];
    assert Run(su, evs) == map[Ip(x) := Data(n0, expires, expires, 0, 0)];
  }

  /** The table after a tuple was attempted, and retried when its pass time was over. */
  lemma RetriedTuple(su: Setup, t: Table, u: Tuple, t0: int, t1: int)
    requires Key.Grey(u) !in t && t0 + su.cfg.passTime < t1
    ensures Step(su, Step(su, t, GreySeen(t0, u, false, false, "")), GreySeen(t1, u, false, false, "")) ==
            t[Key.Grey(u) := Data(t0, t1, t0 + su.cfg.greyExp, 2, 0)]
  {
  }

  /** A trap message and then a tuple of the address, attempted and retried, with the trap expired at the scan. */
  lemma ReachesStaleTrap(su: Setup, u: Tuple, n0: int, expires: int, t0: int, t1: int, now: int)
    requires t0 + su.cfg.passTime < t1 <= now < t0 + su.cfg.greyExp && expires <= now && expires != 0
    ensures StaleTrap(Run(su, [Reported(n0, true, u.ip, Some(expires), false),
                               GreySeen(t0, u, false, false, ""), GreySeen(t1, u, false, false, "")]), u.ip, now)
  {
    var evs := [Reported(n0, true, u.ip, Some(expires), false), GreySeen(t0, u, false, false, ""),
                GreySeen(t1, u, false, false, "")];
    assert evs[..2] == [evs[0], evs[1]] && evs[..2][..1] == [evs[0]] && evs[..2][..1][..0] == [];
    var t := map[Ip(u.ip) := Data(n0, expires, expires, 0, -1)];
    assert Run(su, evs[..2][..1]) == t;
    RetriedTuple(su, t, u, t0, t1);
    assert Run(su, evs) == t[Key.Grey(u) := Data(t0, t1, t0 + su.cfg.greyExp, 2, 0)];
    assert Passing(Run(su, evs), Key.Grey(u), u.ip, now);
  }

  /** A tuple without sender, attempted and retried. */
  lemma ReachesHalfNamed(su: Setup, u: Tuple, t0: int, t1: int, now: int)
    requires t0 + su.cfg.passTime < t1 <= now < t0 + su.cfg.greyExp && u.from == "" && u.to != ""
    ensures HalfNamed(Run(su, [GreySeen(t0, u, false, false, ""), GreySeen(t1, u, false, false, "")]), u.ip, now)
  {
    var evs := [GreySeen(t0, u, false, false, ""), GreySeen(t1, u, false, false, "")];
    assert evs[..1] == [evs[0]] && evs[..1][..0] == [];
    var t: Table := map[];
    assert Run(su, evs[..1]) == Step(su, t, evs[0]);
    RetriedTuple(su, t, u, t0, t1);
    assert Run(su, evs) == t[Key.Grey(u) := Data(t0, t1, t0 + su.cfg.greyExp, 2, 0)];
    assert Passing(Run(su, evs), Key.Grey(u), u.ip, now);
  }

  /** A tuple without sender and recipient, attempted once. */
  lemma ReachesBareListed(su: Setup, u: Tuple, t0: int, now: int)
    requires now < t0 + su.cfg.greyExp && u.from == u.to == ""
    ensures BareListed(Run(su, [GreySeen(t0, u, false, false, "")]), u.ip, now)
  {
    var evs := [GreySeen(t0, u, false, false, "")];
    assert evs[..0] == [];
    assert Run(su, evs) == map[Key.Grey(u) := Data(t0, t0 + su.cfg.greyExp, t0 + su.cfg.greyExp, 1, 0)];
    assert Bare(Run(su, evs), Key.Grey(u), u.ip, now);
  }
}
