/** How long addresses stay white or trapped in whole runs, and how often tuples were attempted. */
module GreyTerms {
  import opened Wrappers
  import opened Fold
  import opened Grey
  import opened GreyScans
  import opened GreyRows
  import opened GreyRuns

  /** From event `n` on the clock starts at `start` and runs forward. */
  ghost predicate Clock(evs: seq<Event>, n: nat, start: int) {
    forall i, j :: n <= i <= j < |evs| ==> start <= evs[i].now <= evs[j].now
  }

  // ---------------------------------------------------------------- white addresses

  /** A white row that a scan at `m` or later lists, up to `until`. */
  ghost predicate WhiteUntil(t: Table, x: string, m: int, until: int) {
    WhiteRow(t, x) && t[Ip(x)].pass <= m && until <= t[Ip(x)].expire
  }

  /** Nothing but scans, attempts that are not trapped and white messages concerns address `x`. */
  ghost predicate KeepsWhite(cfg: Config, e: Event, x: string) {
    match e
    case GreySeen(now, tuple, trap, sync, dstIp) => tuple.ip == x ==> !trap && !SkippedPrimary(cfg, sync, dstIp, now)
    case Reported(_, trap, ip, _, delete) => ip == x ==> !trap && !delete
    case Scanned(_, _) => true
  }

  lemma WhiteStep(su: Setup, t: Table, e: Event, x: string, m: int, until: int)
    requires Counted(t) && ValidEvent(t, e) && KeepsWhite(su.cfg, e, x)
    requires e.Scanned? ==> m == e.now < until <= e.now + su.cfg.whiteExp
    requires WhiteUntil(t, x, m, until)
    ensures WhiteUntil(Step(su, t, e), x, m, until)
  {
    if e.Scanned? {
      ScanRows(t, e.order, x, e.now, su.cfg.whiteExp, su.resolves);
      hide VisitAll;
    }
  }

  lemma {:induction false} WhiteStays(su: Setup, evs: seq<Event>, n: nat, k: nat, x: string, start: int, m: int,
                                      until: int)
    requires ValidRun(su, evs) && Clock(evs, n, start) && n <= k <= |evs| && start <= m
    requires forall i :: n <= i < k ==> KeepsWhite(su.cfg, evs[i], x) && evs[i].now <= m < until
    requires WhiteUntil(Run(su, evs[..n]), x, start, until) && until <= start + su.cfg.whiteExp
    ensures WhiteUntil(Run(su, evs[..k]), x, m, until)
    decreases k
  {
    hide Step, KeepsWhite, ValidEvent;
    if k > n {
      var e := evs[k - 1];
      assert evs[..k][..k - 1] == evs[..k - 1];
      WhiteStays(su, evs, n, k - 1, x, start, e.now, until);
      RunCounted(su, evs[..k - 1]);
      WhiteStep(su, Run(su, evs[..k - 1]), e, x, e.now, until);
    }
  }

  /** A scan lists a white row. */
  lemma WhiteIsListed(t: Table, order: seq<Key>, x: string, now: int, until: int, whiteExp: int,
                      resolves: string -> bool)
    requires Counted(t) && CursorOrder(t, order) && WhiteUntil(t, x, now, until) && now < until
    ensures InWhite(VisitAll(t, order, now, whiteExp, resolves), x)
  {
    ScanTracks(t, order, x, now, whiteExp, resolves);
  }

  ghost predicate Lists(su: Setup, evs: seq<Event>, k: nat, x: string)
    requires k < |evs| && evs[k].Scanned?
  {
    InWhite(VisitAll(Run(su, evs[..k]), evs[k].order, evs[k].now, su.cfg.whiteExp, su.resolves), x)
  }

  /** Scans, attempts that are not trapped and white messages leave a white address listed until it expires. */
  lemma WhiteIsListedUntil(su: Setup, evs: seq<Event>, n: nat, k: nat, x: string, start: int, until: int)
    requires ValidRun(su, evs) && Clock(evs, n, start) && n <= k < |evs| && evs[k].Scanned? && evs[k].now < until
    requires forall i :: n <= i < k ==> KeepsWhite(su.cfg, evs[i], x)
    requires WhiteUntil(Run(su, evs[..n]), x, start, until) && until <= start + su.cfg.whiteExp
    ensures Lists(su, evs, k, x)
  {
    hide VisitAll, KeepsWhite, Run, WhiteUntil, Counted;
    WhiteStays(su, evs, n, k, x, start, evs[k].now, until);
    RunCounted(su, evs[..k]);
    WhiteIsListed(Run(su, evs[..k]), evs[k].order, x, evs[k].now, until, su.cfg.whiteExp, su.resolves);
  }

  /** A host that a scan at time `s` makes white is listed by every scan before `s` and the white expiry. */
  lemma WhitenedIsListed(su: Setup, evs: seq<Event>, n: nat, k: nat, x: string)
    requires ValidRun(su, evs) && n < k < |evs| && evs[n].Scanned? && evs[k].Scanned? && su.cfg.whiteExp > 0
    requires Promoted(Run(su, evs[..n]), evs[n].order, x, evs[n].now)
    requires Clock(evs, n + 1, evs[n].now) && evs[k].now < evs[n].now + su.cfg.whiteExp
    requires forall i :: n < i < k ==> KeepsWhite(su.cfg, evs[i], x)
    ensures Lists(su, evs, k, x)
  {
    var t, e := Run(su, evs[..n]), evs[n];
    assert evs[..n + 1][..n] == evs[..n];
    RunCounted(su, evs[..n]);
    ScanRows(t, e.order, x, e.now, su.cfg.whiteExp, su.resolves);
    hide VisitAll, KeepsWhite, Promoted;
    assert Run(su, evs[..n + 1]) == Step(su, t, e);
    hide Run;
    WhiteIsListedUntil(su, evs, n + 1, k, x, e.now, e.now + su.cfg.whiteExp);
  }

  /** A host that was made white by a message, and not known before, is listed by every scan before the expiry that the
      message gave, or before the white expiry counted from the message if that is sooner. */
  lemma ReportedIsListed(su: Setup, evs: seq<Event>, n: nat, k: nat, x: string)
    requires ValidRun(su, evs) && n < k < |evs| && evs[k].Scanned? && Ip(x) !in Run(su, evs[..n])
    requires evs[n].Reported? && evs[n].ip == x && !evs[n].trap && !evs[n].delete
    requires evs[n].expires.Some? && evs[n].expires.value != 0 && evs[k].now < evs[n].expires.value
    requires Clock(evs, n + 1, evs[n].now) && evs[k].now < evs[n].now + su.cfg.whiteExp
    requires forall i :: n < i < k ==> KeepsWhite(su.cfg, evs[i], x)
    ensures Lists(su, evs, k, x)
  {
    var t, e := Run(su, evs[..n]), evs[n];
    assert evs[..n + 1][..n] == evs[..n];
    hide KeepsWhite;
    assert Run(su, evs[..n + 1]) == Step(su, t, e);
    hide Run;
    var whole := e.now + su.cfg.whiteExp;
    WhiteIsListedUntil(su, evs, n + 1, k, x, e.now, if e.expires.value < whole then e.expires.value else whole);
  }

  // ---------------------------------------------------------------- trapped addresses

  ghost predicate TrapUntil(t: Table, x: string, until: int) {
    TrapRow(t, x) && until <= t[Ip(x)].expire
  }

  /** No white message, no deletion, and no attempt at the low priority server that would trap `x` for less long. */
  ghost predicate KeepsTrap(cfg: Config, e: Event, x: string, until: int) {
    match e
    case GreySeen(now, tuple, trap, sync, dstIp) =>
      tuple.ip == x && SkippedPrimary(cfg, sync, dstIp, now) ==> until <= now + cfg.trapExp
    case Reported(_, trap, ip, _, delete) => ip == x ==> trap && !delete
    case Scanned(_, _) => true
  }

  lemma TrapStep(su: Setup, t: Table, e: Event, x: string, until: int)
    requires Counted(t) && ValidEvent(t, e) && KeepsTrap(su.cfg, e, x, until)
    requires TrapUntil(t, x, until) && (e.Scanned? ==> e.now < until)
    ensures TrapUntil(Step(su, t, e), x, until)
  {
    if e.Scanned? {
      ScanRows(t, e.order, x, e.now, su.cfg.whiteExp, su.resolves);
      hide VisitAll;
    }
  }

  lemma {:induction false} TrapStays(su: Setup, evs: seq<Event>, n: nat, k: nat, x: string, until: int)
    requires ValidRun(su, evs) && n <= k <= |evs|
    requires forall i :: n <= i < k ==> KeepsTrap(su.cfg, evs[i], x, until) && evs[i].now < until
    requires TrapUntil(Run(su, evs[..n]), x, until)
    ensures TrapUntil(Run(su, evs[..k]), x, until)
    decreases k
  {
    hide Step, KeepsTrap, ValidEvent;
    if k > n {
      assert evs[..k][..k - 1] == evs[..k - 1];
      TrapStays(su, evs, n, k - 1, x, until);
      RunCounted(su, evs[..k - 1]);
      TrapStep(su, Run(su, evs[..k - 1]), evs[k - 1], x, until);
    }
  }

  ghost predicate ListsTrapped(su: Setup, evs: seq<Event>, k: nat, x: string)
    requires k < |evs| && evs[k].Scanned?
  {
    x in VisitAll(Run(su, evs[..k]), evs[k].order, evs[k].now, su.cfg.whiteExp, su.resolves).trapped
  }

  lemma TrapIsListedUntil(su: Setup, evs: seq<Event>, n: nat, k: nat, x: string, until: int)
    requires ValidRun(su, evs) && n <= k < |evs| && evs[k].Scanned? && evs[k].now < until
    requires forall i :: n <= i < k ==> KeepsTrap(su.cfg, evs[i], x, until) && evs[i].now < until
    requires TrapUntil(Run(su, evs[..n]), x, until)
    ensures ListsTrapped(su, evs, k, x)
  {
    hide VisitAll, KeepsTrap, Run;
    TrapStays(su, evs, n, k, x, until);
    RunCounted(su, evs[..k]);
    ScanTracks(Run(su, evs[..k]), evs[k].order, x, evs[k].now, su.cfg.whiteExp, su.resolves);
  }

  /** The client of this tuple becomes trapped by it and was not on record as an address, or skipped the primary server
      with a tuple that was not on record. */
  ghost predicate TrapsAnew(cfg: Config, t: Table, u: Tuple, trap: bool, sync: bool, dstIp: string, now: int) {
    if trap then Ip(u.ip) !in t else Key.Grey(u) !in t && SkippedPrimary(cfg, sync, dstIp, now)
  }

  /** Its row then expires after the trap expiry, and that is what other servers are told. */
  lemma NewTrap(cfg: Config, t: Table, u: Tuple, trap: bool, sync: bool, dstIp: string, now: int)
    requires TrapsAnew(cfg, t, u, trap, sync, dstIp, now)
    ensures var t' := AfterGrey(cfg, t, u, trap, sync, dstIp, now);
            && TrapRow(t', u.ip) && t'[Ip(u.ip)].first == now && t'[Ip(u.ip)].expire == now + cfg.trapExp
            && Tells(cfg, t, u, trap, sync, dstIp, now)
               == if cfg.syncing && sync then [ToldTrapped(u.ip, now, t'[Ip(u.ip)].expire)] else []
  {
  }

  /** A trapped attempt by a client on record keeps the expiry of its row, whatever others are told. */
  lemma ToldExpiryIff(cfg: Config, t: Table, u: Tuple, dstIp: string, now: int)
    requires cfg.syncing && Ip(u.ip) in t
    ensures var t' := AfterGrey(cfg, t, u, true, true, dstIp, now);
            && TrapRow(t', u.ip) && t'[Ip(u.ip)].expire == t[Ip(u.ip)].expire
            && (Tells(cfg, t, u, true, true, dstIp, now) == [ToldTrapped(u.ip, now, t'[Ip(u.ip)].expire)]
                <==> t[Ip(u.ip)].expire == now + cfg.trapExp)
  {
  }

  /** An attempt that is not trapped leaves the row of its tuple, for the grey expiry when it is new, and other servers
      are told the tuple. */
  lemma GreyAttempt(cfg: Config, t: Table, u: Tuple, sync: bool, dstIp: string, now: int)
    requires !TrapsAnew(cfg, t, u, false, sync, dstIp, now)
    ensures var t' := AfterGrey(cfg, t, u, false, sync, dstIp, now);
            && Key.Grey(u) in t' && t'[Key.Grey(u)].pcount == 0 && (forall k :: k != Key.Grey(u) ==>
                  (k in t' <==> k in t) && (k in t ==> t'[k] == t[k]))
            && t'[Key.Grey(u)].expire == (if Key.Grey(u) in t then t[Key.Grey(u)].expire else now + cfg.greyExp)
            && Tells(cfg, t, u, false, sync, dstIp, now) == if cfg.syncing && sync then [ToldGrey(u, now)] else []
  {
  }

  /** No grey message touches a row but that of its address and that of its tuple. */
  lemma GreyElsewhere(cfg: Config, t: Table, u: Tuple, trap: bool, sync: bool, dstIp: string, now: int, k: Key)
    requires k != Ip(u.ip) && k != Key.Grey(u)
    ensures var t' := AfterGrey(cfg, t, u, trap, sync, dstIp, now);
            (k in t' <==> k in t) && (k in t ==> t'[k] == t[k])
  {
  }

  predicate IsReadable(expires: Option<int>) {
    expires.Some? && expires.value != 0
  }

  /** What a trap or white message leaves of an address: nothing after a deletion; after a trap message a trapped row,
      after a white one a white row, with the expiry that it had or, if it is new, with that of the message; and all
      that was there when the expiry cannot be read. */
  lemma ReportedRow(t: Table, trap: bool, x: string, expires: Option<int>, delete: bool, now: int)
    requires Counted(t)
    ensures var t' := AfterNonGrey(t, trap, x, expires, delete, now);
            && (delete ==> Ip(x) !in t')
            && (!delete && !IsReadable(expires) ==> t' == t)
            && (!delete && IsReadable(expires) ==>
                  && (if trap then TrapRow(t', x) else WhiteRow(t', x))
                  && t'[Ip(x)].expire == (if Ip(x) in t then t[Ip(x)].expire else expires.value))
            && (forall k :: k != Ip(x) ==> (k in t' <==> k in t) && (k in t ==> t'[k] == t[k]))
  {
  }

  lemma TrapKept(cfg: Config, evs: seq<Event>, n: nat, k: nat, x: string, start: int, until: int)
    requires n < k < |evs| && Clock(evs, n + 1, start) && evs[k].now < until <= start + cfg.trapExp
    requires OnlyTrapsAndScans(evs, n, x)
    ensures forall i :: n < i < k ==> KeepsTrap(cfg, evs[i], x, until) && evs[i].now < until
  {
    forall i | n < i < k ensures KeepsTrap(cfg, evs[i], x, until) && evs[i].now < until {
      assert start <= evs[i].now <= evs[k].now;
    }
  }

  /** A client that a grey message traps at time `t0` is listed as trapped by every scan before `t0` and the trap
      expiry, whatever else happens but white messages for it and its deletion. */
  lemma TrappedIsListed(su: Setup, evs: seq<Event>, n: nat, k: nat, u: Tuple)
    requires ValidRun(su, evs) && n < k < |evs| && evs[k].Scanned? && evs[n].GreySeen? && evs[n].tuple == u
    requires TrapsAnew(su.cfg, Run(su, evs[..n]), u, evs[n].trap, evs[n].sync, evs[n].dstIp, evs[n].now)
    requires Clock(evs, n + 1, evs[n].now) && evs[k].now < evs[n].now + su.cfg.trapExp
    requires OnlyTrapsAndScans(evs, n, u.ip)
    ensures ListsTrapped(su, evs, k, u.ip)
  {
    var t, e := Run(su, evs[..n]), evs[n];
    assert evs[..n + 1][..n] == evs[..n];
    NewTrap(su.cfg, t, u, e.trap, e.sync, e.dstIp, e.now);
    assert Run(su, evs[..n + 1]) == Step(su, t, e);
    hide Run, VisitAll, AfterGrey, TrapsAnew, ValidRun;
    var until := e.now + su.cfg.trapExp;
    TrapKept(su.cfg, evs, n, k, u.ip, e.now, until);
    TrapIsListedUntil(su, evs, n + 1, k, u.ip, until);
  }

  /** A client not known before that a trap message reports is listed until the expiry that the message gave, or until
      the trap expiry counted from the message if that is sooner. */
  lemma ReportedIsTrapped(su: Setup, evs: seq<Event>, n: nat, k: nat, x: string)
    requires ValidRun(su, evs) && n < k < |evs| && evs[k].Scanned? && Ip(x) !in Run(su, evs[..n])
    requires evs[n].Reported? && evs[n].ip == x && evs[n].trap && !evs[n].delete
    requires evs[n].expires.Some? && evs[n].expires.value != 0 && evs[k].now < evs[n].expires.value
    requires Clock(evs, n + 1, evs[n].now) && evs[k].now < evs[n].now + su.cfg.trapExp
    requires OnlyTrapsAndScans(evs, n, x)
    ensures ListsTrapped(su, evs, k, x)
  {
    var t, e := Run(su, evs[..n]), evs[n];
    assert evs[..n + 1][..n] == evs[..n];
    ReportedRow(t, true, x, e.expires, false, e.now) by {
      RunCounted(su, evs[..n]);
    }
    assert Run(su, evs[..n + 1]) == Step(su, t, e);
    hide Run, VisitAll, AfterNonGrey, ValidRun;
    var whole := e.now + su.cfg.trapExp;
    var until := if e.expires.value < whole then e.expires.value else whole;
    TrapKept(su.cfg, evs, n, k, x, e.now, until);
    TrapIsListedUntil(su, evs, n + 1, k, x, until);
  }

  // ---------------------------------------------------------------- which recipients trap

  /** Permitted domains are in force. */
  predicate Restricted(cfg: Config) {
    cfg.domains != [] || cfg.dbPermittedDomains
  }

  ghost predicate HasDomain(cfg: Config, dbDomains: set<string>, to: string) {
    exists d :: (d in cfg.domains || (cfg.dbPermittedDomains && d in dbDomains)) && EndsWithFold(to, d)
  }

  /** A recipient traps exactly when it is a spamtrap or, where domains are in force, has none of them. */
  lemma TrapsIff(cfg: Config, dbDomains: set<string>, spamtraps: set<string>, to: string)
    ensures IsTrap(cfg, dbDomains, spamtraps, to) <==>
              to in spamtraps || (Restricted(cfg) && !HasDomain(cfg, dbDomains, to))
  {
  }

  /** A recipient of a permitted domain, in whatever case. */
  lemma OwnDomain(cfg: Config, dbDomains: set<string>, spamtraps: set<string>, user: string, domain: string, d: string)
    requires d in cfg.domains && EqualFold(domain, d)
    ensures IsTrap(cfg, dbDomains, spamtraps, user + domain) <==> user + domain in spamtraps
  {
    var to := user + domain;
    assert to[|to| - |d|..] == domain;
    assert EndsWithFold(to, d);
  }

  // ---------------------------------------------------------------- how often tuples were attempted

  /** The attempts of a tuple from event `a` on. */
  function AttemptsFrom(evs: seq<Event>, a: nat, u: Tuple): nat {
    if |evs| <= a then 0 else
    var n := |evs| - 1;
    AttemptsFrom(evs[..n], a, u) + if Attempt(evs[n], u, evs[n].now) then 1 else 0
  }

  ghost predicate CountsFrom(evs: seq<Event>, a: nat, u: Tuple, d: Data) {
    a < |evs| && Attempt(evs[a], u, d.first) && d.bcount == AttemptsFrom(evs, a, u)
  }

  lemma AttemptsMore(evs: seq<Event>, e: Event, a: nat, u: Tuple)
    requires a <= |evs|
    ensures AttemptsFrom(evs + [e], a, u) == AttemptsFrom(evs, a, u) + if Attempt(e, u, e.now) then 1 else 0
  {
    assert (evs + [e])[..|evs|] == evs;
  }

  /** In every run the row of a tuple counts its attempts since the one that made it. */
  lemma {:induction false} AttemptsCounted(su: Setup, evs: seq<Event>, u: Tuple)
    requires Key.Grey(u) in Run(su, evs)
    ensures exists a :: CountsFrom(evs, a, u, Run(su, evs)[Key.Grey(u)])
  {
    var n := |evs| - 1;
    var before, e := evs[..n], evs[n];
    var t, t' := Run(su, before), Run(su, evs);
    assert evs == before + [e];
    if e.Scanned? {
      ScanKeepsTuples(t, e.order, e.now, su.cfg.whiteExp, su.resolves, u);
    }
    hide VisitAll, AttemptsFrom;
    if Key.Grey(u) in t {
      AttemptsCounted(su, before, u);
      var a :| CountsFrom(before, a, u, t[Key.Grey(u)]);
      AttemptsMore(before, e, a, u);
      assert CountsFrom(evs, a, u, t'[Key.Grey(u)]);
    } else {
      AttemptsMore(before, e, n, u);
      assert AttemptsFrom(before, n, u) == 0 by {
        NoAttempts(before, u);
      }
      assert CountsFrom(evs, n, u, t'[Key.Grey(u)]);
    }
  }

  lemma NoAttempts(evs: seq<Event>, u: Tuple)
    ensures AttemptsFrom(evs, |evs|, u) == 0
  {
  }
}
