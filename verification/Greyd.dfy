/** The server's connection slots and counters under every event of its main loop. */
module Greyd {
  import opened Reply
  import opened Con

  const MAX_TIME := 400
  const CLIENT_TOLERANCE := 5

  datatype Settings = Settings(maxBlack: int, greylist: bool, greyStutter: int, stutter: int, proxyProtocol: bool)

  /** `accepted` counts the connections given a slot, `closed` lists their numbers in the order they were closed. */
  datatype Server = Server(
    cons: seq<Con>, clients: int, blackClients: int, slowUntil: int,
    accepted: nat, closed: seq<nat>, reports: seq<Report>)

  /** Anything but data closes the connection. */
  datatype Input = ReadError | EndOfInput | Got(data: string)

  predicate Open(c: Con) {
    c.fd != -1
  }

  predicate Black(c: Con) {
    Open(c) && c.blacklists != []
  }

  // ---------------------------------------------------------------- closing and advancing

  function Closed(c: Con): Con {
    c.(fd := -1, blacklists := [], out := Pending("", 0, c.out.remaining))
  }

  function CloseCon(v: Server, i: nat): Server
    requires i < |v.cons|
  {
    var c := v.cons[i];
    v.(cons := v.cons[i := Closed(c)], clients := v.clients - 1,
       blackClients := if c.blacklists != [] then v.blackClients - 1 else v.blackClients,
       slowUntil := 0, closed := v.closed + [c.serial])
  }

  function Set(v: Server, i: nat, c: Con): Server
    requires i < |v.cons|
  {
    v.(cons := v.cons[i := c])
  }

  function Advance(v: Server, i: nat, env: Env): Server
    requires i < |v.cons|
  {
    var c := v.cons[i];
    if c.state == Close then CloseCon(v, i) else
    var report := ReportOf(c, env);
    Set(v, i, Next(c, env)).(reports := v.reports + if report.Some? then [report.value] else [])
  }

  // ---------------------------------------------------------------- accepting

  function FirstFree(cons: seq<Con>): (i: nat)
    ensures i <= |cons| && (i < |cons| ==> !Open(cons[i]))
    ensures forall j :: 0 <= j < i ==> Open(cons[j])
  {
    if cons == [] || !Open(cons[0]) then 0 else 1 + FirstFree(cons[1..])
  }

  function FreshCon(st: Settings, fd: int, serial: nat, src: string, blacklists: seq<string>, black: int,
                    now: int): Con {
    var stutter := if st.greylist && st.greyStutter == 0 then 0 else st.stutter;
    Con(fd, serial, if st.proxyProtocol then ProxyIn else BannerIn, BannerOut,
        src, "", "", "", "", blacklists, 0, 0, now, "", 0, 0, Pending("", 0, 0),
        0, false, if blacklists != [] && st.greylist && black > st.maxBlack then 0 else stutter, 0, false)
  }

  /** A new connection takes a slot and makes its first step. */
  function WithClient(v: Server, i: nat, st: Settings, fd: int, src: string, blacklists: seq<string>, env: Env): Server
    requires i < |v.cons|
  {
    var black := v.blackClients + if blacklists != [] then 1 else 0;
    var c := FreshCon(st, fd, v.accepted, src, blacklists, black, env.now);
    Advance(Set(v, i, c).(clients := v.clients + 1, blackClients := black, accepted := v.accepted + 1), i, env)
  }

  /** A connection gets the first free slot; without one it is refused and counts for nothing. */
  function Accepting(v: Server, st: Settings, fd: int, src: string, blacklists: seq<string>, env: Env): Server {
    var i := FirstFree(v.cons);
    if i == |v.cons| then v.(slowUntil := 0) else WithClient(v, i, st, fd, src, blacklists, env)
  }

  // ---------------------------------------------------------------- reading

  function EndsInput(c: char): bool {
    c == '\r' || c == '\n'
  }

  function StrippedLength(buf: string, n: nat): nat
    requires n <= |buf|
  {
    if n > 0 && EndsInput(buf[n - 1]) then StrippedLength(buf, n - 1) else n
  }

  /** The data up to its first zero character. */
  function CString(s: string): string {
    if s == "" || s[0] == '\0' then "" else [s[0]] + CString(s[1..])
  }

  function Taken(c: Con, data: string): Con {
    c.(inBuf := (if c.inP <= |c.inBuf| then c.inBuf[..c.inP] else c.inBuf) + data,
       inP := c.inP + |data|, inRemaining := c.inRemaining - |data|)
  }

  /** The input is complete: line ends are cut off and the dialogue advances. */
  function Complete(v: Server, i: nat, env: Env): Server
    requires i < |v.cons|
  {
    var c := v.cons[i];
    var n := if c.inP <= |c.inBuf| then StrippedLength(c.inBuf, c.inP) else c.inP;
    Advance(Set(v, i, c.(inP := n, inBuf := if n <= |c.inBuf| then c.inBuf[..n] else c.inBuf, r := 0)), i, env)
  }

  function Reading(v: Server, i: nat, input: Input, env: Env): Server
    requires i < |v.cons|
  {
    var c := v.cons[i];
    var v' := if c.r == 0 then v else if input.Got? then Set(v, i, Taken(c, input.data)) else CloseCon(v, i);
    var end := c.r != 0 && input.Got? && '\n' in CString(input.data);
    if end || v'.cons[i].inRemaining == 0 then Complete(v', i, env) else v'
  }

  // ---------------------------------------------------------------- writing

  function CharAt(o: OutBuffer): char {
    if o.p < |o.buf| then o.buf[o.p] else '\0'
  }

  function Unstuttered(c: Con, st: Settings, now: int): Con {
    if c.stutter != 0 && st.greylist && c.blacklists == [] && now - c.s > st.greyStutter then c.(stutter := 0) else c
  }

  function ToBeWritten(v: Server, c: Con): int {
    if v.clients + CLIENT_TOLERANCE < |v.cons| && c.stutter != 0 then 1 else c.out.remaining
  }

  /** What becomes of the connection before the dialogue advances: `crWritten` tells whether the write of a carriage
      return succeeded, `written` is the outcome of the write. */
  function Written(v: Server, i: nat, crWritten: bool, written: int): Server
    requires i < |v.cons|
  {
    var c := v.cons[i];
    if c.w == 0 then v
    else if CharAt(c.out) == '\n' && !c.seenCr && !crWritten then CloseCon(v, i)
    else
      var d := c.(seenCr := CharAt(c.out) == '\r');
      if written <= 0 then CloseCon(Set(v, i, d), i)
      else Set(v, i, d.(out := d.out.(p := d.out.p + written, remaining := d.out.remaining - written)))
  }

  function AfterWrite(v: Server, i: nat, env: Env): Server
    requires i < |v.cons|
  {
    var c := v.cons[i].(w := env.now + v.cons[i].stutter);
    if c.out.remaining == 0 then Advance(Set(v, i, c.(w := 0)), i, env) else Set(v, i, c)
  }

  function Writing(v: Server, st: Settings, i: nat, crWritten: bool, written: int, env: Env): Server
    requires i < |v.cons|
  {
    AfterWrite(Written(Set(v, i, Unstuttered(v.cons[i], st, env.now)), i, crWritten, written), i, env)
  }

  // ---------------------------------------------------------------- the main loop

  datatype Event =
    | Accept(fd: int, src: string, blacklists: seq<string>, env: Env)
    | AcceptFailed(exhausted: bool, now: int)
    | Readable(i: nat, input: Input, env: Env)
    | Writable(i: nat, crWritten: bool, written: int, env: Env)
    | Expire(i: nat, now: int)
    | Hangup(i: nat)

  predicate WantsRead(v: Server, i: nat) {
    i < |v.cons| && Open(v.cons[i]) && v.cons[i].r != 0
  }

  predicate WantsWrite(v: Server, i: nat, now: int) {
    i < |v.cons| && Open(v.cons[i]) && v.cons[i].w != 0 && v.cons[i].w <= now
  }

  predicate TimedOut(v: Server, i: nat, now: int) {
    && i < |v.cons| && Open(v.cons[i])
    && ((v.cons[i].r != 0 && v.cons[i].r + MAX_TIME <= now) || (v.cons[i].w != 0 && v.cons[i].w + MAX_TIME <= now))
  }

  /** Events reach only slots that asked for them. */
  function Step(v: Server, st: Settings, e: Event): Server {
    match e
    case Accept(fd, src, blacklists, env) => Accepting(v, st, fd, src, blacklists, env)
    case AcceptFailed(exhausted, now) => if exhausted then v.(slowUntil := now + 1) else v
    case Readable(i, input, env) => if WantsRead(v, i) then Reading(v, i, input, env) else v
    case Writable(i, crWritten, written, env) =>
      if WantsWrite(v, i, env.now) then Writing(v, st, i, crWritten, written, env) else v
    case Expire(i, now) => if TimedOut(v, i, now) then CloseCon(v, i) else v
    case Hangup(i) => if i < |v.cons| && Open(v.cons[i]) then CloseCon(v, i) else v
  }

  const FREE := Con(-1, 0, ProxyIn, ProxyIn, "", "", "", "", "", [], 0, 0, 0, "", 0, 0, Pending("", 0, 0),
                    0, false, 0, 0, false)

  function Start(maxCons: nat): Server {
    Server(seq(maxCons, _ => FREE), 0, 0, 0, 0, [], [])
  }

  function RunFrom(v: Server, st: Settings, es: seq<Event>): Server {
    if es == [] then v else Step(RunFrom(v, st, es[..|es| - 1]), st, es[|es| - 1])
  }

  function Run(maxCons: nat, st: Settings, es: seq<Event>): Server {
    RunFrom(Start(maxCons), st, es)
  }

  lemma {:induction false} RunFromSplits(v: Server, st: Settings, es: seq<Event>, fs: seq<Event>)
    ensures RunFrom(v, st, es + fs) == RunFrom(RunFrom(v, st, es), st, fs)
  {
    hide Step;
    if fs == [] {
      assert es + fs == es;
    } else {
      assert (es + fs)[..|es + fs| - 1] == es + fs[..|fs| - 1];
      RunFromSplits(v, st, es, fs[..|fs| - 1]);
    }
  }
}
