/** The greylisting engine: what each message and each database scan does to the table of entries. */
module Grey {
  import opened Wrappers
  import opened Fold

  datatype Tuple = Tuple(ip: string, helo: string, from: string, to: string)

  /** Entries are keyed by an address or by a whole greylisting tuple. */
  datatype Key = Ip(ip: string) | Grey(tuple: Tuple)

  function Address(k: Key): string {
    match k case Ip(ip) => ip case Grey(t) => t.ip
  }

  /** When an entry was first seen, may pass and expires; how often it was blocked; and how often it
      passed, or -1 for a trapped address. */
  datatype Data = Data(first: int, pass: int, expire: int, bcount: int, pcount: int)

  type Table = map<Key, Data>

  datatype Config = Config(
    greyExp: int, whiteExp: int, trapExp: int, passTime: int,
    startup: int, lowPrioMx: Option<string>, syncing: bool,
    domains: seq<string>, dbPermittedDomains: bool)

  // ---------------------------------------------------------------- trapped recipients

  predicate EndsWithFold(s: string, suffix: string) {
    |suffix| <= |s| && EqualFold(s[|s| - |suffix|..], suffix)
  }

  /** A recipient is trapped when permitted domains are in force and it has none of them, or when it is a spamtrap. */
  ghost predicate IsTrap(cfg: Config, dbDomains: set<string>, spamtraps: set<string>, to: string) {
    var permitted :=
      (exists d :: d in cfg.domains && EndsWithFold(to, d))
      || (cfg.dbPermittedDomains && exists d :: d in dbDomains && EndsWithFold(to, d));
    ((cfg.domains != [] || cfg.dbPermittedDomains) && !permitted) || to in spamtraps
  }

  // ---------------------------------------------------------------- messages

  function NewData(now: int, expire: int, trap: bool): Data {
    Data(now, now + expire, now + expire, 1, if trap then -1 else 0)
  }

  function SeenAgain(cfg: Config, d: Data, now: int, trap: bool): Data {
    Data(d.first, if d.first + cfg.passTime < now then now else d.pass, d.expire, d.bcount + 1, if trap then -1 else 0)
  }

  /** A first attempt at the low priority mail server, by a client that must have skipped the others. */
  predicate SkippedPrimary(cfg: Config, sync: bool, dstIp: string, now: int) {
    sync && cfg.lowPrioMx == Some(dstIp) && cfg.startup + 60 < now
  }

  /** The table after a grey message, where `trap` tells whether the recipient is trapped. */
  function AfterGrey(cfg: Config, t: Table, tuple: Tuple, trap: bool, sync: bool, dstIp: string, now: int): Table {
    var k := if trap then Ip(tuple.ip) else Grey(tuple);
    if k in t then t[k := SeenAgain(cfg, t[k], now, trap)]
    else if trap || SkippedPrimary(cfg, sync, dstIp, now) then t[Ip(tuple.ip) := NewData(now, cfg.trapExp, true)]
    else t[k := NewData(now, cfg.greyExp, false)]
  }

  /** What other servers are told: a trapped address with its expiry, or a tuple. */
  datatype Told = ToldTrapped(ip: string, now: int, expire: int) | ToldGrey(tuple: Tuple, now: int)

  /** What a grey message makes the server tell the others. */
  function Tells(cfg: Config, t: Table, tuple: Tuple, trap: bool, sync: bool, dstIp: string, now: int): seq<Told> {
    var trapped := trap || (Grey(tuple) !in t && SkippedPrimary(cfg, sync, dstIp, now));
    if !cfg.syncing || !sync then []
    else if trapped then [ToldTrapped(tuple.ip, now, now + cfg.trapExp)]
    else [ToldGrey(tuple, now)]
  }

  /** The table after a trap or white message. An expiry that cannot be read, or is 0, is refused. */
  function AfterNonGrey(t: Table, trap: bool, ip: string, expires: Option<int>, delete: bool, now: int): Table {
    var k := Ip(ip);
    if delete then t - {k}
    else if expires.None? || expires.value == 0 then t
    else if k in t then
      t[k := if trap then t[k].(pcount := -1, bcount := t[k].bcount + 1) else t[k].(pcount := t[k].pcount + 1)]
    else if trap then t[k := Data(now, expires.value, expires.value, 0, -1)]
    else t[k := Data(now, now, expires.value, 0, 0)]
  }

  // ---------------------------------------------------------------- the cursor scan

  datatype Scan = Scan(table: Table, white: seq<string>, white6: seq<string>, trapped: seq<string>)

  datatype AddrState = NotFound | Trapped | Whitelisted

  function StateOf(t: Table, ip: string): AddrState {
    if Ip(ip) !in t then NotFound else if t[Ip(ip)].pcount == -1 then Trapped else Whitelisted
  }

  predicate HasColon(a: string) {
    ':' in a
  }

  /** `resolves` tells which addresses the resolver accepts as numeric. */
  function ListWhite(s: Scan, ip: string, resolves: string -> bool): Scan {
    if HasColon(ip) && resolves(ip) then s.(white6 := s.white6 + [ip]) else s.(white := s.white + [ip])
  }

  /** What the cursor does at one entry. */
  function Visit(s: Scan, k: Key, now: int, whiteExp: int, resolves: string -> bool): Scan {
    if k !in s.table then s else
    var d := s.table[k];
    if d.expire <= now && d.pcount > -2 then s.(table := s.table - {k})
    else if d.pcount == -1 && k.Ip? then s.(trapped := s.trapped + [k.ip])
    else if d.pcount >= 0 && d.pass <= now then
      if k.Ip? then ListWhite(s, k.ip, resolves)
      else if StateOf(s.table, k.tuple.ip).Trapped? then s
      else
        var w := ListWhite(s, k.tuple.ip, resolves);
        w.(table := s.table[Ip(k.tuple.ip) := d.(expire := now + whiteExp)] - {k})
    else s
  }

  function VisitAll(t: Table, order: seq<Key>, now: int, whiteExp: int, resolves: string -> bool): Scan {
    if order == [] then Scan(t, [], [], [])
    else Visit(VisitAll(t, order[..|order| - 1], now, whiteExp, resolves), order[|order| - 1], now, whiteExp, resolves)
  }

  /** The cursor comes by every entry of the table once, in any order; it may or may not come by entries that
      the scan itself adds. */
  ghost predicate CursorOrder(t: Table, order: seq<Key>) {
    && (forall k :: k in t ==> k in order)
    && (forall i, j :: 0 <= i < j < |order| ==> order[i] != order[j])
  }

  // ---------------------------------------------------------------- the relational scan

  /** Rows with empty from and to columns count as address rows. */
  predicate AddressRow(k: Key) {
    k.Ip? || (k.tuple.from == "" && k.tuple.to == "")
  }

  function Unexpired(t: Table, now: int): Table {
    map k | k in t && t[k].expire > now :: t[k]
  }

  function AddressesOf(t: Table): set<string> {
    set k | k in t && AddressRow(k) :: Address(k)
  }

  /** The rows that the update turns into address rows; the sub-select is evaluated on the table before it. */
  predicate Selected(t: Table, k: Key, now: int) {
    && k in t && k.Grey? && k.tuple.from != "" && k.tuple.to != ""
    && t[k].pcount >= 0 && t[k].pass <= now && k.tuple.ip !in AddressesOf(t)
  }

  /** The update reaches the selected rows of `t` in the order of `rows`; a later one replaces an earlier one. */
  function Updated(t: Table, rows: seq<Key>, now: int, whiteExp: int): Table {
    if rows == [] then t else
    var u := Updated(t, rows[..|rows| - 1], now, whiteExp);
    var k := rows[|rows| - 1];
    if Selected(t, k, now) && k in u then u[Ip(k.tuple.ip) := u[k].(expire := now + whiteExp)] - {k} else u
  }

  function SqlTable(t: Table, rows: seq<Key>, now: int, whiteExp: int): Table {
    Updated(Unexpired(t, now), rows, now, whiteExp)
  }

  function AddressesWhere(t: Table, trapped: bool): set<string> {
    set k | k in t && AddressRow(k) && (t[k].pcount < 0 <==> trapped) :: Address(k)
  }
}
