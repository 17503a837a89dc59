/** The greylister's operations on its table, statement by statement. */
module Greylister {
  import opened Wrappers
  import opened Grey

  const MSG_GREY := 1
  const MSG_TRAP := 2
  const MSG_WHITE := 3

  /** A parsed message; fields that the text did not set are absent. `expires` holds the number read from its text. */
  datatype Message = Message(
    kind: int, ip: Option<string>, helo: Option<string>, from: Option<string>, to: Option<string>, dstIp: string,
    source: Option<string>, expires: Option<Option<int>>, delete: bool, sync: bool)

  /** The table after a message. Incomplete messages change nothing. */
  ghost function AfterMessage(cfg: Config, dbDomains: set<string>, spamtraps: set<string>, t: Table, m: Message,
      now: int): Table {
    if m.kind == MSG_GREY then
      if m.ip.Some? && m.helo.Some? && m.from.Some? && m.to.Some? then
        AfterGrey(cfg, t, Tuple(m.ip.value, m.helo.value, m.from.value, m.to.value),
                  IsTrap(cfg, dbDomains, spamtraps, m.to.value), m.sync, m.dstIp, now)
      else t
    else if m.kind == MSG_TRAP || m.kind == MSG_WHITE then
      if m.ip.Some? && m.source.Some? && m.expires.Some? then
        AfterNonGrey(t, m.kind == MSG_TRAP, m.ip.value, m.expires.value, m.delete, now)
      else t
    else t
  }

  /** What the others are told of a message. */
  ghost function ToldOf(cfg: Config, dbDomains: set<string>, spamtraps: set<string>, t: Table, m: Message,
                        now: int): seq<Told> {
    if m.kind == MSG_GREY && m.ip.Some? && m.helo.Some? && m.from.Some? && m.to.Some? then
      Tells(cfg, t, Tuple(m.ip.value, m.helo.value, m.from.value, m.to.value),
            IsTrap(cfg, dbDomains, spamtraps, m.to.value), m.sync, m.dstIp, now)
    else []
  }

  class Greylister {
    const cfg: Config
    const resolves: string -> bool
    var entries: Table
    var spamtraps: set<string>
    var dbDomains: set<string>
    var whitelist: seq<string>
    var whitelistIpv6: seq<string>
    var traplist: seq<string>
    var told: seq<Told>

    constructor (cfg: Config, resolves: string -> bool)
      ensures this.cfg == cfg && this.resolves == resolves
      ensures entries == map[] && whitelist == whitelistIpv6 == traplist == [] && told == []
    {
      this.cfg, this.resolves := cfg, resolves;
      entries, spamtraps, dbDomains := map[], {}, {};
      whitelist, whitelistIpv6, traplist, told := [], [], [], [];
    }

    /** Whether some stored domain ends `part`, whichever way the cursor goes. */
    method CheckPartialDom(part: string) returns (found: bool)
      ensures found <==> exists d :: d in dbDomains && EndsWithFold(part, d)
    {
      found := false;
      var rest := dbDomains;
      while rest != {}
        invariant rest <= dbDomains
        invariant found <==> exists d :: d in dbDomains - rest && EndsWithFold(part, d)
        decreases rest
      {
        var domain :| domain in rest;
        if EndsWithFold(part, domain) {
          found := true;
        }
        rest := rest - {domain};
      }
    }

    /** 0 for a trapped recipient, 1 otherwise. */
    method TrapCheck(to: string) returns (r: int)
      ensures r == if IsTrap(cfg, dbDomains, spamtraps, to) then 0 else 1
    {
      var match_, checkDomains := false, false;
      if |cfg.domains| > 0 {
        checkDomains := true;
        for i := 0 to |cfg.domains|
          invariant match_ <==> exists d :: d in cfg.domains[..i] && EndsWithFold(to, d)
        {
          assert cfg.domains[..i + 1] == cfg.domains[..i] + [cfg.domains[i]];
          if EndsWithFold(to, cfg.domains[i]) {
            match_ := true;
          }
        }
        assert cfg.domains[..|cfg.domains|] == cfg.domains;
      }
      if !match_ && cfg.dbPermittedDomains {
        checkDomains := true;
        match_ := CheckPartialDom(to);
      }
      if checkDomains && !match_ {
        return 0;
      }
      return if to in spamtraps then 0 else 1;
    }

    method ProcessGrey(gt: Tuple, sync: bool, dstIp: string, now: int)
      modifies `entries, `told
      ensures entries == AfterGrey(cfg, old(entries), gt, IsTrap(cfg, dbDomains, spamtraps, gt.to), sync, dstIp, now)
      ensures told == old(told)
                      + Tells(cfg, old(entries), gt, IsTrap(cfg, dbDomains, spamtraps, gt.to), sync, dstIp, now)
    {
      var check := TrapCheck(gt.to);
      var spamtrap := check == 0;
      var expire := if spamtrap then cfg.trapExp else cfg.greyExp;
      var key := if spamtrap then Ip(gt.ip) else Key.Grey(gt);
      if key !in entries {
        if sync && cfg.lowPrioMx == Some(dstIp) && cfg.startup + 60 < now {
          spamtrap, expire, key := true, cfg.trapExp, Ip(gt.ip);
        }
        entries := entries[key := Data(now, now + expire, now + expire, 1, if spamtrap then -1 else 0)];
      } else {
        var gd := entries[key];
        gd := gd.(bcount := gd.bcount + 1);
        gd := gd.(pcount := if spamtrap then -1 else 0);
        if gd.first + cfg.passTime < now {
          gd := gd.(pass := now);
        }
        entries := entries[key := gd];
      }
      if cfg.syncing && sync {
        if spamtrap {
          told := told + [ToldTrapped(gt.ip, now, now + expire)];
        } else {
          told := told + [ToldGrey(gt, now)];
        }
      }
    }

    method ProcessNonGrey(spamtrap: bool, ip: string, expires: Option<int>, delete: bool, now: int)
      modifies `entries
      ensures entries == AfterNonGrey(old(entries), spamtrap, ip, expires, delete, now)
    {
      if !delete && (expires.None? || expires.value == 0) {
        return;
      }
      var key := Ip(ip);
      if key !in entries {
        if delete {
          assert entries - {key} == entries;
        } else {
          var gd := Data(now, if spamtrap then expires.value else now, expires.value, 0, if spamtrap then -1 else 0);
          entries := entries[key := gd];
        }
      } else if delete {
        entries := entries - {key};
      } else {
        var gd := entries[key];
        if spamtrap {
          gd := gd.(pcount := -1);
          gd := gd.(bcount := gd.bcount + 1);
        } else {
          gd := gd.(pcount := gd.pcount + 1);
        }
        entries := entries[key := gd];
      }
    }

    method ProcessMessage(m: Message, now: int) returns (r: int)
      modifies `entries, `told
      ensures told == old(told) + ToldOf(cfg, dbDomains, spamtraps, old(entries), m, now)
      ensures entries == AfterMessage(cfg, dbDomains, spamtraps, old(entries), m, now)
      ensures r == if m.kind in {MSG_GREY, MSG_TRAP, MSG_WHITE} then 0 else -1
    {
      if m.kind == MSG_GREY {
        if m.ip.Some? && m.helo.Some? && m.from.Some? && m.to.Some? {
          ProcessGrey(Tuple(m.ip.value, m.helo.value, m.from.value, m.to.value), m.sync, m.dstIp, now);
        }
      } else if m.kind == MSG_TRAP || m.kind == MSG_WHITE {
        if m.ip.Some? && m.source.Some? && m.expires.Some? {
          ProcessNonGrey(m.kind == MSG_TRAP, m.ip.value, m.expires.value, m.delete, now);
        }
      } else {
        return -1;
      }
      return 0;
    }

    method AddrState(ip: string) returns (r: int)
      ensures r == match StateOf(entries, ip) case NotFound => 0 case Trapped => 1 case Whitelisted => 2
    {
      if Ip(ip) !in entries {
        return 0;
      }
      return if entries[Ip(ip)].pcount == -1 then 1 else 2;
    }

    ghost function State(): Scan
      reads this
    {
      Scan(entries, whitelist, whitelistIpv6, traplist)
    }

    method AddWhite(ip: string)
      modifies `whitelist, `whitelistIpv6
      ensures State() == ListWhite(old(State()), ip, resolves)
    {
      if HasColon(ip) && resolves(ip) {
        whitelistIpv6 := whitelistIpv6 + [ip];
      } else {
        whitelist := whitelist + [ip];
      }
    }

    method VisitEntry(key: Key, now: int)
      modifies `entries, `whitelist, `whitelistIpv6, `traplist
      ensures State() == Visit(old(State()), key, now, cfg.whiteExp, resolves)
    {
      if key !in entries {
        return;
      }
      var gd := entries[key];
      if gd.expire <= now && gd.pcount > -2 {
        entries := entries - {key};
      } else if gd.pcount == -1 && key.Ip? {
        traplist := traplist + [key.ip];
      } else if gd.pcount >= 0 && gd.pass <= now {
        if key.Grey? {
          var state := AddrState(key.tuple.ip);
          if state == 1 {
            return;
          }
          AddWhite(key.tuple.ip);
          gd := gd.(expire := now + cfg.whiteExp);
          entries := entries[Ip(key.tuple.ip) := gd];
          entries := entries - {key};
        } else {
          AddWhite(key.ip);
        }
      }
    }

    /** The scan with a cursor that comes by the entries in the given order. */
    method ScanWithCursor(order: seq<Key>, now: int)
      requires whitelist == whitelistIpv6 == traplist == []
      modifies `entries, `whitelist, `whitelistIpv6, `traplist
      ensures State() == VisitAll(old(entries), order, now, cfg.whiteExp, resolves)
    {
      for i := 0 to |order|
        invariant State() == VisitAll(old(entries), order[..i], now, cfg.whiteExp, resolves)
      {
        assert order[..i + 1][..i] == order[..i];
        VisitEntry(order[i], now);
      }
      assert order[..|order|] == order;
    }

    /** The scan with three SQL statements; `rows` is the order in which the update comes by the rows. */
    method ScanWithSql(rows: seq<Key>, now: int)
      requires whitelist == whitelistIpv6 == traplist == []
      modifies `entries, `whitelist, `whitelistIpv6, `traplist
      ensures entries == SqlTable(old(entries), rows, now, cfg.whiteExp)
      ensures forall a :: a in whitelist + whitelistIpv6 <==> a in AddressesWhere(entries, false)
      ensures forall a :: a in whitelistIpv6 ==> HasColon(a)
      ensures forall a :: a in whitelist ==> !HasColon(a)
      ensures forall a :: a in traplist <==> a in AddressesWhere(entries, true)
    {
      entries := Unexpired(entries, now);
      ghost var live := entries;
      UpdateRows(rows, now);
      whitelist := SelectAddresses(false, false);
      whitelistIpv6 := SelectAddresses(false, true);
      var trapped4 := SelectAddresses(true, false);
      var trapped6 := SelectAddresses(true, true);
      traplist := trapped4 + trapped6;
    }

    method UpdateRows(rows: seq<Key>, now: int)
      modifies `entries
      ensures entries == Updated(old(entries), rows, now, cfg.whiteExp)
    {
      var before := entries;
      for i := 0 to |rows|
        invariant entries == Updated(before, rows[..i], now, cfg.whiteExp)
      {
        assert rows[..i + 1][..i] == rows[..i];
        var k := rows[i];
        if Selected(before, k, now) && k in entries {
          entries := entries[Ip(k.tuple.ip) := entries[k].(expire := now + cfg.whiteExp)] - {k};
        }
      }
      assert rows[..|rows|] == rows;
    }

    /** One branch of the union: the distinct addresses of the address rows, by kind and by colon. */
    method SelectAddresses(trapped: bool, colon: bool) returns (r: seq<string>)
      ensures forall a :: a in r <==> a in AddressesWhere(entries, trapped) && HasColon(a) == colon
    {
      var rest := AddressesWhere(entries, trapped);
      r := [];
      while rest != {}
        invariant rest <= AddressesWhere(entries, trapped)
        invariant forall a :: a in r <==> a in AddressesWhere(entries, trapped) - rest && HasColon(a) == colon
        decreases rest
      {
        var a :| a in rest;
        if HasColon(a) == colon {
          r := r + [a];
        }
        rest := rest - {a};
      }
    }
  }
}
