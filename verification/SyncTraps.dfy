/** A trap at one server and what another one makes of it, over the packet, the pipe and the parser. */
module SyncTraps {
  import opened Wrappers
  import opened Numerals
  import opened ConfigPipe
  import opened Grey
  import opened GreyScans
  import opened GreyTerms
  import opened Sync
  import opened Messages
  import Greylister

  /** The packet by which a server tells that an address is trapped. */
  function TrapPacket(digest: Digest, key: seq<Byte>, counter: nat, ip: Octets, now: nat, expire: nat): seq<Byte> {
    Packet(digest, key, counter, AddressTlv(TRAPPED, ip, now, expire))
  }

  /** The message that arrives. */
  function TrapHeard(ip: string, source: string, expires: Option<int>): Greylister.Message {
    Greylister.Message(Greylister.MSG_TRAP, Some(ip), None, None, None, "", Some(source), Some(expires), false, false)
  }

  lemma TrapArrives(digest: Digest, key: seq<Byte>, counter: nat, ip: Octets, now: nat, expire: nat, mem: seq<Byte>,
                    source: string, number: string -> Option<int>)
    requires IsQuotable(source) && expire < 0x1_0000_0000 && MAXSIZE <= |mem|
    requires Holds(mem, 0, TrapPacket(digest, key, counter, ip, now, expire))
    ensures var heard := Heard(digest, key, mem, HEADER_SIZE + ADDR_SIZE + TLV_SIZE, source);
            && |heard| == 1 && IsMessage(heard[0])
            && MessageOf(Received(heard[0]), number)
               == TrapHeard(Dotted(ip), Unescaped(source), number(Decimal(expire)))
  {
    hide Holds, Heard, Packet, AddressTlv, AddressLines, MessageOf, Received, IsMessage, Dotted, Decimal, IsQuotable;
    hide Unescaped;
    AddressPacketIsHeard(digest, key, counter, TRAPPED, ip, now, expire, mem, source);
    AddressLinesArrive(Greylister.MSG_TRAP, ip, source, expire, false, number);
  }

  /** A client that one server traps anew, and that another one has no record of, is trapped there too, with the same
      expiry; and the other server tells nobody. */
  lemma TrapSpreads(cfg: Config, t: Table, u: Tuple, trap: bool, dstIp: string, now: nat,
                    digest: Digest, key: seq<Byte>, counter: nat, ip: Octets, mem: seq<Byte>, source: string,
                    number: string -> Option<int>, cfg': Config, domains: set<string>, traps: set<string>, t': Table,
                    at: int)
    requires cfg.syncing && TrapsAnew(cfg, t, u, trap, true, dstIp, now) && 0 < now + cfg.trapExp < 0x1_0000_0000
    requires u.ip == Dotted(ip) && Ip(u.ip) !in t' && IsQuotable(source) && MAXSIZE <= |mem|
    requires number(Decimal(now + cfg.trapExp)) == Some(now + cfg.trapExp)
    requires Holds(mem, 0, TrapPacket(digest, key, counter, ip, now, now + cfg.trapExp))
    ensures Tells(cfg, t, u, trap, true, dstIp, now) == [ToldTrapped(u.ip, now, now + cfg.trapExp)]
    ensures var heard := Heard(digest, key, mem, HEADER_SIZE + ADDR_SIZE + TLV_SIZE, source);
            && |heard| == 1 && IsMessage(heard[0])
            && var here := AfterGrey(cfg, t, u, trap, true, dstIp, now);
               var m := MessageOf(Received(heard[0]), number);
               var there := Greylister.AfterMessage(cfg', domains, traps, t', m, at);
               && TrapRow(here, u.ip) && TrapRow(there, u.ip) && there[Ip(u.ip)].expire == here[Ip(u.ip)].expire
               && Greylister.ToldOf(cfg', domains, traps, t', m, at) == []
  {
    hide Holds, Heard, TrapPacket, MessageOf, Received, IsMessage, Dotted, Decimal, IsQuotable, Unescaped;
    NewTrap(cfg, t, u, trap, true, dstIp, now);
    TrapArrives(digest, key, counter, ip, now, now + cfg.trapExp, mem, source, number);
    hide AfterGrey, Tells;
  }
}
