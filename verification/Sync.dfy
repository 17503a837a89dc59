/** Packets that tell other servers of changes to the greylister's table. */
module Sync {
  import opened Wrappers
  import opened ConfigParser
  import opened ConfigPipe
  import opened Numerals
  import opened Messages
  import Grey
  import Greylister

  const VERSION := 2
  const AF_INET := 2
  const HMAC_LEN := 20
  const MAXSIZE := 1408
  const HEADER_SIZE := 32
  const TLV_SIZE := 4
  const GREY_SIZE := 18
  const ADDR_SIZE := 16

  const GREY := 1
  const WHITE := 2
  const TRAPPED := 3
  const DEL_WHITE := 4
  const DEL_TRAPPED := 5

  // ---------------------------------------------------------------- bytes

  function Be16(n: nat): seq<Byte> {
    [n / 256 % 256, n % 256]
  }

  function Be32(n: nat): seq<Byte> {
    Be16(n / 0x1_0000) + Be16(n)
  }

  /** What lies beyond the known memory reads as zero. */
  function ByteAt(mem: seq<Byte>, i: nat): Byte {
    if i < |mem| then mem[i] else 0
  }

  function Word16(mem: seq<Byte>, i: nat): (n: nat)
    ensures n < 0x1_0000
  {
    ByteAt(mem, i) * 256 + ByteAt(mem, i + 1)
  }

  function Word32(mem: seq<Byte>, i: nat): nat {
    Word16(mem, i) * 0x1_0000 + Word16(mem, i + 2)
  }

  function Zeros(n: nat): seq<Byte> {
    seq(n, _ => 0)
  }

  /** A string that fits a packet: eight-bit characters, none of them zero. */
  predicate IsText(s: string) {
    forall i :: 0 <= i < |s| ==> 0 < s[i] as int < 256
  }

  /** A string with its terminating zero. */
  function Terminated(s: string): (bs: seq<Byte>)
    requires IsText(s)
    ensures |bs| == |s| + 1
  {
    if s == "" then [0] else [s[0] as int] + Terminated(s[1..])
  }

  function CString(mem: seq<Byte>, i: nat): string
    decreases |mem| - i
  {
    if i >= |mem| || mem[i] == 0 then "" else [mem[i] as char] + CString(mem, i + 1)
  }

  // ---------------------------------------------------------------- what is sent

  function OctetBytes(ip: Octets): seq<Byte> {
    [ip.a, ip.b, ip.c, ip.d]
  }

  function OctetsAt(mem: seq<Byte>, i: nat): Octets {
    Octets(ByteAt(mem, i), ByteAt(mem, i + 1), ByteAt(mem, i + 2), ByteAt(mem, i + 3))
  }

  /** A tuple as it is packed: its address is four bytes. */
  datatype PackedTuple = PackedTuple(ip: Octets, helo: string, from: string, to: string)

  const NO_ADDRESS := Octets(255, 255, 255, 255)

  /** inet_addr, as far as it is used here: it undoes dotted addresses and finds none in the text of an IPv6 one. */
  ghost predicate IsInetAddr(inetAddr: string -> Octets) {
    (forall ip :: inetAddr(Dotted(ip)) == ip) && (forall s: string :: ':' in s ==> inetAddr(s) == NO_ADDRESS)
  }

  function Packed(gt: Grey.Tuple, inetAddr: string -> Octets): PackedTuple {
    PackedTuple(inetAddr(gt.ip), gt.helo, gt.from, gt.to)
  }

  predicate IsPackable(gt: PackedTuple) {
    IsText(gt.helo) && IsText(gt.from) && IsText(gt.to)
  }

  function Preamble(length: nat, counter: nat): (bs: seq<Byte>)
    ensures |bs| == 8
  {
    [VERSION, AF_INET] + (Be16(length) + Be32(counter))
  }

  function Header(length: nat, counter: nat, hmac: seq<Byte>): (bs: seq<Byte>)
    ensures |bs| == 12 + |hmac|
  {
    Preamble(length, counter) + (hmac + Zeros(4))
  }

  const END_TLV: seq<Byte> := [0, 0, 0, 4]

  /** The length of the strings and the fields before them, and what aligns it to sixteen bytes. */
  function GreyLength(gt: PackedTuple): nat {
    GREY_SIZE + |gt.from| + 1 + |gt.to| + 1 + |gt.helo| + 1
  }

  function PadLength(n: nat): nat {
    (n + 15) / 16 * 16 - n
  }

  function GreyHead(length: nat, now: nat, ip: Octets, from: nat, to: nat, helo: nat): (bs: seq<Byte>)
    ensures |bs| == GREY_SIZE
  {
    Be16(GREY) + (Be16(length) + (Be32(now) + (OctetBytes(ip) + (Be16(from) + (Be16(to) + Be16(helo))))))
  }

  function Strings(gt: PackedTuple): (bs: seq<Byte>)
    requires IsPackable(gt)
    ensures |bs| == GreyLength(gt) - GREY_SIZE
  {
    Terminated(gt.from) + (Terminated(gt.to) + Terminated(gt.helo))
  }

  function GreyTlv(gt: PackedTuple, now: nat): (bs: seq<Byte>)
    requires IsPackable(gt)
    ensures |bs| == GreyLength(gt) + PadLength(GreyLength(gt))
  {
    var n := GreyLength(gt);
    GreyHead(n + PadLength(n), now, gt.ip, |gt.from| + 1, |gt.to| + 1, |gt.helo| + 1)
        + (Strings(gt) + Zeros(PadLength(n)))
  }

  function AddressTlv(kind: nat, ip: Octets, now: nat, expire: nat): (bs: seq<Byte>)
    ensures |bs| == ADDR_SIZE
  {
    Be16(kind) + (Be16(ADDR_SIZE) + (Be32(now) + (Be32(expire) + OctetBytes(ip))))
  }

  /** A keyed digest; nothing else is known of it. */
  type Digest = f: (seq<Byte>, seq<Byte>) -> seq<Byte> | forall k, bs :: |f(k, bs)| == HMAC_LEN
    witness (k, bs) => Zeros(HMAC_LEN)

  /** One entry between header and end marker, signed with the digest in its own place left zero. */
  function Packet(digest: Digest, key: seq<Byte>, counter: nat, tlv: seq<Byte>): (bs: seq<Byte>)
    ensures |bs| == HEADER_SIZE + |tlv| + TLV_SIZE
  {
    var length := HEADER_SIZE + |tlv| + TLV_SIZE;
    Header(length, counter, digest(key, Header(length, counter, Zeros(HMAC_LEN)) + (tlv + END_TLV))) + (tlv + END_TLV)
  }

  // ---------------------------------------------------------------- what is received

  function GreyLines(ip: Octets, helo: string, from: string, to: string): seq<Line> {
    [Line("type", true, Number(Greylister.MSG_GREY)), Line("sync", true, Number(0)), Line("ip", true, Text(Dotted(ip))),
     Line("helo", true, Text(helo)), Line("from", true, Text(from)), Line("to", true, Text(to))]
  }

  function AddressLines(kind: int, ip: Octets, source: string, expire: nat, delete: bool): seq<Line> {
    [Line("type", true, Number(kind)), Line("sync", true, Number(0)), Line("ip", true, Text(Dotted(ip))),
     Line("source", true, Text(source)), Line("expires", true, Text(Decimal(expire))),
     Line("delete", true, Number(if delete then 1 else 0))]
  }

  /** The message of the entry of `n` bytes at `p`; none when it is malformed, unknown or the end marker. */
  function EntryAt(mem: seq<Byte>, p: nat, n: nat, delete: bool, source: string): (r: Option<seq<Line>>)
    ensures r.Some? ==> n > 0
  {
    var kind := Word16(mem, p);
    if kind == GREY then
      var from, to, helo := Word16(mem, p + 12), Word16(mem, p + 14), Word16(mem, p + 16);
      if GREY_SIZE + from + to + helo > n then None else
      var q := p + GREY_SIZE;
      Some(GreyLines(OctetsAt(mem, p + 8), CString(mem, q + from + to), CString(mem, q), CString(mem, q + from)))
    else if kind in {WHITE, DEL_WHITE, TRAPPED, DEL_TRAPPED} then
      if n != ADDR_SIZE then None else
      Some(AddressLines(MessageKind(kind), OctetsAt(mem, p + 12), source, Word32(mem, p + 8), delete))
    else None
  }

  function MessageKind(kind: nat): int {
    if kind in {WHITE, DEL_WHITE} then Greylister.MSG_WHITE else Greylister.MSG_TRAP
  }

  /** The messages for the greylister from the entries at `p`, of which `len` bytes are left. A deletion marks the
      entries after it too. */
  function Entries(mem: seq<Byte>, p: nat, len: nat, delete: bool, source: string): seq<seq<Line>>
    decreases len
  {
    var n := Word16(mem, p + 2);
    if len < TLV_SIZE || len < n then [] else
    var delete' := delete || Word16(mem, p) in {DEL_WHITE, DEL_TRAPPED};
    var entry := EntryAt(mem, p, n, delete', source);
    if entry.None? then [] else [entry.value] + Entries(mem, p + n, len - n, delete', source)
  }

  lemma EntriesStep(mem: seq<Byte>, p: nat, len: nat, delete: bool, source: string)
    ensures var n := Word16(mem, p + 2);
            var delete' := delete || Word16(mem, p) in {DEL_WHITE, DEL_TRAPPED};
            var entry := EntryAt(mem, p, n, delete', source);
            if len < TLV_SIZE || len < n || entry.None? then Entries(mem, p, len, delete, source) == []
            else Entries(mem, p, len, delete, source) == [entry.value] + Entries(mem, p + n, len - n, delete', source)
  {
    hide EntryAt, Word16;
  }

  lemma Regroup<T>(a: seq<T>, x: T, b: seq<T>)
    ensures a + ([x] + b) == a + [x] + b
  {
  }

  /** The packet with the place of its digest set to zero. */
  function Unsigned(packet: seq<Byte>): seq<Byte> {
    if |packet| < HEADER_SIZE then packet else packet[..8] + Zeros(HMAC_LEN) + packet[8 + HMAC_LEN..]
  }

  /** `mem` is the buffer, of which the first `len` bytes were received, and what lies behind it. */
  function Heard(digest: Digest, key: seq<Byte>, mem: seq<Byte>, len: nat, source: string): seq<seq<Line>>
    requires len <= MAXSIZE <= |mem|
  {
    if len < HEADER_SIZE || mem[0] != VERSION || mem[1] != AF_INET || len < Word16(mem, 2) then [] else
    var n := Word16(mem, 2);
    var cleared := Unsigned(mem);
    if mem[8..8 + HMAC_LEN] != digest(key, cleared[..n]) then []
    else Entries(cleared, HEADER_SIZE, n, false, source)
  }

  // ---------------------------------------------------------------- reading what was written

  predicate Holds(mem: seq<Byte>, p: nat, part: seq<Byte>) {
    p + |part| <= |mem| && mem[p..p + |part|] == part
  }

  lemma HoldsParts(mem: seq<Byte>, p: nat, a: seq<Byte>, b: seq<Byte>)
    requires Holds(mem, p, a + b)
    ensures Holds(mem, p, a) && Holds(mem, p + |a|, b)
  {
    var all := mem[p..p + |a| + |b|];
    assert all[..|a|] == a && all[|a|..] == b;
    assert mem[p..p + |a|] == all[..|a|];
    assert mem[p + |a|..p + |a| + |b|] == all[|a|..];
  }

  lemma Word16Of(mem: seq<Byte>, p: nat, n: nat)
    requires Holds(mem, p, Be16(n))
    ensures Word16(mem, p) == n % 0x1_0000
  {
    var part := mem[p..p + 2];
    assert mem[p] == part[0] && mem[p + 1] == part[1];
  }

  lemma Word32Of(mem: seq<Byte>, p: nat, n: nat)
    requires Holds(mem, p, Be32(n))
    ensures Word32(mem, p) == n % 0x1_0000_0000
  {
    HoldsParts(mem, p, Be16(n / 0x1_0000), Be16(n));
    Word16Of(mem, p, n / 0x1_0000);
    Word16Of(mem, p + 2, n);
  }

  lemma OctetsOf(mem: seq<Byte>, p: nat, ip: Octets)
    requires Holds(mem, p, OctetBytes(ip))
    ensures OctetsAt(mem, p) == ip
  {
    var part := mem[p..p + 4];
    assert mem[p] == part[0] && mem[p + 1] == part[1] && mem[p + 2] == part[2] && mem[p + 3] == part[3];
  }

  lemma {:induction false} CStringOf(mem: seq<Byte>, p: nat, s: string)
    requires IsText(s) && Holds(mem, p, Terminated(s))
    ensures CString(mem, p) == s
    decreases s
  {
    var part := mem[p..p + |s| + 1];
    assert mem[p] == part[0];
    if s != "" {
      HoldsParts(mem, p, [s[0] as int], Terminated(s[1..]));
      CStringOf(mem, p + 1, s[1..]);
    }
  }

  /** The end marker ends the entries. */
  lemma EndsThere(mem: seq<Byte>, p: nat, len: nat, delete: bool, source: string)
    requires Holds(mem, p, END_TLV)
    ensures Entries(mem, p, len, delete, source) == []
  {
    var part := mem[p..p + 4];
    assert mem[p] == part[0] && mem[p + 1] == part[1] && mem[p + 2] == part[2] && mem[p + 3] == part[3];
  }

  lemma HeadParts(mem: seq<Byte>, p: nat, length: nat, now: nat, ip: Octets, from: nat, to: nat, helo: nat)
    requires Holds(mem, p, GreyHead(length, now, ip, from, to, helo))
    requires length < 0x1_0000 && from < 0x1_0000 && to < 0x1_0000 && helo < 0x1_0000
    ensures Word16(mem, p) == GREY && Word16(mem, p + 2) == length && OctetsAt(mem, p + 8) == ip
    ensures Word16(mem, p + 12) == from && Word16(mem, p + 14) == to && Word16(mem, p + 16) == helo
  {
    hide Holds, Word16, OctetsAt;
    var t6 := Be16(to) + Be16(helo);
    var t5 := Be16(from) + t6;
    var t4 := OctetBytes(ip) + t5;
    var t3 := Be32(now) + t4;
    HoldsParts(mem, p, Be16(GREY), Be16(length) + t3);
    HoldsParts(mem, p + 2, Be16(length), t3);
    HoldsParts(mem, p + 4, Be32(now), t4);
    HoldsParts(mem, p + 8, OctetBytes(ip), t5);
    HoldsParts(mem, p + 12, Be16(from), t6);
    HoldsParts(mem, p + 14, Be16(to), Be16(helo));
    Word16Of(mem, p, GREY);
    Word16Of(mem, p + 2, length);
    OctetsOf(mem, p + 8, ip);
    Word16Of(mem, p + 12, from);
    Word16Of(mem, p + 14, to);
    Word16Of(mem, p + 16, helo);
  }

  lemma StringParts(mem: seq<Byte>, q: nat, gt: PackedTuple)
    requires IsPackable(gt) && Holds(mem, q, Strings(gt))
    ensures CString(mem, q) == gt.from && CString(mem, q + |gt.from| + 1) == gt.to
    ensures CString(mem, q + |gt.from| + 1 + |gt.to| + 1) == gt.helo
  {
    hide Holds, CString, Terminated, IsText;
    HoldsParts(mem, q, Terminated(gt.from), Terminated(gt.to) + Terminated(gt.helo));
    HoldsParts(mem, q + |gt.from| + 1, Terminated(gt.to), Terminated(gt.helo));
    CStringOf(mem, q, gt.from);
    CStringOf(mem, q + |gt.from| + 1, gt.to);
    CStringOf(mem, q + |gt.from| + 1 + |gt.to| + 1, gt.helo);
  }

  lemma GreyParts(mem: seq<Byte>, p: nat, gt: PackedTuple, now: nat)
    requires IsPackable(gt) && Holds(mem, p, GreyTlv(gt, now))
    ensures Holds(mem, p, GreyHead(|GreyTlv(gt, now)|, now, gt.ip, |gt.from| + 1, |gt.to| + 1, |gt.helo| + 1))
    ensures Holds(mem, p + GREY_SIZE, Strings(gt))
  {
    var n := GreyLength(gt);
    var head := GreyHead(n + PadLength(n), now, gt.ip, |gt.from| + 1, |gt.to| + 1, |gt.helo| + 1);
    hide Holds, GreyHead, Strings, PadLength, Zeros, IsText;
    HoldsParts(mem, p, head, Strings(gt) + Zeros(PadLength(n)));
    HoldsParts(mem, p + GREY_SIZE, Strings(gt), Zeros(PadLength(n)));
  }

  lemma GreyEntryAt(mem: seq<Byte>, p: nat, gt: PackedTuple, now: nat, source: string)
    requires IsPackable(gt) && |GreyTlv(gt, now)| < 0x1_0000 && Holds(mem, p, GreyTlv(gt, now))
    ensures Word16(mem, p) == GREY && Word16(mem, p + 2) == |GreyTlv(gt, now)|
    ensures EntryAt(mem, p, |GreyTlv(gt, now)|, false, source) == Some(GreyLines(gt.ip, gt.helo, gt.from, gt.to))
  {
    hide Holds, CString, Word16, OctetsAt, GreyHead, GreyTlv, Strings, GreyLines, EntryAt;
    var n := |GreyTlv(gt, now)|;
    GreyTlvLength(gt, now);
    GreyParts(mem, p, gt, now);
    HeadParts(mem, p, n, now, gt.ip, |gt.from| + 1, |gt.to| + 1, |gt.helo| + 1);
    StringParts(mem, p + GREY_SIZE, gt);
    GreyEntryOf(mem, p, gt, n, source);
  }

  lemma GreyTlvLength(gt: PackedTuple, now: nat)
    requires IsPackable(gt)
    ensures |GreyTlv(gt, now)| >= GREY_SIZE + |gt.from| + 1 + |gt.to| + 1 + |gt.helo| + 1
  {
  }

  lemma GreyEntryOf(mem: seq<Byte>, p: nat, gt: PackedTuple, n: nat, source: string)
    requires Word16(mem, p) == GREY && OctetsAt(mem, p + 8) == gt.ip
    requires Word16(mem, p + 12) == |gt.from| + 1 && Word16(mem, p + 14) == |gt.to| + 1
    requires Word16(mem, p + 16) == |gt.helo| + 1 && GREY_SIZE + |gt.from| + 1 + |gt.to| + 1 + |gt.helo| + 1 <= n
    requires CString(mem, p + GREY_SIZE) == gt.from && CString(mem, p + GREY_SIZE + |gt.from| + 1) == gt.to
    requires CString(mem, p + GREY_SIZE + |gt.from| + 1 + |gt.to| + 1) == gt.helo
    ensures EntryAt(mem, p, n, false, source) == Some(GreyLines(gt.ip, gt.helo, gt.from, gt.to))
  {
    hide CString, Word16, OctetsAt, GreyLines;
  }

  /** A grey entry followed by the end marker gives one message with its fields. */
  lemma GreyEntry(mem: seq<Byte>, p: nat, gt: PackedTuple, now: nat, len: nat, source: string)
    requires IsPackable(gt) && |GreyTlv(gt, now)| <= len < 0x1_0000 && Holds(mem, p, GreyTlv(gt, now) + END_TLV)
    ensures Entries(mem, p, len, false, source) == [GreyLines(gt.ip, gt.helo, gt.from, gt.to)]
  {
    hide Holds, Word16, EntryAt, Entries, IsText, GreyLines;
    var n := |GreyTlv(gt, now)|;
    HoldsParts(mem, p, GreyTlv(gt, now), END_TLV);
    GreyEntryAt(mem, p, gt, now, source);
    EntriesStep(mem, p, len, false, source);
    EndsThere(mem, p + n, len - n, false, source);
  }

  lemma AddressParts(mem: seq<Byte>, p: nat, kind: nat, ip: Octets, now: nat, expire: nat)
    requires Holds(mem, p, AddressTlv(kind, ip, now, expire))
    ensures Word16(mem, p) == kind % 0x1_0000 && Word16(mem, p + 2) == ADDR_SIZE
    ensures Word32(mem, p + 8) == expire % 0x1_0000_0000 && OctetsAt(mem, p + 12) == ip
  {
    hide Holds, Word16, Word32, OctetsAt;
    var t3 := Be32(expire) + OctetBytes(ip);
    var t2 := Be32(now) + t3;
    HoldsParts(mem, p, Be16(kind), Be16(ADDR_SIZE) + t2);
    HoldsParts(mem, p + 2, Be16(ADDR_SIZE), t2);
    HoldsParts(mem, p + 4, Be32(now), t3);
    HoldsParts(mem, p + 8, Be32(expire), OctetBytes(ip));
    Word16Of(mem, p, kind);
    Word16Of(mem, p + 2, ADDR_SIZE);
    Word32Of(mem, p + 8, expire);
    OctetsOf(mem, p + 12, ip);
  }

  /** A message of an address that is deleted, or of a tuple. */
  predicate Deletes(ls: seq<Line>) {
    |ls| == 6 && (ls[5] == Line("delete", true, Number(1)) || ls[0] == Line("type", true, Number(Greylister.MSG_GREY)))
  }

  lemma {:induction false} AllDeleted(mem: seq<Byte>, p: nat, len: nat, source: string)
    ensures forall ls :: ls in Entries(mem, p, len, true, source) ==> Deletes(ls)
    decreases len
  {
    hide Word16, Word32, CString, OctetsAt, Dotted, Decimal;
    EntriesStep(mem, p, len, true, source);
    var n := Word16(mem, p + 2);
    if TLV_SIZE <= len && n <= len && EntryAt(mem, p, n, true, source).Some? {
      AllDeleted(mem, p + n, len - n, source);
    }
  }

  /** From a deletion on all addresses of a packet are deleted. */
  lemma DeletionSticks(mem: seq<Byte>, p: nat, len: nat, delete: bool, source: string)
    requires Word16(mem, p) in {DEL_WHITE, DEL_TRAPPED}
    ensures forall ls :: ls in Entries(mem, p, len, delete, source) ==> Deletes(ls)
  {
    hide Word16, EntryAt, Deletes, Entries;
    AllDeleted(mem, p, len, source);
    EntriesStep(mem, p, len, delete, source);
    EntriesStep(mem, p, len, true, source);
  }

  /** An address entry followed by the end marker gives one message of its kind; the time it expires is cut to 32
      bits. */
  lemma AddressEntry(mem: seq<Byte>, p: nat, kind: nat, ip: Octets, now: nat, expire: nat, len: nat, source: string)
    requires kind in {WHITE, DEL_WHITE, TRAPPED, DEL_TRAPPED} && ADDR_SIZE <= len
    requires Holds(mem, p, AddressTlv(kind, ip, now, expire) + END_TLV)
    ensures Entries(mem, p, len, false, source) ==
            [AddressLines(MessageKind(kind), ip, source, expire % 0x1_0000_0000, kind in {DEL_WHITE, DEL_TRAPPED})]
  {
    hide Holds, Word16, Word32, OctetsAt, AddressTlv;
    HoldsParts(mem, p, AddressTlv(kind, ip, now, expire), END_TLV);
    AddressParts(mem, p, kind, ip, now, expire);
    EndsThere(mem, p + ADDR_SIZE, len - ADDR_SIZE, false, source);
    EndsThere(mem, p + ADDR_SIZE, len - ADDR_SIZE, true, source);
  }

  lemma HeaderParts(mem: seq<Byte>, length: nat, counter: nat, hmac: seq<Byte>)
    requires Holds(mem, 0, Header(length, counter, hmac))
    ensures mem[0] == VERSION && mem[1] == AF_INET && Word16(mem, 2) == length % 0x1_0000 && mem[8..8 + |hmac|] == hmac
  {
    HoldsParts(mem, 0, Preamble(length, counter), hmac + Zeros(4));
    HoldsParts(mem, 8, hmac, Zeros(4));
    HoldsParts(mem, 0, [VERSION, AF_INET], Be16(length) + Be32(counter));
    HoldsParts(mem, 2, Be16(length), Be32(counter));
    Word16Of(mem, 2, length);
    var two := mem[0..2];
    assert mem[0] == two[0] && mem[1] == two[1];
  }

  lemma UnsignedHolds(mem: seq<Byte>, length: nat, counter: nat, hmac: seq<Byte>, body: seq<Byte>)
    requires |hmac| == HMAC_LEN && Holds(mem, 0, Header(length, counter, hmac) + body)
    ensures Holds(Unsigned(mem), 0, Header(length, counter, Zeros(HMAC_LEN)) + body)
  {
    var pre := Preamble(length, counter);
    hide Preamble;
    var text, blank := Header(length, counter, hmac) + body, Header(length, counter, Zeros(HMAC_LEN)) + body;
    assert text == pre + (hmac + (Zeros(4) + body)) && blank == pre + (Zeros(HMAC_LEN) + (Zeros(4) + body));
    assert HEADER_SIZE <= |text| <= |mem|;
    hide Holds, Zeros;
  }

  lemma PacketParts(mem: seq<Byte>, n: nat, counter: nat, hmac: seq<Byte>, body: seq<Byte>)
    requires |hmac| == HMAC_LEN && HEADER_SIZE + |body| == n < 0x1_0000
             && Holds(mem, 0, Header(n, counter, hmac) + body)
    ensures mem[0] == VERSION && mem[1] == AF_INET && Word16(mem, 2) == n && mem[8..8 + HMAC_LEN] == hmac
    ensures n <= |Unsigned(mem)| && Unsigned(mem)[..n] == Header(n, counter, Zeros(HMAC_LEN)) + body
    ensures Holds(Unsigned(mem), HEADER_SIZE, body)
  {
    hide Word16, Holds, Header, Unsigned;
    HoldsParts(mem, 0, Header(n, counter, hmac), body);
    HeaderParts(mem, n, counter, hmac);
    UnsignedHolds(mem, n, counter, hmac, body);
    HoldsParts(Unsigned(mem), 0, Header(n, counter, Zeros(HMAC_LEN)), body);
  }

  /** Of a packet that was received whole the entries are looked at if its digest is that of the key, with its own
      place left zero; else nothing of it is heard. */
  lemma HeardIfSigned(digest: Digest, key: seq<Byte>, counter: nat, hmac: seq<Byte>, body: seq<Byte>, mem: seq<Byte>,
      len: nat, source: string)
    requires |hmac| == HMAC_LEN && HEADER_SIZE + |body| <= len <= MAXSIZE <= |mem|
    requires Holds(mem, 0, Header(HEADER_SIZE + |body|, counter, hmac) + body)
    ensures var n := HEADER_SIZE + |body|;
            var signed := hmac == digest(key, Header(n, counter, Zeros(HMAC_LEN)) + body);
            Heard(digest, key, mem, len, source)
            == if signed then Entries(Unsigned(mem), HEADER_SIZE, n, false, source) else []
  {
    hide Entries, Word16, Holds, Header, Unsigned;
    PacketParts(mem, HEADER_SIZE + |body|, counter, hmac, body);
  }

  /** Nothing is heard of a packet that is too short or cut off, of another version or family, or not signed. */
  lemma OnlySignedHeard(digest: Digest, key: seq<Byte>, mem: seq<Byte>, len: nat, source: string)
    requires len <= MAXSIZE <= |mem| && Heard(digest, key, mem, len, source) != []
    ensures HEADER_SIZE <= len && mem[0] == VERSION && mem[1] == AF_INET && Word16(mem, 2) <= len
    ensures mem[8..28] == digest(key, (mem[..8] + Zeros(20) + mem[28..])[..Word16(mem, 2)])
  {
    hide Entries, Word16, Zeros;
  }

  /** A packet within the size of the buffer passes the checks, whatever lies behind it in memory. */
  lemma PacketPasses(digest: Digest, key: seq<Byte>, counter: nat, tlv: seq<Byte>, mem: seq<Byte>, source: string)
    requires |Packet(digest, key, counter, tlv)| <= MAXSIZE <= |mem| && Holds(mem, 0, Packet(digest, key, counter, tlv))
    ensures Heard(digest, key, mem, HEADER_SIZE + |tlv| + TLV_SIZE, source)
            == Entries(Unsigned(mem), HEADER_SIZE, HEADER_SIZE + |tlv| + TLV_SIZE, false, source)
    ensures Holds(Unsigned(mem), HEADER_SIZE, tlv + END_TLV)
  {
    var n := HEADER_SIZE + |tlv| + TLV_SIZE;
    var body := tlv + END_TLV;
    var blank := Header(n, counter, Zeros(HMAC_LEN)) + body;
    hide Entries, Word16, Holds, Header, Unsigned;
    PacketParts(mem, n, counter, digest(key, blank), body);
  }

  /** What a server is told of a grey tuple another one hears unchanged. */
  lemma GreyPacketIsHeard(digest: Digest, key: seq<Byte>, counter: nat, gt: PackedTuple, now: nat, mem: seq<Byte>,
      source: string)
    requires IsPackable(gt) && MAXSIZE <= |mem|
    requires |Packet(digest, key, counter, GreyTlv(gt, now))| <= MAXSIZE
    requires Holds(mem, 0, Packet(digest, key, counter, GreyTlv(gt, now)))
    ensures Heard(digest, key, mem, |Packet(digest, key, counter, GreyTlv(gt, now))|, source)
            == [GreyLines(gt.ip, gt.helo, gt.from, gt.to)]
  {
    hide Holds, Entries, GreyTlv, Heard;
    var tlv := GreyTlv(gt, now);
    PacketPasses(digest, key, counter, tlv, mem, source);
    GreyEntry(Unsigned(mem), HEADER_SIZE, gt, now, HEADER_SIZE + |tlv| + TLV_SIZE, source);
  }

  lemma LongParts(mem: seq<Byte>, n: nat, counter: nat, hmac: seq<Byte>, body: seq<Byte>)
    requires |hmac| == HMAC_LEN && MAXSIZE < HEADER_SIZE + |body| == n < 0x1_0000
    requires Holds(mem, 0, (Header(n, counter, hmac) + body)[..MAXSIZE])
    ensures Word16(mem, 2) == n
  {
    hide Word16, Holds, Header;
    var rest := body[..MAXSIZE - HEADER_SIZE];
    assert (Header(n, counter, hmac) + body)[..MAXSIZE] == Header(n, counter, hmac) + rest;
    HoldsParts(mem, 0, Header(n, counter, hmac), rest);
    HeaderParts(mem, n, counter, hmac);
  }

  /** A packet too long for the receiver's buffer is dropped, so a grey tuple is heard exactly when its packet fits. */
  lemma LongPacketIsDropped(digest: Digest, key: seq<Byte>, counter: nat, tlv: seq<Byte>, mem: seq<Byte>,
      source: string)
    requires MAXSIZE < |Packet(digest, key, counter, tlv)| < 0x1_0000 && MAXSIZE <= |mem|
    requires Holds(mem, 0, Packet(digest, key, counter, tlv)[..MAXSIZE])
    ensures Heard(digest, key, mem, MAXSIZE, source) == []
  {
    var n := HEADER_SIZE + |tlv| + TLV_SIZE;
    var body := tlv + END_TLV;
    hide Header, Unsigned, Entries, Holds, Word16;
    LongParts(mem, n, counter, digest(key, Header(n, counter, Zeros(HMAC_LEN)) + body), body);
  }

  /** So it is with a white or trapped address. */
  lemma AddressPacketIsHeard(
      digest: Digest, key: seq<Byte>, counter: nat, kind: nat, ip: Octets, now: nat, expire: nat, mem: seq<Byte>,
      source: string)
    requires kind in {WHITE, DEL_WHITE, TRAPPED, DEL_TRAPPED} && MAXSIZE <= |mem|
    requires Holds(mem, 0, Packet(digest, key, counter, AddressTlv(kind, ip, now, expire)))
    ensures Heard(digest, key, mem, HEADER_SIZE + ADDR_SIZE + TLV_SIZE, source) ==
            [AddressLines(MessageKind(kind), ip, source, expire % 0x1_0000_0000, kind in {DEL_WHITE, DEL_TRAPPED})]
  {
    hide Holds, Entries, AddressTlv, Heard;
    PacketPasses(digest, key, counter, AddressTlv(kind, ip, now, expire), mem, source);
    AddressEntry(Unsigned(mem), HEADER_SIZE, kind, ip, now, expire, HEADER_SIZE + ADDR_SIZE + TLV_SIZE, source);
  }

  // ---------------------------------------------------------------- what the greylister makes of it

  lemma GreyLinesArrive(ip: Octets, helo: string, from: string, to: string, number: string -> Option<int>)
    requires IsQuotable(helo) && IsQuotable(from) && IsQuotable(to)
    ensures IsMessage(GreyLines(ip, helo, from, to))
    ensures MessageOf(Messages.Received(GreyLines(ip, helo, from, to)), number) ==
            Greylister.Message(Greylister.MSG_GREY, Some(Dotted(ip)), Some(Unescaped(helo)), Some(Unescaped(from)),
                               Some(Unescaped(to)), "", None, None, false, false)
  {
    var ls := GreyLines(ip, helo, from, to);
    GreyLinesAreMessage(ip, helo, from, to);
    GreyNames(ls);
    hide Messages.Received, IsMessage, Assigned, Distinct, Dotted, Unescaped, IsPlain, IsQuotable;
    DottedAsRead(ip);
    ReceivedIsAssigned(ls);
    AssignedAt(ls, 0);
    AssignedAt(ls, 1);
    AssignedAt(ls, 2);
    AssignedAt(ls, 3);
    AssignedAt(ls, 4);
    AssignedAt(ls, 5);
    AssignedAbsent(ls, "source", map[]);
    AssignedAbsent(ls, "expires", map[]);
    AssignedAbsent(ls, "delete", map[]);
    AssignedAbsent(ls, "dst_ip", map[]);
  }

  lemma GreyNames(ls: seq<Line>)
    requires |ls| == 6 && ls[0].name == "type" && ls[1].name == "sync" && ls[2].name == "ip" && ls[3].name == "helo"
             && ls[4].name == "from" && ls[5].name == "to"
    ensures Distinct(ls) && Absent(ls, "source") && Absent(ls, "expires") && Absent(ls, "delete")
            && Absent(ls, "dst_ip")
  {
  }

  lemma SyncNames()
    ensures IsName("sync") && IsName("source") && IsName("expires") && IsName("delete")
  {
  }

  lemma GreyLinesAreMessage(ip: Octets, helo: string, from: string, to: string)
    requires IsQuotable(helo) && IsQuotable(from) && IsQuotable(to)
    ensures IsMessage(GreyLines(ip, helo, from, to))
  {
    NamesAreNames();
    MoreNames();
    SyncNames();
    hide IsName, IsPlain, IsQuotable, Dotted;
    DottedAsRead(ip);
  }

  lemma DecimalIsPlain(n: nat)
    requires n < 0x1_0000_0000
    ensures |Decimal(n)| <= 10 && forall i :: 0 <= i < |Decimal(n)| ==> IsDigit(Decimal(n)[i])
  {
    DecimalLength(n, 10);
  }

  lemma DottedIsPlain(ip: Octets)
    ensures IsPlain(Dotted(ip))
  {
    DecimalIsPlain(ip.a);
    DecimalIsPlain(ip.b);
    DecimalIsPlain(ip.c);
    DecimalIsPlain(ip.d);
    hide Decimal;
  }

  lemma DottedAsRead(ip: Octets)
    ensures IsQuotable(Dotted(ip)) && Unescaped(Dotted(ip)) == Dotted(ip)
  {
    DottedIsPlain(ip);
    PlainIff(Dotted(ip));
  }

  lemma DecimalAsRead(n: nat)
    requires n < 0x1_0000_0000
    ensures IsQuotable(Decimal(n)) && Unescaped(Decimal(n)) == Decimal(n)
  {
    DecimalIsPlain(n);
    assert IsPlain(Decimal(n));
    PlainIff(Decimal(n));
  }

  lemma AddressLinesAreMessage(kind: nat, ip: Octets, source: string, expire: nat, delete: bool)
    requires IsQuotable(source) && expire < 0x1_0000_0000
    ensures IsMessage(AddressLines(kind, ip, source, expire, delete))
  {
    NamesAreNames();
    SyncNames();
    hide IsName, IsPlain, IsQuotable, Dotted, Decimal;
    DottedAsRead(ip);
    DecimalAsRead(expire);
  }

  lemma AddressNames(ls: seq<Line>)
    requires |ls| == 6 && ls[0].name == "type" && ls[1].name == "sync" && ls[2].name == "ip" && ls[3].name == "source"
             && ls[4].name == "expires" && ls[5].name == "delete"
    ensures Distinct(ls) && Absent(ls, "helo") && Absent(ls, "from") && Absent(ls, "to") && Absent(ls, "dst_ip")
  {
  }

  lemma AddressLinesArrive(kind: nat, ip: Octets, source: string, expire: nat, delete: bool,
      number: string -> Option<int>)
    requires IsQuotable(source) && expire < 0x1_0000_0000
    ensures IsMessage(AddressLines(kind, ip, source, expire, delete))
    ensures MessageOf(Messages.Received(AddressLines(kind, ip, source, expire, delete)), number) ==
            Greylister.Message(kind, Some(Dotted(ip)), None, None, None, "", Some(Unescaped(source)),
                               Some(number(Decimal(expire))),
                               delete, false)
  {
    var ls := AddressLines(kind, ip, source, expire, delete);
    AddressLinesAreMessage(kind, ip, source, expire, delete);
    AddressNames(ls);
    hide Messages.Received, IsMessage, Assigned, Distinct, Dotted, Decimal, Unescaped, IsPlain, IsQuotable;
    DottedAsRead(ip);
    DecimalAsRead(expire);
    ReceivedIsAssigned(ls);
    AssignedAt(ls, 0);
    AssignedAt(ls, 1);
    AssignedAt(ls, 2);
    AssignedAt(ls, 3);
    AssignedAt(ls, 4);
    AssignedAt(ls, 5);
    AssignedAbsent(ls, "helo", map[]);
    AssignedAbsent(ls, "from", map[]);
    AssignedAbsent(ls, "to", map[]);
    AssignedAbsent(ls, "dst_ip", map[]);
  }

  /** From one server's tuple over the wire and the pipe to the other's greylister, which undoes escapes once. */
  lemma TupleReachesGreylister(
      digest: Digest, key: seq<Byte>, counter: nat, gt: PackedTuple, now: nat, mem: seq<Byte>, source: string,
      number: string -> Option<int>)
    requires IsPackable(gt) && IsQuotable(gt.helo) && IsQuotable(gt.from) && IsQuotable(gt.to) && MAXSIZE <= |mem|
    requires |Packet(digest, key, counter, GreyTlv(gt, now))| <= MAXSIZE
    requires Holds(mem, 0, Packet(digest, key, counter, GreyTlv(gt, now)))
    ensures var heard := Heard(digest, key, mem, |Packet(digest, key, counter, GreyTlv(gt, now))|, source);
            && |heard| == 1 && IsMessage(heard[0])
            && MessageOf(Messages.Received(heard[0]), number) ==
               Greylister.Message(Greylister.MSG_GREY, Some(Dotted(gt.ip)), Some(Unescaped(gt.helo)),
                                  Some(Unescaped(gt.from)), Some(Unescaped(gt.to)), "", None, None, false, false)
  {
    hide *;
    GreyPacketIsHeard(digest, key, counter, gt, now, mem, source);
    GreyLinesArrive(gt.ip, gt.helo, gt.from, gt.to, number);
  }

  ghost predicate IsDotted(s: string) {
    exists ip :: s == Dotted(ip)
  }

  /** The address of a client is heard as it was if and only if it is dotted; that of an IPv6 client is heard as
      255.255.255.255. */
  lemma AddressHeardIff(s: string, inetAddr: string -> Octets)
    requires IsInetAddr(inetAddr)
    ensures Dotted(inetAddr(s)) == s <==> IsDotted(s)
    ensures ':' in s ==> Dotted(inetAddr(s)) == "255.255.255.255"
  {
    if ':' in s {
      NoAddressDotted();
    }
    if ip :| s == Dotted(ip) {
      assert inetAddr(Dotted(ip)) == ip;
    }
  }

  lemma NoAddressDotted()
    ensures Dotted(NO_ADDRESS) == "255.255.255.255"
  {
    assert Decimal(255) == Decimal(25) + "5" && Decimal(25) == Decimal(2) + "5" && Decimal(2) == "2";
  }

  /** What the other greylister hears of a client's tuple. */
  lemma TupleHeardIff(
      digest: Digest, key: seq<Byte>, counter: nat, gt: Grey.Tuple, inetAddr: string -> Octets, now: nat,
      mem: seq<Byte>, source: string, number: string -> Option<int>)
    requires IsInetAddr(inetAddr) && IsPackable(Packed(gt, inetAddr)) && MAXSIZE <= |mem|
    requires IsQuotable(gt.helo) && IsQuotable(gt.from) && IsQuotable(gt.to)
    requires |Packet(digest, key, counter, GreyTlv(Packed(gt, inetAddr), now))| <= MAXSIZE
    requires Holds(mem, 0, Packet(digest, key, counter, GreyTlv(Packed(gt, inetAddr), now)))
    ensures var n := |Packet(digest, key, counter, GreyTlv(Packed(gt, inetAddr), now))|;
            var heard := Heard(digest, key, mem, n, source);
            && |heard| == 1 && IsMessage(heard[0])
            && var m := MessageOf(Messages.Received(heard[0]), number);
            && m == Greylister.Message(Greylister.MSG_GREY, m.ip, Some(Unescaped(gt.helo)), Some(Unescaped(gt.from)),
                                       Some(Unescaped(gt.to)), "", None, None, false, false)
            && (m.ip == Some(gt.ip) <==> IsDotted(gt.ip)) && (':' in gt.ip ==> m.ip == Some("255.255.255.255"))
  {
    hide *;
    PackedParts(gt, inetAddr);
    TupleReachesGreylister(digest, key, counter, Packed(gt, inetAddr), now, mem, source, number);
    AddressHeardIff(gt.ip, inetAddr);
  }

  lemma PackedParts(gt: Grey.Tuple, inetAddr: string -> Octets)
    ensures Packed(gt, inetAddr) == PackedTuple(inetAddr(gt.ip), gt.helo, gt.from, gt.to)
  {
  }

  /** A tuple that came from another server is taken into the table and told to nobody, so it does not go round. */
  lemma HeardTupleStays(
      digest: Digest, key: seq<Byte>, counter: nat, gt: PackedTuple, now: nat, mem: seq<Byte>, source: string,
      number: string -> Option<int>, cfg: Grey.Config, dbDomains: set<string>, spamtraps: set<string>, t: Grey.Table,
      at: int)
    requires IsPackable(gt) && IsQuotable(gt.helo) && IsQuotable(gt.from) && IsQuotable(gt.to) && MAXSIZE <= |mem|
    requires |Packet(digest, key, counter, GreyTlv(gt, now))| <= MAXSIZE
    requires Holds(mem, 0, Packet(digest, key, counter, GreyTlv(gt, now)))
    ensures var heard := Heard(digest, key, mem, |Packet(digest, key, counter, GreyTlv(gt, now))|, source);
            && |heard| == 1 && IsMessage(heard[0])
            && Greylister.ToldOf(cfg, dbDomains, spamtraps, t, MessageOf(Messages.Received(heard[0]), number), at) == []
  {
    hide Packet, GreyTlv, Heard, Holds, Messages.Received, IsMessage, MessageOf, IsQuotable, IsPackable;
    TupleReachesGreylister(digest, key, counter, gt, now, mem, source, number);
  }

  // ---------------------------------------------------------------- the engine in place

  class Engine {
    const digest: Digest
    const key: seq<Byte>
    const greylisting: bool
    const inetAddr: string -> Octets
    var counter: nat

    constructor (digest: Digest, key: seq<Byte>, greylisting: bool, inetAddr: string -> Octets)
      ensures this.digest == digest && this.key == key && this.greylisting == greylisting && counter == 0
      ensures this.inetAddr == inetAddr
    {
      this.digest, this.key, this.greylisting, this.inetAddr, counter := digest, key, greylisting, inetAddr, 0;
    }

    /** Puts header, entry and end marker together, the digest last. */
    method Send(tlv: seq<Byte>) returns (packet: seq<Byte>)
      modifies this
      ensures packet == Packet(digest, key, old(counter), tlv) && counter == old(counter) + 1
    {
      var length := HEADER_SIZE + |tlv| + TLV_SIZE;
      var preamble := [VERSION, AF_INET] + (Be16(length) + Be32(counter));
      counter := counter + 1;
      var rest := tlv + END_TLV;
      var hmac := digest(key, preamble + (Zeros(HMAC_LEN) + Zeros(4)) + rest);
      packet := preamble + (hmac + Zeros(4)) + rest;
    }

    method Update(gt: Grey.Tuple, now: nat) returns (packet: seq<Byte>)
      requires IsPackable(Packed(gt, inetAddr))
      modifies this
      ensures packet == Packet(digest, key, old(counter), GreyTlv(Packed(gt, inetAddr), now))
      ensures counter == old(counter) + 1
    {
      var length := GREY_SIZE + |gt.from| + 1 + |gt.to| + 1 + |gt.helo| + 1;
      var pad := (length + 15) / 16 * 16 - length;
      var tlv := GreyHead(length + pad, now, inetAddr(gt.ip), |gt.from| + 1, |gt.to| + 1, |gt.helo| + 1);
      tlv := tlv + (Terminated(gt.from) + (Terminated(gt.to) + Terminated(gt.helo)) + Zeros(pad));
      packet := Send(tlv);
    }

    method Address(ip: string, now: nat, expire: nat, trapped: bool, delete: bool) returns (packet: seq<Byte>)
      modifies this
      ensures packet == Packet(digest, key, old(counter),
                               AddressTlv(if trapped then if delete then DEL_TRAPPED else TRAPPED
                                          else if delete then DEL_WHITE else WHITE, inetAddr(ip), now, expire))
      ensures counter == old(counter) + 1
    {
      var kind := if trapped then TRAPPED else WHITE;
      if delete {
        kind := if trapped then DEL_TRAPPED else DEL_WHITE;
      }
      packet := Send(AddressTlv(kind, inetAddr(ip), now, expire));
    }

    /** Checks a packet and tells the greylister its entries, one after the other. */
    method Recv(mem: seq<Byte>, received: nat, source: string) returns (out: seq<seq<Line>>)
      requires received <= MAXSIZE <= |mem|
      ensures out == if greylisting then Heard(digest, key, mem, received, source) else []
    {
      out := [];
      hide Word16;
      if received < HEADER_SIZE || mem[0] != VERSION || mem[1] != AF_INET || received < Word16(mem, 2) {
        return;
      }
      var len := Word16(mem, 2);
      var buf := mem[..8] + Zeros(HMAC_LEN) + mem[8 + HMAC_LEN..];
      assert |buf| == |mem|;
      if mem[8..8 + HMAC_LEN] != digest(key, buf[..len]) {
        return;
      }
      hide Entries;
      out := ReadEntries(buf, len, source);
    }

    method ReadEntries(buf: seq<Byte>, length: nat, source: string) returns (out: seq<seq<Line>>)
      ensures out == if greylisting then Entries(buf, HEADER_SIZE, length, false, source) else []
    {
      hide EntryAt, Word16, Entries;
      out := [];
      var len: nat, p: nat, delete := length, HEADER_SIZE, false;
      ghost var heard := [];
      while len != 0
        invariant heard + Entries(buf, p, len, delete, source) == Entries(buf, HEADER_SIZE, length, false, source)
        invariant out == if greylisting then heard else []
        decreases len
      {
        ghost var delete0 := delete;
        var n := Word16(buf, p + 2);
        if len < TLV_SIZE || len < n {
          EntriesStep(buf, p, len, delete0, source);
          return;
        }
        if Word16(buf, p) in {DEL_WHITE, DEL_TRAPPED} {
          delete := true;
        }
        var entry := Entry(buf, p, n, delete, source);
        EntriesStep(buf, p, len, delete0, source);
        if entry.None? {
          return;
        }
        Regroup(heard, entry.value, Entries(buf, p + n, len - n, delete, source));
        heard := heard + [entry.value];
        if greylisting {
          out := out + [entry.value];
        }
        len := len - n;
        p := p + n;
      }
      EntriesStep(buf, p, len, delete, source);
      assert heard + [] == heard;
    }

    method Entry(buf: seq<Byte>, p: nat, n: nat, delete: bool, source: string) returns (lines: Option<seq<Line>>)
      ensures lines == EntryAt(buf, p, n, delete, source)
    {
      lines := None;
      match Word16(buf, p) {
        case 1 =>
          var from, to, helo := Word16(buf, p + 12), Word16(buf, p + 14), Word16(buf, p + 16);
          if GREY_SIZE + from + to + helo <= n {
            var q := p + GREY_SIZE;
            lines := Some(GreyLines(OctetsAt(buf, p + 8), CString(buf, q + from + to), CString(buf, q),
                CString(buf, q + from)));
          }
        case 2 | 4 =>
          if n == ADDR_SIZE {
            lines := Some(AddressLines(Greylister.MSG_WHITE, OctetsAt(buf, p + 12), source, Word32(buf, p + 8),
                delete));
          }
        case 3 | 5 =>
          if n == ADDR_SIZE {
            lines := Some(AddressLines(Greylister.MSG_TRAP, OctetsAt(buf, p + 12), source, Word32(buf, p + 8), delete));
          }
        case _ =>
      }
    }
  }
}
