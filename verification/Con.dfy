/** One client connection: its fields and what one step of the SMTP dialogue makes of them. */
module Con {
  import opened Wrappers
  import opened Fold
  import opened Reply

  datatype State =
    | ProxyIn | ProxyOut | BannerIn | BannerOut | HeloIn | HeloOut | MailIn | MailOut | RcptIn | RcptOut
    | DataIn | DataOut | Message | Reply | Close

  /** The numbers of the states, by which they are compared. */
  function Code(s: State): int {
    match s
    case ProxyIn => -3 case ProxyOut => -2 case BannerIn => -1 case BannerOut => 0 case HeloIn => 1
    case HeloOut => 2 case MailIn => 3 case MailOut => 4 case RcptIn => 5 case RcptOut => 6
    case DataIn => 50 case DataOut => 60 case Message => 70 case Reply => 98 case Close => 99
  }

  const IN_SIZE := 8191
  const MAX_BAD_CMD := 20

  /** `fd` is -1 when the slot is free; `serial` numbers the accepted connections; `r` and `w` are the times from which
      reading and writing is wanted, or 0; `inBuf` holds the input up to its terminating zero. */
  datatype Con = Con(
    fd: int, serial: nat, state: State, lastState: State,
    srcAddr: string, dstAddr: string, helo: string, mail: string, rcpt: string, blacklists: seq<string>,
    r: int, w: int, s: int, inBuf: string, inP: nat, inRemaining: int, out: OutBuffer,
    dataLines: int, dataBody: bool, stutter: int, badCmd: int, seenCr: bool)

  /** How the line of a proxy was taken: not at all, refused with this source address left behind, or accepted. */
  datatype ProxyLine = Refused | Failed(src: string) | Accepted(src: string, dst: string)

  /** What a step needs from outside. `origDst` is the answer to the query for the original destination, if any. */
  datatype Env = Env(
    now: int, hostname: string, banner: string, timeText: string, errorCode: string, greylist: bool,
    proxy: ProxyLine, origDst: Option<string>)

  /** What the greylister is told about a recipient. */
  datatype Report = Report(dst: string, src: string, helo: string, from: string, to: string)

  // ---------------------------------------------------------------- commands

  predicate Matches(buf: string, word: string) {
    |word| <= |buf| && EqualFold(buf[..|word|], word)
  }

  datatype Command = Quit | Rset | Helo | Ehlo | Mail | Rcpt | Data | Noop | Unknown

  function CommandOf(buf: string): Command {
    if Matches(buf, "QUIT") then Quit else if Matches(buf, "RSET") then Rset
    else if Matches(buf, "HELO") then Helo else if Matches(buf, "EHLO") then Ehlo
    else if Matches(buf, "MAIL") then Mail else if Matches(buf, "RCPT") then Rcpt
    else if Matches(buf, "DATA") then Data else if Matches(buf, "NOOP") then Noop else Unknown
  }

  /** The eight words exclude one another, so the order in which they are tried does not matter. */
  lemma CommandIsItsWord(buf: string)
    ensures CommandOf(buf) == Quit <==> Matches(buf, "QUIT")
    ensures CommandOf(buf) == Rset <==> Matches(buf, "RSET")
    ensures CommandOf(buf) == Helo <==> Matches(buf, "HELO")
    ensures CommandOf(buf) == Ehlo <==> Matches(buf, "EHLO")
    ensures CommandOf(buf) == Mail <==> Matches(buf, "MAIL")
    ensures CommandOf(buf) == Rcpt <==> Matches(buf, "RCPT")
    ensures CommandOf(buf) == Data <==> Matches(buf, "DATA")
    ensures CommandOf(buf) == Noop <==> Matches(buf, "NOOP")
  {
    if |buf| >= 4 {
      var h := buf[..4];
      assert forall w: string :: |w| == 4 && EqualFold(h, w) ==>
          Lower(h[0]) == Lower(w[0]) && Lower(h[1]) == Lower(w[1]);
    }
  }

  function SkipBlanks(s: string): string {
    if s != "" && (s[0] == ' ' || s[0] == '\t') then SkipBlanks(s[1..]) else s
  }

  /** The part of `s` before the first blank or end of line. */
  function Word(s: string): string {
    if s == "" || s[0] in " \t\n\r" then "" else [s[0]] + Word(s[1..])
  }

  function Clipped(s: string): string {
    if |s| > 1023 then s[..1023] else s
  }

  /** The argument of HELO or EHLO. */
  function HeloArgument(buf: string): string
    requires |buf| >= 4
  {
    Clipped(Word(SkipBlanks(buf[4..])))
  }

  function AfterColon(s: string): Option<string> {
    if s == "" then None else if s[0] == ':' then Some(s[1..]) else AfterColon(s[1..])
  }

  /** The argument of MAIL or RCPT, empty when there is no colon. */
  function AddressArgument(buf: string): string {
    match AfterColon(buf) case None => "" case Some(a) => Clipped(Word(SkipBlanks(a)))
  }

  function Cleaned(s: string): string {
    if s == "" then "" else (if s[0] in "\\\"><" then [] else [Lower(s[0])]) + Cleaned(s[1..])
  }

  /** Writes the cleaned address over the field, whose former contents show behind a shorter one. */
  function Normalized(addr: string, field: string): string {
    var a := Cleaned(if addr != "" && addr[0] == '<' then addr[1..] else addr);
    a + if |a| < |field| then field[|a|..] else ""
  }

  // ---------------------------------------------------------------- message body

  datatype Body = Body(done: bool, body: bool, lines: int)

  function LineOf(buf: string, p: nat, q: nat): string
    requires p <= q <= |buf|
  {
    if p < q && buf[q - 1] == '\r' then buf[p..q - 1] else buf[p..q]
  }

  /** Goes through the lines of a piece of the message from `q` on, where `p` starts the current line. After a line end
      the next character is not looked at. */
  function BodyFrom(buf: string, p: nat, q: nat, body: bool, lines: int): Body
    requires p <= q
    decreases |buf| + 2 - q
  {
    if q > |buf| then Body(false, body, lines)
    else if q < |buf| && buf[q] != '\n' then BodyFrom(buf, p, q + 1, body, lines)
    else
      var line := LineOf(buf, p, q);
      if line == "." then Body(true, body, lines)
      else if body && lines + 1 >= 10 then Body(true, body, lines + 1)
      else BodyFrom(buf, q + 1, q + 2, body || line == "", if body then lines + 1 else lines)
  }

  // ---------------------------------------------------------------- one step

  /** The same connection, with the same input. */
  predicate SameClient(c: Con, d: Con) {
    d.fd == c.fd && d.serial == c.serial && d.blacklists == c.blacklists && d.inBuf == c.inBuf
  }

  function Await(c: Con, next: State, now: int): (d: Con)
    ensures SameClient(c, d)
  {
    c.(inP := 0, inRemaining := IN_SIZE, lastState := c.state, state := next, r := now)
  }

  function Answer(c: Con, text: string, last: State, next: State, now: int): (d: Con)
    ensures SameClient(c, d)
  {
    c.(out := Pending(text, 0, |text|), w := now + c.stutter, lastState := last, state := next)
  }

  /** The final reply, after which the connection is closed. */
  function Finish(c: Con, last: State, env: Env): (d: Con)
    ensures SameClient(c, d)
  {
    c.(out := ReplyOutput(c.blacklists, env.errorCode, c.srcAddr, c.out),
       w := env.now + c.stutter, lastState := last, state := Close)
  }

  function Banner(env: Env): string {
    "220 " + env.hostname + " ESMTP " + env.banner + "; " + env.timeText + "\r\n"
  }

  predicate Greylisted(c: Con, env: Env) {
    env.greylist && c.blacklists == []
  }

  /** The answer to a line of input that is a command. */
  function Obeyed(c: Con, cmd: Command, env: Env): (d: Con)
    ensures SameClient(c, d)
  {
    var ready := c.(inP := 0, inRemaining := IN_SIZE);
    if cmd in {Helo, Ehlo} && c.state == HeloIn then
      var arg := if |c.inBuf| >= 4 then HeloArgument(c.inBuf) else "";
      if arg == "" then
        Answer(c.(helo := arg), "501 Syntax: " + (if cmd == Helo then "HELO" else "EHLO") + " hostname\r\n",
               HeloIn, BannerOut, env.now)
      else Answer(c.(helo := arg), "250 " + env.hostname + "\r\n", HeloIn, HeloOut, env.now)
    else if cmd == Mail && c.state in {HeloIn, MailIn} then
      Answer(c.(mail := Normalized(AddressArgument(c.inBuf), c.mail)), "250 OK\r\n", c.state, MailOut, env.now)
    else if cmd == Rcpt && c.state in {HeloIn, MailIn, RcptIn} then
      var rcpt := Normalized(AddressArgument(c.inBuf), c.rcpt);
      var d := c.(rcpt := rcpt,
                  dstAddr := if c.mail != "" && rcpt != "" && Greylisted(c, env) && env.origDst.Some?
                             then env.origDst.value else c.dstAddr);
      Answer(d, "250 OK\r\n", c.state, RcptOut, env.now)
    else if cmd == Data then
      var d := Answer(ready, "354 End data with <CR><LF>.<CR><LF>\r\n", c.lastState, DataOut, env.now);
      if Greylisted(c, env) then Finish(d, Reply, env) else d
    else if cmd == Noop then Answer(ready, "250 OK\r\n", c.lastState, c.lastState, env.now)
    else if c.badCmd + 1 > MAX_BAD_CMD then
      Finish(c.(badCmd := c.badCmd + 1, out := c.out.(buf := "500 Command unrecognized\r\n")), Reply, env)
    else Answer(ready.(badCmd := c.badCmd + 1), "500 Command unrecognized\r\n", c.lastState, c.lastState, env.now)
  }

  function Dialogue(c: Con, env: Env): Con {
    Obeyed(c, CommandOf(c.inBuf), env)
  }

  /** What follows on the command found in the input buffer, where `PROXY` counts only for a connection that waits for
      it. The step out of `Close` is the server's. */
  function Followed(c: Con, cmd: Command, env: Env): (d: Con)
    ensures SameClient(c, d)
  {
    if cmd == Quit && c.state != Close then Answer(c, "221 " + env.hostname + "\r\n", c.state, Close, env.now)
    else if cmd == Rset && c.state in {MailIn, MailOut, RcptIn, RcptOut} then
        Answer(c, "250 OK\r\n", c.state, HeloOut, env.now)
    else match c.state
      case ProxyIn => Await(c, ProxyOut, env.now)
      case ProxyOut =>
        if !Matches(c.inBuf, "PROXY") then Finish(c, ProxyOut, env) else
        (match env.proxy
         case Refused => Finish(c, ProxyOut, env)
         case Failed(src) => Finish(c.(srcAddr := src), ProxyOut, env)
         case Accepted(src, dst) => Answer(c.(srcAddr := src, dstAddr := dst), Banner(env), ProxyOut, BannerOut,
                                           env.now))
      case BannerIn => Answer(c, Banner(env), BannerIn, BannerOut, env.now)
      case BannerOut => Await(c, HeloIn, env.now)
      case HeloOut => Await(c, MailIn, env.now)
      case MailOut => Await(c, RcptIn, env.now)
      case RcptOut => Await(c, RcptIn, env.now)
      case DataOut => Await(c, Message, env.now)
      case HeloIn => Obeyed(c, cmd, env)
      case MailIn => Obeyed(c, cmd, env)
      case RcptIn => Obeyed(c, cmd, env)
      case DataIn => Obeyed(c, cmd, env)
      case Message =>
        var b := BodyFrom(if c.inP <= |c.inBuf| then c.inBuf[..c.inP] else c.inBuf, 0, 0, c.dataBody, c.dataLines);
        var d := c.(dataBody := b.body, dataLines := b.lines);
        if b.done then Finish(d, Reply, env) else d.(inP := 0, inRemaining := IN_SIZE, r := env.now)
      case Reply => Finish(c, Reply, env)
      case Close => c
  }

  /** The step a connection takes when its input is complete or its output is written. */
  function Next(c: Con, env: Env): (d: Con)
    ensures SameClient(c, d)
  {
    Followed(c, CommandOf(c.inBuf), env)
  }

  /** Only a client on no blacklist is reported, and only with a sender and a recipient. */
  function ReportOf(c: Con, env: Env): Option<Report> {
    if CommandOf(c.inBuf) == Rcpt && c.state in {HeloIn, MailIn, RcptIn} && Greylisted(c, env) && c.mail != ""
       && Normalized(AddressArgument(c.inBuf), c.rcpt) != "" then
      Some(Report(if env.origDst.Some? then env.origDst.value else c.dstAddr, c.srcAddr, c.helo, c.mail,
                  Normalized(AddressArgument(c.inBuf), c.rcpt)))
    else None
  }
}
