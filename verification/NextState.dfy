/** The step of one connection, with the source's falling through from one state's code into the next. */
module NextState {
  import opened Wrappers
  import opened Reply
  import opened Con

  /** Goes through the lines of a piece of the message. */
  method ScanBody(buf: string, body0: bool, lines0: int) returns (b: Body)
    ensures b == BodyFrom(buf, 0, 0, body0, lines0)
  {
    var p, q, body, lines := 0, 0, body0, lines0;
    while q <= |buf|
      invariant 0 <= p <= q <= |buf| + 2
      invariant BodyFrom(buf, p, q, body, lines) == BodyFrom(buf, 0, 0, body0, lines0)
      decreases |buf| + 2 - q
    {
      if q == |buf| || buf[q] == '\n' {
        var line := LineOf(buf, p, q);
        if line == "." {
          return Body(true, body, lines);
        }
        if body {
          lines := lines + 1;
          if lines >= 10 {
            return Body(true, body, lines);
          }
        }
        if !body && line == "" {
          body := true;
        }
        q := q + 1;
        p := q;
      }
      q := q + 1;
    }
    return Body(false, body, lines);
  }

  predicate ValidSource(src: string) {
    src != "" && '\n' !in src
  }

  predicate ValidEnv(env: Env) {
    && env.errorCode != ""
    && (env.proxy.Failed? ==> ValidSource(env.proxy.src)) && (env.proxy.Accepted? ==> ValidSource(env.proxy.src))
  }

  method Done(c0: Con, env: Env) returns (c: Con)
    requires ValidSource(c0.srcAddr) && ValidEnv(env)
    ensures c == Finish(c0, c0.state, env)
  {
    c := c0;
    var o := BuildReply(c.blacklists, env.errorCode, c.srcAddr, c.out);
    c := c.(out := o);
    c := c.(w := env.now + c.stutter);
    c := c.(lastState := c.state);
    c := c.(state := Close);
  }

  /** Puts a text into the output buffer and points the writer at it. */
  method Put(c0: Con, text: string, now: int) returns (c: Con)
    ensures c == c0.(out := Pending(text, 0, |text|), w := now + c0.stutter)
  {
    c := c0.(out := c0.out.(buf := text));
    c := c.(out := c.out.(p := 0));
    c := c.(out := c.out.(remaining := |c.out.buf|));
    c := c.(w := now + c.stutter);
  }

  /** Makes room for the next input. */
  method Clear(c0: Con) returns (c: Con)
    ensures c == c0.(inP := 0, inRemaining := IN_SIZE)
  {
    c := c0.(inP := 0);
    c := c.(inRemaining := IN_SIZE);
  }

  method Listen(c0: Con, next: State, now: int) returns (c: Con)
    ensures c == Await(c0, next, now)
  {
    c := Clear(c0);
    c := c.(lastState := c.state);
    c := c.(state := next);
    c := c.(r := now);
  }

  method SendBanner(c0: Con, env: Env) returns (c: Con)
    ensures c == Answer(c0, Banner(env), c0.state, BannerOut, env.now)
  {
    c := Put(c0, Banner(env), env.now);
    c := c.(lastState := c.state);
    c := c.(state := BannerOut);
  }

  method StepHelo(c0: Con, env: Env) returns (c: Con)
    requires CommandOf(c0.inBuf) in {Helo, Ehlo} && c0.state == HeloIn
    ensures c == Dialogue(c0, env)
  {
    var next := HeloOut;
    c := c0.(helo := "");
    c := c.(helo := HeloArgument(c.inBuf));
    var text := "250 " + env.hostname + "\r\n";
    if c.helo == "" {
      next := BannerOut;
      text := "501 Syntax: " + (if CommandOf(c.inBuf) == Helo then "HELO" else "EHLO") + " hostname\r\n";
    }
    c := Put(c, text, env.now);
    c := c.(lastState := c.state);
    c := c.(state := next);
  }

  method StepMail(c0: Con, env: Env) returns (c: Con)
    requires CommandOf(c0.inBuf) == Mail && c0.state in {HeloIn, MailIn}
    ensures c == Dialogue(c0, env)
  {
    c := c0.(mail := Normalized(AddressArgument(c0.inBuf), c0.mail));
    c := Put(c, "250 OK\r\n", env.now);
    c := c.(lastState := c.state);
    c := c.(state := MailOut);
  }

  method StepRcpt(c0: Con, env: Env) returns (c: Con, report: Option<Report>)
    requires CommandOf(c0.inBuf) == Rcpt && c0.state in {HeloIn, MailIn, RcptIn}
    ensures c == Dialogue(c0, env) && report == ReportOf(c0, env)
  {
    report := None;
    c := c0.(rcpt := Normalized(AddressArgument(c0.inBuf), c0.rcpt));
    c := Put(c, "250 OK\r\n", env.now);
    c := c.(lastState := c.state);
    c := c.(state := RcptOut);
    if c.mail != "" && c.rcpt != "" {
      if env.greylist && |c.blacklists| == 0 {
        if env.origDst.Some? {
          c := c.(dstAddr := env.origDst.value);
        }
        report := Some(Report(c.dstAddr, c.srcAddr, c.helo, c.mail, c.rcpt));
      }
    }
  }

  method StepData(c0: Con, env: Env) returns (c: Con)
    requires CommandOf(c0.inBuf) == Data && ValidSource(c0.srcAddr) && ValidEnv(env)
    ensures c == Dialogue(c0, env)
  {
    c := c0.(state := DataOut);
    c := Clear(c);
    c := Put(c, "354 End data with <CR><LF>.<CR><LF>\r\n", env.now);
    if env.greylist && |c.blacklists| == 0 {
      c := c.(lastState := c.state);
      c := c.(state := State.Reply);
      c := Done(c, env);
    }
  }

  /** The code of the label `spam`, where no earlier command applied. */
  ghost predicate Unhandled(c: Con) {
    var cmd := CommandOf(c.inBuf);
    !(cmd in {Helo, Ehlo} && c.state == HeloIn) && !(cmd == Mail && c.state in {HeloIn, MailIn})
    && !(cmd == Rcpt && c.state in {HeloIn, MailIn, RcptIn}) && cmd != Data
  }

  /** NOOP and everything that was not recognised. */
  method StepOther(c0: Con, env: Env) returns (c: Con)
    requires Unhandled(c0) && ValidSource(c0.srcAddr) && ValidEnv(env)
    ensures c == Dialogue(c0, env)
  {
    hide CommandOf, ReplyOutput, ValidSource, ValidEnv;
    c := c0;
    var text := "250 OK\r\n";
    if CommandOf(c.inBuf) != Noop {
      text := "500 Command unrecognized\r\n";
      c := c.(out := c.out.(buf := text));
      c := c.(badCmd := c.badCmd + 1);
      if c.badCmd > MAX_BAD_CMD {
        c := c.(lastState := c.state);
        c := c.(state := State.Reply);
        c := Done(c, env);
        return;
      }
    }
    c := c.(state := c.lastState);
    c := Clear(c);
    c := Put(c, text, env.now);
  }

  /** A line of input, tried against the commands of its state and of the states that its code falls through to. */
  method StepCommand(c0: Con, env: Env) returns (c: Con, report: Option<Report>)
    requires c0.state in {HeloIn, MailIn, RcptIn, DataIn} && ValidSource(c0.srcAddr) && ValidEnv(env)
    ensures c == Dialogue(c0, env) && report == ReportOf(c0, env)
  {
    report := None;
    if c0.state == HeloIn {
      if CommandOf(c0.inBuf) == Helo || CommandOf(c0.inBuf) == Ehlo {
        c := StepHelo(c0, env);
        return;
      }
    }
    if c0.state == HeloIn || c0.state == MailIn {
      if CommandOf(c0.inBuf) == Mail {
        c := StepMail(c0, env);
        return;
      }
    }
    if c0.state != DataIn {
      if CommandOf(c0.inBuf) == Rcpt {
        c, report := StepRcpt(c0, env);
        return;
      }
    }
    if CommandOf(c0.inBuf) == Data {
      c := StepData(c0, env);
    } else {
      c := StepOther(c0, env);
    }
  }

  method StepProxy(c0: Con, env: Env) returns (c: Con)
    requires c0.state == ProxyOut && CommandOf(c0.inBuf) != Quit && ValidSource(c0.srcAddr) && ValidEnv(env)
    ensures c == Next(c0, env)
  {
    c := c0;
    if Matches(c.inBuf, "PROXY") && !env.proxy.Refused? {
      c := c.(srcAddr := env.proxy.src);
      if env.proxy.Accepted? {
        c := c.(dstAddr := env.proxy.dst);
        c := SendBanner(c, env);
        return;
      }
    }
    c := Done(c, env);
  }

  method StepMessage(c0: Con, env: Env) returns (c: Con)
    requires c0.state == Message && CommandOf(c0.inBuf) != Quit && ValidSource(c0.srcAddr) && ValidEnv(env)
    ensures c == Next(c0, env)
  {
    c := c0;
    var b := ScanBody(if c.inP <= |c.inBuf| then c.inBuf[..c.inP] else c.inBuf, c.dataBody, c.dataLines);
    c := c.(dataBody := b.body, dataLines := b.lines);
    if b.done {
      c := c.(lastState := c.state);
      c := c.(state := State.Reply);
      c := Done(c, env);
    } else {
      c := Clear(c);
      c := c.(r := env.now);
    }
  }

  /** QUIT at any time, and RSET once the client has said hello and before its message. */
  method StepAnytime(c0: Con, env: Env) returns (c: Con, handled: bool)
    ensures handled == ((CommandOf(c0.inBuf) == Quit && c0.state != Close)
                        || (CommandOf(c0.inBuf) == Rset && c0.state in {MailIn, MailOut, RcptIn, RcptOut}))
    ensures handled ==> c == Next(c0, env)
    ensures !handled ==> c == c0
  {
    c, handled := c0, false;
    if CommandOf(c.inBuf) == Quit && Code(c.state) < Code(Close) {
      c := Put(c, "221 " + env.hostname + "\r\n", env.now);
      c := c.(lastState := c.state);
      c := c.(state := Close);
      handled := true;
    } else if CommandOf(c.inBuf) == Rset && Code(HeloOut) < Code(c.state) < Code(DataIn) {
      c := Put(c, "250 OK\r\n", env.now);
      c := c.(lastState := c.state);
      c := c.(state := HeloOut);
      handled := true;
    }
  }

  /** `closing` tells that the connection is to be closed. */
  method NextState(c0: Con, env: Env) returns (c: Con, report: Option<Report>, closing: bool)
    requires ValidSource(c0.srcAddr) && ValidEnv(env)
    ensures c == Next(c0, env) && report == ReportOf(c0, env)
    ensures closing == (c0.state == Close)
  {
    report, closing := None, false;
    var handled;
    c, handled := StepAnytime(c0, env);
    if handled {
      return;
    }
    match c0.state
    case ProxyIn => c := Listen(c0, ProxyOut, env.now);
    case ProxyOut => c := StepProxy(c0, env);
    case BannerIn => c := SendBanner(c0, env);
    case BannerOut => c := Listen(c0, HeloIn, env.now);
    case HeloIn => c, report := StepCommand(c0, env);
    case HeloOut => c := Listen(c0, MailIn, env.now);
    case MailIn => c, report := StepCommand(c0, env);
    case MailOut => c := Listen(c0, RcptIn, env.now);
    case RcptIn => c, report := StepCommand(c0, env);
    case RcptOut => c := Listen(c0, RcptIn, env.now);
    case DataIn => c, report := StepCommand(c0, env);
    case DataOut => c := Listen(c0, Message, env.now);
    case Message => c := StepMessage(c0, env);
    case Reply => c := Done(c0, env);
    case Close => closing := true;
  }
}
