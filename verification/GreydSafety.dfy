/** What holds of every connection and of the counters after any sequence of events. */
module GreydSafety {
  import opened Reply
  import opened Con
  import opened NextState

  // ---------------------------------------------------------------- the dialogue

  /** Waiting for input, and the state before. */
  predicate LegalReading(s: State, last: State) {
    match s
    case ProxyOut => last == ProxyIn
    case HeloIn => last == BannerOut
    case MailIn => last == HeloOut
    case RcptIn => last in {MailOut, RcptOut}
    case Message => last == DataOut
    case _ => false
  }

  /** Sending an answer, and the state before. */
  predicate LegalWriting(s: State, last: State) {
    match s
    case BannerOut => last in {BannerIn, ProxyOut, HeloIn, BannerOut}
    case HeloOut => last in {HeloIn, HeloOut, MailIn, RcptIn}
    case MailOut => last in {HeloIn, MailIn, MailOut}
    case RcptOut => last in {HeloIn, MailIn, RcptIn, RcptOut}
    case DataOut => last in {BannerOut, HeloOut, MailOut, RcptOut}
    case Close => last in {ProxyOut, HeloIn, MailIn, RcptIn, Message, State.Reply}
    case _ => false
  }

  /** The command still in the buffer while an answer is sent does not act a second time. */
  predicate Spent(s: State, cmd: Command) {
    && (s != Close ==> cmd != Quit)
    && (s in {MailOut, RcptOut} ==> cmd != Rset)
  }

  /** What is asked of the blacklists' messages: some message does not itself end in a newline. Else nothing of the
      final reply is marked for writing. */
  predicate GoodLists(blacklists: seq<string>) {
    blacklists != [] ==> SomeNeedsNewline(blacklists, "0")
  }

  /** How a message ends does not depend on the client's address. */
  lemma {:induction false} SourceIrrelevant(fmt: string, src: string)
    requires ValidSource(src)
    ensures Expand(fmt, src).saved == Expand(fmt, "0").saved
    ensures Expand(fmt, src).out == "" <==> Expand(fmt, "0").out == ""
    ensures EndsLine(Expand(fmt, src).out) == EndsLine(Expand(fmt, "0").out)
  {
    if fmt != "" {
      SourceIrrelevant(fmt[..|fmt| - 1], src);
    }
  }

  lemma {:induction false} SomeSourceIrrelevant(messages: seq<string>, src: string)
    requires ValidSource(src)
    ensures SomeNeedsNewline(messages, src) == SomeNeedsNewline(messages, "0")
  {
    if messages != [] {
      SourceIrrelevant(messages[|messages| - 1], src);
      SomeSourceIrrelevant(messages[..|messages| - 1], src);
    }
  }

  predicate Steady(c: Con) {
    ValidSource(c.srcAddr) && c.stutter >= 0 && GoodLists(c.blacklists) && 0 <= c.badCmd && c.inP <= |c.inBuf|
  }

  /** Waiting for input: something can be read, nothing is left to write. */
  predicate IsReading(c: Con) {
    && c.r > 0 && c.w == 0 && 0 < c.inRemaining && c.out.remaining == 0
    && LegalReading(c.state, c.lastState) && c.badCmd <= MAX_BAD_CMD
  }

  /** Sending: something is left to write, and it lies within the buffer. */
  predicate IsWriting(c: Con, cmd: Command) {
    && c.w > 0 && c.r == 0 && c.out.remaining > 0 && c.out.p + c.out.remaining <= |c.out.buf|
    && LegalWriting(c.state, c.lastState) && Spent(c.state, cmd) && (c.state != Close ==> c.badCmd <= MAX_BAD_CMD)
  }

  predicate OkAfter(c: Con, cmd: Command) {
    Steady(c) && (IsReading(c) || IsWriting(c, cmd))
  }

  /** What holds of every open connection between two events. */
  predicate ConOk(c: Con) {
    OkAfter(c, CommandOf(c.inBuf))
  }

  /** Between the end of input or output and the step that follows. */
  predicate ReadyFor(c: Con, cmd: Command) {
    && Steady(c) && c.r == 0 && c.w == 0 && c.out.remaining == 0 && c.badCmd <= MAX_BAD_CMD
    && (LegalReading(c.state, c.lastState)
        || (LegalWriting(c.state, c.lastState) && c.state != Close && Spent(c.state, cmd))
        || (c.state in {ProxyIn, BannerIn} && cmd == Unknown))
  }

  predicate Ready(c: Con) {
    ReadyFor(c, CommandOf(c.inBuf))
  }

  predicate GoodEnv(env: Env) {
    ValidEnv(env) && env.now > 0
  }

  lemma FinishIsWriting(c: Con, last: State, env: Env)
    requires Steady(c) && GoodEnv(env) && (c.blacklists != [] ==> c.out.remaining == 0)
    ensures var d := Finish(c, last, env);
            d.out.remaining > 0 && d.out.p + d.out.remaining <= |d.out.buf| && d.w > 0
  {
    if c.blacklists != [] {
      SomeSourceIrrelevant(c.blacklists, c.srcAddr);
      SomethingPendingIff(c.blacklists, env.errorCode, c.srcAddr, 0);
      RemainingWithin(c.blacklists, env.errorCode, c.srcAddr, 0);
    }
  }

  /** For a blacklisted client with nothing left to write, the final reply leaves something to write exactly when some
      message does not itself end in a newline. */
  lemma FinalReplyPendingIff(c: Con, last: State, env: Env)
    requires c.blacklists != [] && c.out.remaining == 0
    ensures Finish(c, last, env).out.remaining > 0 <==> SomeNeedsNewline(c.blacklists, c.srcAddr)
  {
    SomethingPendingIff(c.blacklists, env.errorCode, c.srcAddr, 0);
  }

  lemma AnswerOk(c: Con, cmd: Command, text: string, last: State, next: State, now: int)
    requires Steady(c) && c.r == 0 && now > 0 && text != "" && LegalWriting(next, last) && Spent(next, cmd)
    requires next != Close ==> c.badCmd <= MAX_BAD_CMD
    ensures OkAfter(Answer(c, text, last, next, now), cmd)
  {
  }

  lemma FinishOk(c: Con, cmd: Command, last: State, env: Env)
    requires Steady(c) && GoodEnv(env) && c.r == 0 && (c.blacklists != [] ==> c.out.remaining == 0)
    requires LegalWriting(Close, last)
    ensures OkAfter(Finish(c, last, env), cmd)
  {
    FinishIsWriting(c, last, env);
  }

  predicate InDialogue(c: Con, cmd: Command, env: Env) {
    && ReadyFor(c, cmd) && GoodEnv(env) && c.state in {HeloIn, MailIn, RcptIn} && cmd != Quit
    && (cmd == Rset ==> c.state == HeloIn)
  }

  lemma DataOk(c: Con, env: Env)
    requires InDialogue(c, Data, env)
    ensures OkAfter(Obeyed(c, Data, env), Data)
  {
    var text := "354 End data with <CR><LF>.<CR><LF>\r\n";
    var ready := c.(inP := 0, inRemaining := IN_SIZE);
    AnswerOk(ready, Data, text, c.lastState, DataOut, env.now);
    if Greylisted(c, env) {
      FinishOk(Answer(ready, text, c.lastState, DataOut, env.now), Data, State.Reply, env);
    }
  }

  predicate Unheeded(c: Con, cmd: Command) {
    cmd in {Rset, Unknown} || (cmd in {Helo, Ehlo} && c.state != HeloIn) || (cmd == Mail && c.state == RcptIn)
  }

  lemma RefusedOk(c: Con, cmd: Command, env: Env)
    requires InDialogue(c, cmd, env) && Unheeded(c, cmd)
    ensures OkAfter(Obeyed(c, cmd, env), cmd)
  {
    hide ValidSource, GoodLists, ValidEnv, HeloArgument, Normalized, AddressArgument, ReplyOutput;
    var text := "500 Command unrecognized\r\n";
    if c.badCmd + 1 > MAX_BAD_CMD {
      FinishOk(c.(badCmd := c.badCmd + 1, out := c.out.(buf := text)), cmd, State.Reply, env);
    } else {
      AnswerOk(c.(inP := 0, inRemaining := IN_SIZE, badCmd := c.badCmd + 1), cmd, text, c.lastState, c.lastState,
          env.now);
    }
  }

  lemma EnvelopeOk(c: Con, cmd: Command, env: Env)
    requires InDialogue(c, cmd, env)
    requires (cmd in {Helo, Ehlo} && c.state == HeloIn) || (cmd == Mail && c.state in {HeloIn, MailIn}) || cmd == Rcpt
    ensures OkAfter(Obeyed(c, cmd, env), cmd)
  {
    hide ValidSource, GoodLists, ValidEnv, HeloArgument, Normalized, AddressArgument, ReplyOutput;
  }

  lemma ObeyedOk(c: Con, cmd: Command, env: Env)
    requires InDialogue(c, cmd, env)
    ensures OkAfter(Obeyed(c, cmd, env), cmd)
  {
    if cmd == Data {
      DataOk(c, env);
    } else if cmd == Noop {
      AnswerOk(c.(inP := 0, inRemaining := IN_SIZE), cmd, "250 OK\r\n", c.lastState, c.lastState, env.now);
    } else if Unheeded(c, cmd) {
      RefusedOk(c, cmd, env);
    } else {
      EnvelopeOk(c, cmd, env);
    }
  }

  lemma ProxyOk(c: Con, cmd: Command, env: Env)
    requires ReadyFor(c, cmd) && GoodEnv(env) && c.state == ProxyOut && cmd != Quit
    ensures OkAfter(Followed(c, cmd, env), cmd)
  {
    FinishOk(c, cmd, ProxyOut, env);
    match env.proxy
    case Refused =>
    case Failed(src) => FinishOk(c.(srcAddr := src), cmd, ProxyOut, env);
    case Accepted(src, dst) => AnswerOk(c.(srcAddr := src, dstAddr := dst), cmd, Banner(env), ProxyOut, BannerOut,
        env.now);
  }

  lemma MessageOk(c: Con, cmd: Command, env: Env)
    requires ReadyFor(c, cmd) && GoodEnv(env) && c.state == Message && cmd != Quit
    ensures OkAfter(Followed(c, cmd, env), cmd)
  {
    var b := BodyFrom(c.inBuf[..c.inP], 0, 0, c.dataBody, c.dataLines);
    FinishOk(c.(dataBody := b.body, dataLines := b.lines), cmd, State.Reply, env);
  }

  /** Where only the next input is asked for. */
  lemma QuietOk(c: Con, cmd: Command, env: Env)
    requires ReadyFor(c, cmd) && GoodEnv(env) && !(cmd == Quit || (cmd == Rset && c.state in {MailOut, RcptOut}))
    requires c.state in {ProxyIn, BannerOut, HeloOut, MailOut, RcptOut, DataOut}
    ensures OkAfter(Followed(c, cmd, env), cmd)
  {
  }

  lemma FollowedOk(c: Con, cmd: Command, env: Env)
    requires ReadyFor(c, cmd) && GoodEnv(env)
    ensures OkAfter(Followed(c, cmd, env), cmd)
  {
    if cmd == Quit {
      AnswerOk(c, cmd, "221 " + env.hostname + "\r\n", c.state, Close, env.now);
    } else if cmd == Rset && c.state in {MailIn, RcptIn} {
      AnswerOk(c, cmd, "250 OK\r\n", c.state, HeloOut, env.now);
    } else if c.state in {HeloIn, MailIn, RcptIn} {
      ObeyedOk(c, cmd, env);
    } else if c.state == ProxyOut {
      ProxyOk(c, cmd, env);
    } else if c.state == Message {
      MessageOk(c, cmd, env);
    } else if c.state == BannerIn {
      AnswerOk(c, cmd, Banner(env), BannerIn, BannerOut, env.now);
    } else {
      QuietOk(c, cmd, env);
    }
  }

  /** Every step out of a legal situation leads to a legal situation, with reading or writing wanted but not both, and
      with something left to write whenever writing is wanted. */
  lemma NextOk(c: Con, env: Env)
    requires Ready(c) && GoodEnv(env)
    ensures ConOk(Next(c, env))
  {
    FollowedOk(c, CommandOf(c.inBuf), env);
  }

  /** An unrecognised command leads back to the state in which the last answer was sent; the 21st one ends the
      session. */
  lemma BadCommand(c: Con, env: Env)
    requires Ready(c) && GoodEnv(env) && c.state in {HeloIn, MailIn, RcptIn} && CommandOf(c.inBuf) == Unknown
    ensures c.badCmd < MAX_BAD_CMD ==>
              && Next(c, env).state == c.lastState && c.lastState in {BannerOut, HeloOut, MailOut, RcptOut}
              && Next(c, env).badCmd == c.badCmd + 1
    ensures c.badCmd == MAX_BAD_CMD ==> Next(c, env).state == Close && Next(c, env).lastState == State.Reply
  {
  }

  predicate AfterData(s: State) {
    s in {DataOut, Message, State.Reply, Close}
  }

  /** After DATA only its answer, the message and the end of the session can follow. */
  lemma AfterDataStays(c: Con, env: Env)
    ensures CommandOf(c.inBuf) == Data && c.state in {HeloIn, MailIn, RcptIn} ==> AfterData(Next(c, env).state)
    ensures AfterData(c.state) ==> AfterData(Next(c, env).state)
  {
    hide CommandOf, BodyFrom, ReplyOutput;
  }
}
