/** The server's slots, changed in place by the handlers of its main loop. */
module Connections {
  import opened Reply
  import opened Con
  import opened NextState
  import opened Greyd
  import opened GreydRuns

  class Connections {
    const cons: array<Con>
    var clients: int
    var blackClients: int
    var slowUntil: int
    var accepted: nat
    var closed: seq<nat>
    var reports: seq<Report>

    function View(): Server
      reads this, cons
    {
      Server(cons[..], clients, blackClients, slowUntil, accepted, closed, reports)
    }

    constructor (maxCons: nat)
      ensures fresh(cons) && View() == Start(maxCons)
    {
      cons := new Con[maxCons](_ => FREE);
      clients, blackClients, slowUntil, accepted, closed, reports := 0, 0, 0, 0, [], [];
      new;
      assert cons[..] == seq(maxCons, _ => FREE);
    }

    method CloseSlot(i: nat)
      requires i < cons.Length
      modifies this, cons
      ensures View() == CloseCon(old(View()), i)
    {
      var c := cons[i];
      c := c.(fd := -1);
      slowUntil := 0;
      if |c.blacklists| > 0 {
        c := c.(blacklists := []);
        blackClients := blackClients - 1;
      }
      c := c.(out := Pending("", 0, c.out.remaining));
      cons[i] := c;
      clients := clients - 1;
      closed := closed + [c.serial];
    }

    method NextSlotState(i: nat, env: Env)
      requires i < cons.Length && ValidSource(cons[i].srcAddr) && ValidEnv(env)
      modifies this, cons
      ensures View() == Advance(old(View()), i, env)
    {
      hide Next, ReportOf;
      var c, report, closing := NextState.NextState(cons[i], env);
      if closing {
        CloseSlot(i);
      } else {
        cons[i] := c;
        if report.Some? {
          reports := reports + [report.value];
        }
      }
    }

    /** Fills a free slot with a new connection and lets it take its first step. */
    method Init(i: nat, st: Settings, fd: int, src: string, blacklists: seq<string>, env: Env)
      requires i < cons.Length && ValidSource(src) && ValidEnv(env)
      modifies this, cons
      ensures View() == WithClient(old(View()), i, st, fd, src, blacklists, env)
    {
      hide Next, Advance;
      var c := FREE.(fd := fd, serial := accepted, lastState := BannerOut, srcAddr := src);
      accepted := accepted + 1;
      c := c.(stutter := if st.greylist && st.greyStutter == 0 then 0 else st.stutter);
      c := c.(blacklists := blacklists);
      clients := clients + 1;
      if |c.blacklists| > 0 {
        blackClients := blackClients + 1;
        if st.greylist && blackClients > st.maxBlack {
          c := c.(stutter := 0);
        }
      }
      c := c.(state := if st.proxyProtocol then ProxyIn else BannerIn);
      c := c.(s := env.now);
      cons[i] := c;
      NextSlotState(i, env);
    }

    method AcceptCon(st: Settings, fd: int, src: string, blacklists: seq<string>, env: Env)
      requires ValidSource(src) && ValidEnv(env)
      modifies this, cons
      ensures View() == Accepting(old(View()), st, fd, src, blacklists, env)
    {
      hide WithClient;
      var i := 0;
      while i < cons.Length
        invariant 0 <= i <= cons.Length
        invariant forall j :: 0 <= j < i ==> Open(cons[j])
      {
        if cons[i].fd == -1 {
          break;
        }
        i := i + 1;
      }
      assert i == FirstFree(cons[..]) by {
        assert forall j :: 0 <= j < cons.Length ==> cons[..][j] == cons[j];
      }
      if i == cons.Length {
        slowUntil := 0;
      } else {
        Init(i, st, fd, src, blacklists, env);
      }
    }

    method HandleRead(i: nat, input: Input, env: Env)
      requires i < cons.Length && ValidSource(cons[i].srcAddr) && ValidEnv(env)
      requires cons[i].inP <= |cons[i].inBuf|
      modifies this, cons
      ensures View() == Reading(old(View()), i, input, env)
    {
      hide Advance;
      var end := false;
      if cons[i].r != 0 {
        match input
        case Got(data) =>
          end := '\n' in CString(data);
          cons[i] := cons[i].(inBuf := cons[i].inBuf[..cons[i].inP] + data);
          cons[i] := cons[i].(inP := cons[i].inP + |data|);
          cons[i] := cons[i].(inRemaining := cons[i].inRemaining - |data|);
          assert View() == Set(old(View()), i, Taken(old(cons[i]), data));
        case _ => CloseSlot(i);
      }
      if end || cons[i].inRemaining == 0 {
        StripAndAdvance(i, env);
      }
    }

    /** Cuts line ends off the input and advances the dialogue. */
    method StripAndAdvance(i: nat, env: Env)
      requires i < cons.Length && ValidSource(cons[i].srcAddr) && ValidEnv(env)
      requires cons[i].inP <= |cons[i].inBuf|
      modifies this, cons
      ensures View() == Complete(old(View()), i, env)
    {
      hide Advance;
      var c := cons[i];
      while c.inP > 0 && (c.inBuf[c.inP - 1] == '\r' || c.inBuf[c.inP - 1] == '\n')
        invariant c == cons[i].(inP := c.inP) && c.inP <= cons[i].inP
        invariant StrippedLength(c.inBuf, c.inP) == StrippedLength(cons[i].inBuf, cons[i].inP)
        decreases c.inP
      {
        c := c.(inP := c.inP - 1);
      }
      c := c.(inBuf := c.inBuf[..c.inP]);
      c := c.(r := 0);
      cons[i] := c;
      NextSlotState(i, env);
    }

    /** `taken` is how many of the characters offered the system would take, or at most 0 for a failure. */
    method HandleWrite(st: Settings, i: nat, crWritten: bool, taken: int, env: Env)
      requires i < cons.Length && ValidSource(cons[i].srcAddr) && ValidEnv(env)
      modifies this, cons
      ensures View() == Writing(old(View()), st, i, crWritten, taken, env)
    {
      hide Advance;
      if cons[i].stutter != 0 && st.greylist && |cons[i].blacklists| == 0 && env.now - cons[i].s > st.greyStutter {
        cons[i] := cons[i].(stutter := 0);
      }
      assert View() == Set(old(View()), i, Unstuttered(old(cons[i]), st, env.now));
      Write(i, crWritten, taken);
      Rearm(i, env);
    }

    method Write(i: nat, crWritten: bool, taken: int)
      requires i < cons.Length
      modifies this, cons
      ensures View() == Written(old(View()), i, crWritten, taken)
      ensures cons[i].srcAddr == old(cons[i].srcAddr)
    {
      var c := cons[i];
      if c.w == 0 {
        return;
      }
      if CharAt(c.out) == '\n' && !c.seenCr && !crWritten {
        CloseSlot(i);
        return;
      }
      cons[i] := c.(seenCr := CharAt(c.out) == '\r');
      if taken <= 0 {
        CloseSlot(i);
        return;
      }
      cons[i] := cons[i].(out := cons[i].out.(p := cons[i].out.p + taken));
      cons[i] := cons[i].(out := cons[i].out.(remaining := cons[i].out.remaining - taken));
    }

    method Rearm(i: nat, env: Env)
      requires i < cons.Length && ValidSource(cons[i].srcAddr) && ValidEnv(env)
      modifies this, cons
      ensures View() == AfterWrite(old(View()), i, env)
    {
      hide Advance;
      cons[i] := cons[i].(w := env.now + cons[i].stutter);
      if cons[i].out.remaining == 0 {
        cons[i] := cons[i].(w := 0);
        assert View() == Set(old(View()), i, old(cons[i]).(w := 0));
        NextSlotState(i, env);
      } else {
        assert View() == Set(old(View()), i, old(cons[i]).(w := env.now + old(cons[i]).stutter));
      }
    }

    /** The part of the main loop that looks at the slots: a slot that waited too long is closed. */
    method CloseExpired(i: nat, now: int)
      modifies this, cons
      ensures View() == if TimedOut(old(View()), i, now) then CloseCon(old(View()), i) else old(View())
    {
      if i < cons.Length && cons[i].fd != -1 {
        if cons[i].r != 0 && cons[i].r + MAX_TIME <= now {
          CloseSlot(i);
        } else if cons[i].w != 0 && cons[i].w + MAX_TIME <= now {
          CloseSlot(i);
        }
      }
    }

    /** One event of the main loop. */
    method Dispatch(st: Settings, e: Event)
      requires Proper(View()) && ProperEvent(e)
      modifies this, cons
      ensures View() == Step(old(View()), st, e)
    {
      hide Accepting, Reading, Writing, CloseCon, TimedOut, ValidSource, ValidEnv;
      match e
      case Accept(fd, src, blacklists, env) => AcceptCon(st, fd, src, blacklists, env);
      case AcceptFailed(exhausted, now) =>
        if exhausted {
          slowUntil := now + 1;
        }
      case Readable(i, input, env) =>
        if i < cons.Length && cons[i].fd != -1 && cons[i].r != 0 {
          HandleRead(i, input, env);
        }
      case Writable(i, crWritten, taken, env) =>
        if i < cons.Length && cons[i].fd != -1 && cons[i].w != 0 && cons[i].w <= env.now {
          HandleWrite(st, i, crWritten, taken, env);
        }
      case Expire(i, now) => CloseExpired(i, now);
      case Hangup(i) =>
        if i < cons.Length && cons[i].fd != -1 {
          CloseSlot(i);
        }
    }

    /** In order before, in order after. */
    method Handle(st: Settings, e: Event)
      requires Good(View()) && GoodSettings(st) && GoodEvent(View(), st, e)
      modifies this, cons
      ensures View() == Step(old(View()), st, e) && Good(View())
    {
      StepGood(View(), st, e);
      hide Good, Step, Proper, ProperEvent;
      Dispatch(st, e);
    }
  }

  /** What the handlers rely on. */
  predicate Proper(v: Server) {
    forall i :: 0 <= i < |v.cons| && Open(v.cons[i]) ==>
      ValidSource(v.cons[i].srcAddr) && v.cons[i].inP <= |v.cons[i].inBuf|
  }

  predicate ProperEvent(e: Event) {
    && (e.Accept? ==> ValidSource(e.src) && ValidEnv(e.env))
    && (e.Readable? || e.Writable? ==> ValidEnv(e.env))
  }

}
