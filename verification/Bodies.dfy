/** The message of a client by its lines: where it ends, and how far its body has been counted. */
module Bodies {
  import opened Con

  // ---------------------------------------------------------------- the lines of a piece

  /** Where a line ends of which the first `k` characters are not looked at. */
  function EndOf(t: string, k: nat): (n: nat)
    requires k <= |t|
    ensures k <= n <= |t| && (n < |t| ==> t[n] == '\n')
    ensures forall i :: k <= i < n ==> t[i] != '\n'
    decreases |t| - k
  {
    if k == |t| || t[k] == '\n' then k else EndOf(t, k + 1)
  }

  /** Behind a line end the first character is not looked at; a line end there belongs to the line. */
  function Segments(t: string, k: nat): seq<string>
    requires k <= 1
    decreases |t|
  {
    if k > |t| then [] else
    var n := EndOf(t, k);
    if n == |t| then [t] else [t[..n]] + Segments(t[n + 1..], 1)
  }

  /** Without the carriage return of its end. */
  function Trimmed(w: string): string {
    if w != "" && w[|w| - 1] == '\r' then w[..|w| - 1] else w
  }

  function AllTrimmed(ws: seq<string>): seq<string> {
    if ws == [] then [] else [Trimmed(ws[0])] + AllTrimmed(ws[1..])
  }

  function LinesIn(t: string): seq<string> {
    AllTrimmed(Segments(t, 0))
  }

  // ---------------------------------------------------------------- what the lines mean

  /** Behind the first empty line is the body of the message. */
  ghost predicate InBody(ls: seq<string>, i: nat, body: bool)
    requires i <= |ls|
  {
    body || exists j :: 0 <= j < i && ls[j] == ""
  }

  /** The lines of the body among the first `i`. */
  ghost function BodyLines(ls: seq<string>, i: nat, body: bool): nat
    requires i <= |ls|
  {
    if i == 0 then 0 else BodyLines(ls, i - 1, body) + if InBody(ls, i - 1, body) then 1 else 0
  }

  /** A lone dot, or the tenth line of the body. */
  ghost predicate EndsMessage(ls: seq<string>, i: nat, body: bool, lines: int)
    requires i < |ls|
  {
    ls[i] == "." || (InBody(ls, i, body) && lines + BodyLines(ls, i + 1, body) >= 10)
  }

  ghost predicate SomeEnds(ls: seq<string>, n: nat, body: bool, lines: int)
    requires n <= |ls|
  {
    exists i :: 0 <= i < n && EndsMessage(ls, i, body, lines)
  }

  // ---------------------------------------------------------------- going through them

  function TakeLine(b: Body, line: string): Body {
    if line == "." then Body(true, b.body, b.lines)
    else if b.body && b.lines + 1 >= 10 then Body(true, b.body, b.lines + 1)
    else Body(false, b.body || line == "", if b.body then b.lines + 1 else b.lines)
  }

  function Through(b: Body, ls: seq<string>): Body
    decreases |ls|
  {
    if b.done || ls == [] then b else Through(TakeLine(b, ls[0]), ls[1..])
  }

  /** The loop at the end of a line. */
  lemma LoopStep(buf: string, p: nat, q: nat, body: bool, lines: int)
    requires p <= q <= |buf| && (q < |buf| ==> buf[q] == '\n')
    ensures var b := TakeLine(Body(false, body, lines), Trimmed(buf[p..q]));
            BodyFrom(buf, p, q, body, lines) == if b.done then b else BodyFrom(buf, q + 1, q + 2, b.body, b.lines)
  {
    assert LineOf(buf, p, q) == Trimmed(buf[p..q]);
  }

  lemma SegmentStep(t: string, k: nat)
    requires k <= 1 && k <= |t|
    ensures var n := EndOf(t, k);
            AllTrimmed(Segments(t, k)) ==
            [Trimmed(t[..n])] + if n == |t| then [] else AllTrimmed(Segments(t[n + 1..], 1))
  {
    hide EndOf;
    var n := EndOf(t, k);
    if n == |t| {
      assert t[..n] == t && [t][1..] == [];
    } else {
      assert ([t[..n]] + Segments(t[n + 1..], 1))[1..] == Segments(t[n + 1..], 1);
    }
  }

  lemma ThroughStep(b: Body, l: string, ls: seq<string>)
    requires !b.done
    ensures Through(b, [l] + ls) == Through(TakeLine(b, l), ls)
  {
    assert ([l] + ls)[1..] == ls;
  }

  lemma DoneStays(b: Body, ls: seq<string>)
    requires b.done || ls == []
    ensures Through(b, ls) == b
  {
  }

  /** The loop goes through the lines that the segments give. */
  lemma {:induction false} LoopGoesThrough(buf: string, p: nat, q: nat, k: nat, body: bool, lines: int)
    requires p <= q && p <= |buf| && k <= 1 && p + k <= q
    requires if p + k <= |buf| then q <= p + EndOf(buf[p..], k) else q > |buf|
    ensures BodyFrom(buf, p, q, body, lines)
         == Through(Body(false, body, lines), AllTrimmed(Segments(buf[p..], k)))
    decreases |buf| + 2 - q
  {
    hide TakeLine, Trimmed, BodyFrom, Through, Segments, AllTrimmed, EndOf;
    var t, b0 := buf[p..], Body(false, body, lines);
    if q > |buf| {
      DoneStays(b0, []);
      NoSegments(t, k);
      LoopOver(buf, p, q, body, lines);
    } else if q < |buf| && buf[q] != '\n' {
      assert t[q - p] == buf[q];
      LoopSkips(buf, p, q, body, lines);
      LoopGoesThrough(buf, p, q + 1, k, body, lines);
    } else {
      var n := EndOf(t, k);
      assert q < |buf| ==> t[q - p] == '\n';
      assert q == p + n && t[..n] == buf[p..q];
      LoopStep(buf, p, q, body, lines);
      SegmentStep(t, k);
      var b := TakeLine(b0, Trimmed(t[..n]));
      var ls := if n == |t| then [] else AllTrimmed(Segments(t[n + 1..], 1));
      ThroughStep(b0, Trimmed(t[..n]), ls);
      if b.done {
        DoneStays(b, ls);
      } else if n == |t| {
        DoneStays(b, ls);
        LoopOver(buf, q + 1, q + 2, b.body, b.lines);
        NotDone(b);
      } else {
        assert t[n + 1..] == buf[q + 1..];
        NotDone(b);
        LoopGoesThrough(buf, q + 1, q + 2, 1, b.body, b.lines);
      }
    }
  }

  lemma NoSegments(t: string, k: nat)
    requires |t| < k <= 1
    ensures AllTrimmed(Segments(t, k)) == []
  {
  }

  lemma LoopSkips(buf: string, p: nat, q: nat, body: bool, lines: int)
    requires p <= q < |buf| && buf[q] != '\n'
    ensures BodyFrom(buf, p, q, body, lines) == BodyFrom(buf, p, q + 1, body, lines)
  {
  }

  lemma LoopOver(buf: string, p: nat, q: nat, body: bool, lines: int)
    requires p <= q && |buf| < q
    ensures BodyFrom(buf, p, q, body, lines) == Body(false, body, lines)
  {
  }

  lemma NotDone(b: Body)
    requires !b.done
    ensures b == Body(false, b.body, b.lines)
  {
  }

  lemma {:induction false} ThroughMore(b: Body, ls: seq<string>, l: string)
    ensures Through(b, ls + [l]) == if Through(b, ls).done then Through(b, ls) else TakeLine(Through(b, ls), l)
    decreases |ls|
  {
    if b.done {
    } else if ls == [] {
      assert [] + [l] == [l] && [l][1..] == [];
    } else {
      assert (ls + [l])[1..] == ls[1..] + [l];
      ThroughMore(TakeLine(b, ls[0]), ls[1..], l);
    }
  }

  /** Whether the end is among the first `n` lines, and else how far the body has been counted. */
  lemma {:induction false} ThroughMeans(ls: seq<string>, n: nat, body: bool, lines: int)
    requires n <= |ls|
    ensures var b := Through(Body(false, body, lines), ls[..n]);
            && (b.done <==> SomeEnds(ls, n, body, lines))
            && (!b.done ==> (b.body <==> InBody(ls, n, body)) && b.lines == lines + BodyLines(ls, n, body))
    decreases n
  {
    hide Through;
    if n == 0 {
      assert ls[..0] == [];
      NothingRead(Body(false, body, lines));
    } else {
      var m := n - 1;
      ThroughMeans(ls, m, body, lines);
      assert ls[..n] == ls[..m] + [ls[m]];
      ThroughMore(Body(false, body, lines), ls[..m], ls[m]);
      assert SomeEnds(ls, n, body, lines) <==> SomeEnds(ls, m, body, lines) || EndsMessage(ls, m, body, lines);
      assert InBody(ls, n, body) <==> InBody(ls, m, body) || ls[m] == "";
    }
  }

  lemma NothingRead(b: Body)
    ensures Through(b, []) == b
  {
  }

  /** A piece of the message ends it exactly when one of its lines is a lone dot or the tenth of the body; else the next
      piece goes on with the body and the count where this one left them. */
  lemma MessageEndsIff(buf: string, body: bool, lines: int)
    ensures var ls := LinesIn(buf);
            var b := BodyFrom(buf, 0, 0, body, lines);
            && (b.done <==> SomeEnds(ls, |ls|, body, lines))
            && (!b.done ==> (b.body <==> InBody(ls, |ls|, body)) && b.lines == lines + BodyLines(ls, |ls|, body))
  {
    hide BodyFrom, Through, SomeEnds, InBody, BodyLines;
    var ls := LinesIn(buf);
    assert buf[0..] == buf && ls[..|ls|] == ls;
    LoopGoesThrough(buf, 0, 0, 0, body, lines);
    ThroughMeans(ls, |ls|, body, lines);
  }

  // ---------------------------------------------------------------- lines as they are sent

  /** Lines with a newline between them. */
  function Lined(ws: seq<string>): string {
    if ws == [] then "" else if |ws| == 1 then ws[0] else ws[0] + ("\n" + Lined(ws[1..]))
  }

  predicate IsRawLine(w: string, k: nat) {
    '\n' !in w && |w| >= k
  }

  /** The lines are found as they were sent if none but the first is empty; a carriage return before the newline makes
      any line so. */
  lemma {:induction false} LinesFound(ws: seq<string>, k: nat)
    requires ws != [] && k <= 1 && IsRawLine(ws[0], k) && forall i :: 0 < i < |ws| ==> IsRawLine(ws[i], 1)
    ensures Segments(Lined(ws), k) == ws
    decreases |ws|
  {
    var w := ws[0];
    hide EndOf;
    if |ws| == 1 {
      EndIs(w, "", k);
      assert w + "" == w && ws == [w];
    } else {
      var rest := "\n" + Lined(ws[1..]);
      var t := w + rest;
      EndIs(w, rest, k);
      assert ws == [w] + ws[1..] && t[..|w|] == w && t[|w| + 1..] == Lined(ws[1..]);
      assert ws[1..][0] == ws[1];
      forall i | 0 < i < |ws[1..]| ensures IsRawLine(ws[1..][i], 1) {
        assert ws[1..][i] == ws[i + 1];
      }
      LinesFound(ws[1..], 1);
    }
  }

  lemma {:induction false} EndIs(w: string, rest: string, k: nat)
    requires k <= |w| && '\n' !in w && (rest != "" ==> rest[0] == '\n')
    ensures EndOf(w + rest, k) == |w|
    decreases |w| - k
  {
    if k < |w| {
      assert (w + rest)[k] == w[k];
      EndIs(w, rest, k + 1);
    }
  }

  /** A lone dot ends the message, whatever lines come before it in the piece and however they end. */
  lemma DotEnds(ws: seq<string>, i: nat, body: bool, lines: int)
    requires i < |ws| && '\n' !in ws[0] && forall j :: 0 < j < |ws| ==> IsRawLine(ws[j], 1)
    requires Trimmed(ws[i]) == "."
    ensures BodyFrom(Lined(ws), 0, 0, body, lines).done
  {
    hide BodyFrom, Segments, Trimmed;
    LinesFound(ws, 0);
    MessageEndsIff(Lined(ws), body, lines);
    var ls := LinesIn(Lined(ws));
    TrimmedAt(ws, i);
    assert EndsMessage(ls, i, body, lines);
  }

  lemma {:induction false} TrimmedAt(ws: seq<string>, i: nat)
    requires i < |ws|
    ensures |AllTrimmed(ws)| == |ws| && AllTrimmed(ws)[i] == Trimmed(ws[i])
  {
    if i > 0 {
      TrimmedAt(ws[1..], i - 1);
    } else if |ws| > 1 {
      TrimmedAt(ws[1..], 0);
    }
  }

  lemma {:induction false} SegmentsNotEmpty(t: string, k: nat, i: nat)
    requires k <= 1 && i < |Segments(t, k)| && (i > 0 || k == 1)
    ensures Segments(t, k)[i] != ""
    decreases |t|
  {
    if i > 0 {
      SegmentsNotEmpty(t[EndOf(t, k) + 1..], 1, i - 1);
    }
  }

  /** Behind the first line only a carriage return alone is an empty line ... */
  lemma EmptyIff(t: string, i: nat)
    requires 0 < i < |Segments(t, 0)|
    ensures |LinesIn(t)| == |Segments(t, 0)| && (LinesIn(t)[i] == "" <==> Segments(t, 0)[i] == "\r")
  {
    SegmentsNotEmpty(t, 0, i);
    TrimmedAt(Segments(t, 0), i);
  }

  /** ... and an empty line between bare newlines is taken as the start of the line behind it, so that the body of a
      message with such lines only is not found. */
  lemma BareEmptyLine(w: string, v: string, rest: string)
    requires '\n' !in w && '\n' !in v
    ensures Segments(w + ("\n" + ("\n" + (v + ("\n" + rest)))), 0) == [w] + (["\n" + v] + Segments(rest, 1))
  {
    var t := "\n" + (v + ("\n" + rest));
    var u := w + ("\n" + t);
    EndIs(w, "\n" + t, 0);
    assert u[..|w|] == w && u[|w| + 1..] == t;
    EndIsBehind("\n", v, "\n" + rest);
    assert t == "\n" + v + ("\n" + rest) && t[..1 + |v|] == "\n" + v && t[2 + |v|..] == rest;
  }

  lemma EndIsBehind(c: string, v: string, rest: string)
    requires |c| == 1 && '\n' !in v && rest != "" && rest[0] == '\n'
    ensures EndOf(c + (v + rest), 1) == 1 + |v|
  {
    var t := c + (v + rest);
    var n := EndOf(t, 1);
    assert t[1 + |v|] == '\n';
    assert forall i :: 1 <= i < 1 + |v| ==> t[i] == v[i - 1];
  }
}
