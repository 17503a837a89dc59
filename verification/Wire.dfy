/** What the client receives: the output buffer as the write handler puts it on the wire. */
module Wire {
  import opened Con
  import opened Greyd

  /** Every newline gets a carriage return of its own, unless one stands before it already. */
  function Crlf(s: string, cr: bool): string {
    if s == "" then "" else (if s[0] == '\n' && !cr then "\r" else "") + [s[0]] + Crlf(s[1..], s[0] == '\r')
  }

  /** The text without the carriage returns that stand before newlines. */
  function Bare(s: string): string {
    if s == "" then "" else
    if s[0] == '\r' && |s| > 1 && s[1] == '\n' then Bare(s[1..]) else [s[0]] + Bare(s[1..])
  }

  /** All newlines but perhaps the first character follow a carriage return. */
  ghost predicate Paired(s: string, cr: bool) {
    && (s != "" && s[0] == '\n' ==> cr)
    && (forall i, j :: 0 <= i && j == i + 1 && j < |s| && s[j] == '\n' ==> s[i] == '\r')
  }

  lemma {:induction false} CrlfPaired(s: string, cr: bool)
    ensures Paired(Crlf(s, cr), cr)
  {
    if s != "" {
      var t := Crlf(s[1..], s[0] == '\r');
      CrlfPaired(s[1..], s[0] == '\r');
      if s[0] == '\n' && !cr {
        assert Crlf(s, cr) == ['\r', '\n'] + t;
      } else {
        assert Crlf(s, cr) == [s[0]] + t;
      }
    }
  }

  /** Nothing else is changed. */
  lemma {:induction false} CrlfKeepsText(s: string, cr: bool)
    ensures Bare(Crlf(s, cr)) == Bare(s)
    ensures s != "" && !(s[0] == '\n' && !cr) ==> Crlf(s, cr) != "" && Crlf(s, cr)[0] == s[0]
  {
    if s != "" {
      var t := Crlf(s[1..], s[0] == '\r');
      CrlfKeepsText(s[1..], s[0] == '\r');
      if s[0] == '\n' && !cr {
        assert Crlf(s, cr) == ['\r'] + ([s[0]] + t);
        assert Crlf(s, cr)[1..] == [s[0]] + t && ([s[0]] + t)[1..] == t;
      } else {
        assert Crlf(s, cr) == [s[0]] + t && ([s[0]] + t)[1..] == t;
      }
    }
  }

  /** What a successful call of the write handler sends. */
  function Sent(c: Con, written: nat): string
    requires c.out.p + written <= |c.out.buf|
  {
    (if CharAt(c.out) == '\n' && !c.seenCr then "\r" else "") + c.out.buf[c.out.p..c.out.p + written]
  }

  function After(c: Con, written: nat): Con {
    c.(seenCr := CharAt(c.out) == '\r', out := c.out.(p := c.out.p + written, remaining := c.out.remaining - written))
  }

  lemma WrittenIsAfter(v: Server, i: nat, written: nat)
    requires i < |v.cons| && v.cons[i].w != 0 && written > 0
    ensures Written(v, i, true, written).cons[i] == After(v.cons[i], written)
  {
  }

  /** What is on the wire once the rest of the buffer has been written one character at a time. */
  function Stuttered(c: Con): string
    requires c.out.p <= |c.out.buf|
    decreases |c.out.buf| - c.out.p
  {
    if c.out.p == |c.out.buf| then "" else Sent(c, 1) + Stuttered(After(c, 1))
  }

  /** A stuttering client receives the reply with every line ended by carriage return and newline, and no other
      change. */
  lemma {:induction false} StutteredIsCrlf(c: Con)
    requires c.out.p <= |c.out.buf|
    ensures Stuttered(c) == Crlf(c.out.buf[c.out.p..], c.seenCr)
    decreases |c.out.buf| - c.out.p
  {
    if c.out.p < |c.out.buf| {
      var s := c.out.buf[c.out.p..];
      StutteredIsCrlf(After(c, 1));
      assert s[1..] == c.out.buf[c.out.p + 1..];
      assert c.out.buf[c.out.p..c.out.p + 1] == [s[0]];
    }
  }

  /** Written in one piece, only its first character can get a carriage return. So a client that does not stutter
      receives paired line ends if and only if the buffer has them, its first character aside. */
  lemma WholeIsPairedIff(c: Con)
    requires c.out.p < |c.out.buf|
    ensures Paired(Sent(c, |c.out.buf| - c.out.p), c.seenCr) <==> Paired(c.out.buf[c.out.p..], true)
  {
    var s := c.out.buf[c.out.p..];
    var w := Sent(c, |c.out.buf| - c.out.p);
    if s[0] == '\n' && !c.seenCr {
      assert w == ['\r'] + s;
      if Paired(w, c.seenCr) {
        forall i, j | 0 <= i && j == i + 1 && j < |s| && s[j] == '\n' ensures s[i] == '\r' {
          var i', j' := i + 1, j + 1;
          assert w[j'] == s[j] && w[i'] == s[i];
        }
      }
    } else {
      assert w == s;
    }
  }

  // ---------------------------------------------------------------- writes of any sizes

  predicate NonEmpty(cs: seq<string>) {
    forall i :: 0 <= i < |cs| ==> cs[i] != ""
  }

  /** What goes on the wire when the pieces are written one after the other: a piece that starts with a newline gets a
      carriage return, unless the piece before it started, not ended, with one. */
  function WireOf(cs: seq<string>, cr: bool): string
    requires NonEmpty(cs)
  {
    if cs == [] then ""
    else (if cs[0][0] == '\n' && !cr then "\r" else "") + cs[0] + WireOf(cs[1..], cs[0][0] == '\r')
  }

  lemma WireOfMore(first: string, rest: seq<string>, cr: bool)
    requires first != "" && NonEmpty(rest)
    ensures NonEmpty([first] + rest)
    ensures WireOf([first] + rest, cr) ==
            (if first[0] == '\n' && !cr then "\r" else "") + first + WireOf(rest, first[0] == '\r')
  {
    assert ([first] + rest)[1..] == rest;
  }

  /** Writes of these sizes are possible. */
  predicate Fitting(c: Con, sizes: seq<nat>)
    decreases |sizes|
  {
    sizes != [] ==> sizes[0] > 0 && c.out.p + sizes[0] <= |c.out.buf| && Fitting(After(c, sizes[0]), sizes[1..])
  }

  function SentAll(c: Con, sizes: seq<nat>): string
    requires Fitting(c, sizes)
    decreases |sizes|
  {
    if sizes == [] then "" else Sent(c, sizes[0]) + SentAll(After(c, sizes[0]), sizes[1..])
  }

  /** The buffer from `p` on, cut into pieces of these sizes. */
  function Pieces(buf: string, p: nat, sizes: seq<nat>): (cs: seq<string>)
    decreases |sizes|
  {
    if sizes == [] || p + sizes[0] > |buf| then [] else [buf[p..p + sizes[0]]] + Pieces(buf, p + sizes[0], sizes[1..])
  }

  /** Whatever the sizes of the writes, and however stuttering ends among them. */
  lemma {:induction false} SentAllIsWire(c: Con, sizes: seq<nat>)
    requires Fitting(c, sizes)
    ensures var cs := Pieces(c.out.buf, c.out.p, sizes);
            NonEmpty(cs) && SentAll(c, sizes) == WireOf(cs, c.seenCr)
    decreases |sizes|
  {
    if sizes != [] {
      var d := After(c, sizes[0]);
      SentAllIsWire(d, sizes[1..]);
      var first, rest := c.out.buf[c.out.p..c.out.p + sizes[0]], Pieces(c.out.buf, d.out.p, sizes[1..]);
      assert first[0] == CharAt(c.out);
      WireOfMore(first, rest, c.seenCr);
    }
  }

  /** Inside every piece all newlines are paired, and where a piece that started with a carriage return keeps the next
      from getting one for its newline, it also ends with one. */
  ghost predicate Fits(cs: seq<string>)
    requires NonEmpty(cs)
  {
    && (forall i :: 0 <= i < |cs| ==> Paired(cs[i], true))
    && (forall i, j :: 0 <= i < |cs| - 1 && j == i + 1 && cs[j][0] == '\n' && cs[i][0] == '\r' ==>
          cs[i][|cs[i]| - 1] == '\r')
  }

  lemma PairedConcat(a: string, b: string, cr: bool)
    requires a != ""
    ensures Paired(a + b, cr) <==> Paired(a, cr) && Paired(b, a[|a| - 1] == '\r')
  {
    var s := a + b;
    var n := |a|;
    assert s[0] == a[0] && s[n - 1] == a[n - 1];
    if Paired(s, cr) {
      forall i, j | 0 <= i && j == i + 1 && j < n && a[j] == '\n' ensures a[i] == '\r' {
        assert s[j] == a[j] && s[i] == a[i];
      }
      forall i, j | 0 <= i && j == i + 1 && j < |b| && b[j] == '\n' ensures b[i] == '\r' {
        var i', j' := n + i, n + j;
        assert s[j'] == b[j] && s[i'] == b[i];
      }
      assert b != "" ==> s[n] == b[0];
    }
    if Paired(a, cr) && Paired(b, a[n - 1] == '\r') {
      forall i, j | 0 <= i && j == i + 1 && j < |s| && s[j] == '\n' ensures s[i] == '\r' {
        if j > n {
          var i', j' := i - n, j - n;
          assert s[j] == b[j'] && s[i] == b[i'];
        }
      }
    }
  }

  lemma FirstPaired(a: string, cr: bool, before: bool)
    requires a != ""
    ensures var w := (if a[0] == '\n' && !cr then "\r" else "") + a;
            && w != "" && w[|w| - 1] == a[|a| - 1]
            && (Paired(w, before) <==> Paired(a, true) && (a[0] == '\n' && cr ==> before))
  {
    if a[0] == '\n' && !cr {
      PairedConcat("\r", a, before);
      assert "\r"[|"\r"| - 1] == '\r';
    } else {
      assert "" + a == a;
    }
  }

  lemma FitsSplit(cs: seq<string>)
    requires NonEmpty(cs) && cs != []
    ensures NonEmpty(cs[1..])
    ensures Fits(cs) <==> (Paired(cs[0], true) && Fits(cs[1..])
      && (|cs| > 1 && cs[1][0] == '\n' && cs[0][0] == '\r' ==> cs[0][|cs[0]| - 1] == '\r'))
  {
    var t := cs[1..];
    assert forall i :: 0 <= i < |t| ==> t[i] == cs[i + 1];
    if Paired(cs[0], true) && Fits(t) {
      forall i | 0 <= i < |cs| ensures Paired(cs[i], true) {
        assert i > 0 ==> cs[i] == t[i - 1];
      }
    }
    if Fits(t) {
      forall i, j | 1 <= i < |cs| - 1 && j == i + 1 && cs[j][0] == '\n' && cs[i][0] == '\r'
        ensures cs[i][|cs[i]| - 1] == '\r'
      {
        var i', j' := i - 1, j - 1;
        assert t[j'] == cs[j] && t[i'] == cs[i];
      }
    }
  }

  /** After any writes every newline on the wire follows a carriage return if and only if the pieces fit. */
  lemma {:induction false} WirePairedIff(cs: seq<string>, cr: bool, before: bool)
    requires NonEmpty(cs)
    ensures Paired(WireOf(cs, cr), before) <==> Fits(cs) && (cs != [] && cs[0][0] == '\n' && cr ==> before)
    decreases cs
  {
    hide Paired, Fits;
    if cs == [] {
      NothingToPair(before);
    } else {
      var first := (if cs[0][0] == '\n' && !cr then "\r" else "") + cs[0];
      var last := cs[0][|cs[0]| - 1] == '\r';
      FitsSplit(cs);
      FirstPaired(cs[0], cr, before);
      WirePairedIff(cs[1..], cs[0][0] == '\r', last);
      PairedConcat(first, WireOf(cs[1..], cs[0][0] == '\r'), before);
    }
  }

  lemma NothingToPair(before: bool)
    ensures Paired("", before) && Fits([])
  {
  }

  function WithoutReturns(s: string): string {
    if s == "" then "" else (if s[0] == '\r' then "" else [s[0]]) + WithoutReturns(s[1..])
  }

  lemma {:induction false} WithoutReturnsConcat(a: string, b: string)
    ensures WithoutReturns(a + b) == WithoutReturns(a) + WithoutReturns(b)
  {
    if a == "" {
      assert a + b == b;
    } else {
      WithoutReturnsConcat(a[1..], b);
      assert (a + b)[1..] == a[1..] + b && (a + b)[0] == a[0];
      var c := if a[0] == '\r' then "" else [a[0]];
      assert c + (WithoutReturns(a[1..]) + WithoutReturns(b)) == c + WithoutReturns(a[1..]) + WithoutReturns(b);
    }
  }

  function Flat(cs: seq<string>): string {
    if cs == [] then "" else cs[0] + Flat(cs[1..])
  }

  /** Only carriage returns are added to the text. */
  lemma {:induction false} WireAddsReturns(cs: seq<string>, cr: bool)
    requires NonEmpty(cs)
    ensures WithoutReturns(WireOf(cs, cr)) == WithoutReturns(Flat(cs))
    decreases cs
  {
    if cs != [] {
      var rest := WireOf(cs[1..], cs[0][0] == '\r');
      WireAddsReturns(cs[1..], cs[0][0] == '\r');
      WithoutReturnsConcat(cs[0], rest);
      WithoutReturnsConcat(cs[0], Flat(cs[1..]));
      if cs[0][0] == '\n' && !cr {
        assert WireOf(cs, cr) == "\r" + (cs[0] + rest);
        WithoutReturnsConcat("\r", cs[0] + rest);
      } else {
        assert WireOf(cs, cr) == cs[0] + rest;
      }
    }
  }

  /** The pieces are the part of the buffer that was written. */
  lemma {:induction false} PiecesFlat(c: Con, sizes: seq<nat>) returns (n: nat)
    requires Fitting(c, sizes) && c.out.p <= |c.out.buf|
    ensures c.out.p + n <= |c.out.buf| && Flat(Pieces(c.out.buf, c.out.p, sizes)) == c.out.buf[c.out.p..c.out.p + n]
    decreases |sizes|
  {
    if sizes == [] {
      n := 0;
    } else {
      var m := PiecesFlat(After(c, sizes[0]), sizes[1..]);
      n := sizes[0] + m;
      var rest := Pieces(c.out.buf, c.out.p + sizes[0], sizes[1..]);
      assert ([c.out.buf[c.out.p..c.out.p + sizes[0]]] + rest)[1..] == rest;
    }
  }
}
