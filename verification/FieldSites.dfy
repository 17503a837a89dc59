/** Lines of a message whose strings hold whatever they hold: which strings the text of the message assigns to a name.
    A quote in one of the strings may let what follows it be read as assignments. */
module FieldSites {
  import opened Fold
  import opened Lexer
  import opened ConfigLexer
  import opened ConfigPipe
  import opened ConfigSites

  // ---------------------------------------------------------------- tokens in their text

  lemma {:induction false} ScanWordAt(t: string, word: string)
    ensures var r := ScanWord(t, word);
            var k := |t| - |r.1|;
            && k >= 0 && |r.0| == |word| + k && r.0[..|word|] == word && r.1 == t[k..]
            && forall i, j :: 0 <= i < k && j == |word| + i ==> r.0[j] == Lower(t[i])
    decreases |t|
  {
    if t != "" && IsWordChar(t[0]) && |word| <= MAX_STR_LEN {
      ScanWordAt(t[1..], word + [Lower(t[0])]);
      var r := ScanWord(t, word);
      var k := |t| - |r.1|;
      assert r.0[..|word| + 1][..|word|] == word && r.0[..|word| + 1][|word|] == Lower(t[0]);
      forall i, j | 0 <= i < k && j == |word| + i ensures r.0[j] == Lower(t[i]) {
        if i > 0 {
          var i' := i - 1;
          assert t[1..][i'] == t[i];
        }
      }
    }
  }

  /** The word that ends at `e`, in lower case. */
  ghost predicate WordBefore(t: string, e: nat, name: string) {
    0 < |name| <= e <= |t| && forall i, j :: 0 <= i < |name| && j == e - |name| + i ==> Lower(t[j]) == name[i]
  }

  lemma WordEnds(t: string, name: string) returns (e: nat)
    requires t != "" && IsAlpha(t[0]) && NextTok(t).token == Name(name)
    ensures WordBefore(t, e, name) && NextTok(t).rest == t[e..]
  {
    var word := [Lower(t[0])];
    ScanWordAt(t[1..], word);
    var r := ScanWord(t[1..], word);
    e := |t| - |r.1|;
    forall i, j | 0 <= i < |name| && j == e - |name| + i ensures Lower(t[j]) == name[i] {
      if i == 0 {
        assert name[..1] == word;
      } else {
        var i' := i - 1;
        assert t[1..][i'] == t[i];
      }
    }
  }

  /** What is read before a name that does not come first is left out. */
  lemma NameLater(t: string, name: string) returns (u: string)
    requires NextTok(t).token == Name(name) && !IsAlpha(t[0])
    ensures Tail(t, u) && |u| < |t| && NextTok(u) == NextTok(t)
  {
    hide ScanWord, ScanStr, ScanInt;
    u := t[1..];
    TailMore(t);
    if t[0] == '#' {
      AfterCommentShortens(u);
      CommentTail(u);
      TailTrans(t, u, AfterComment(u));
      u := AfterComment(u);
    }
  }

  /** Where a name ends. */
  lemma {:induction false} NameEnds(t: string, name: string) returns (e: nat)
    requires NextTok(t).token == Name(name)
    ensures WordBefore(t, e, name) && NextTok(t).rest == t[e..]
    decreases |t|
  {
    hide WordBefore, NextTok;
    if IsAlpha(t[0]) {
      e := WordEnds(t, name);
    } else {
      var u := NameLater(t, name);
      var e' := NameEnds(u, name);
      var a := t[..|t| - |u|];
      assert t == a + u;
      NameBehind(a, u, e', name);
      e := |a| + e';
    }
  }

  lemma NameBehind(a: string, u: string, e: nat, name: string)
    requires WordBefore(u, e, name)
    ensures WordBefore(a + u, |a| + e, name) && (a + u)[|a| + e..] == u[e..]
  {
    forall i, j | 0 <= i < |name| && j == |a| + e - |name| + i ensures Lower((a + u)[j]) == name[i] {
      var j' := j - |a|;
      assert (a + u)[j] == u[j'];
    }
  }

  predicate AllSkipped(t: string, k: nat)
    requires k <= |t|
  {
    forall i :: 0 <= i < k ==> Skipped(t[i])
  }

  /** Only blanks stand before a sign ... */
  lemma {:induction false} SignAt(t: string) returns (k: nat)
    requires NextTok(t).token == Eq
    ensures k < |t| && t[k] == '=' && AllSkipped(t, k) && NextTok(t).rest == t[k + 1..]
    decreases |t|
  {
    if Skipped(t[0]) {
      k := SignAt(t[1..]);
      k := k + 1;
      BlankBefore(t, k);
    } else {
      if t[0] == '#' {
        NotAComment(t);
      }
      k := 0;
    }
  }

  /** ... and before a string. */
  lemma {:induction false} StringAt(t: string, v: string) returns (k: nat)
    requires NextTok(t).token == Str(v)
    ensures k < |t| && t[k] == '"' && AllSkipped(t, k)
    ensures ScanStr(t[k + 1..], false, "") == (v, NextTok(t).rest)
    decreases |t|
  {
    if Skipped(t[0]) {
      k := StringAt(t[1..], v);
      k := k + 1;
      BlankBefore(t, k);
      assert t[1..][k..] == t[k + 1..];
    } else {
      if t[0] == '#' {
        NotAComment(t);
      }
      k := 0;
    }
  }

  lemma BlankBefore(t: string, k: nat)
    requires 0 < k <= |t| && Skipped(t[0]) && AllSkipped(t[1..], k - 1)
    ensures AllSkipped(t, k)
  {
    forall i | 0 <= i < k ensures Skipped(t[i]) {
      if i > 0 {
        var i' := i - 1;
        assert t[1..][i'] == t[i];
      }
    }
  }

  /** Behind a comment there is the end of a line, or of the text. */
  lemma NotAComment(t: string)
    requires t != "" && t[0] == '#'
    ensures NextTok(t).token in {Eol, Eof}
  {
    CommentEnds(t[1..]);
    AfterCommentShortens(t[1..]);
  }

  lemma {:induction false} CommentEnds(t: string)
    ensures AfterComment(t) == "" || AfterComment(t)[0] == '\n'
  {
    if t != "" && t[0] != '\n' {
      CommentEnds(t[1..]);
    }
  }

  // ---------------------------------------------------------------- where an assigned string starts

  /** Blanks and signs from `e` up to `q`. */
  predicate SignBetween(x: string, e: nat, q: nat)
    requires q <= |x|
  {
    forall i :: e <= i < q ==> x[i] == '=' || Skipped(x[i])
  }

  /** A string starts at the quote at `q`, behind a sign behind the name that ends at `e`. */
  ghost predicate Quoted(x: string, q: nat, e: nat, name: string, v: string, left: nat) {
    && e < q < |x| && x[q] == '"' && WordBefore(x, e, name) && SignBetween(x, e, q)
    && ScanStr(x[q + 1..], false, "").0 == v && |ScanStr(x[q + 1..], false, "").1| >= left
  }

  lemma AssignsQuoted(u: string, name: string, v: string, left: nat) returns (q: nat, e: nat)
    requires Assigns(u, name, v, left)
    ensures Quoted(u, q, e, name, v, left)
  {
    hide NextTok, ScanStr, WordBefore;
    e := NameEnds(u, name);
    assert e <= |u| by { WordWithin(u, e, name); }
    var r := u[e..];
    var k := SignAt(r);
    var r' := r[k + 1..];
    var l := StringAt(r', v);
    q := e + k + 1 + l;
    forall i | e <= i < q ensures u[i] == '=' || Skipped(u[i]) {
      if i < e + k {
        assert u[i] == r[i - e];
      } else if i > e + k {
        assert u[i] == r'[i - e - k - 1];
      }
    }
    assert u[q + 1..] == r'[l + 1..];
  }

  lemma WordWithin(t: string, e: nat, name: string)
    requires WordBefore(t, e, name)
    ensures e <= |t|
  {
  }

  lemma QuotedBehind(a: string, u: string, q: nat, e: nat, name: string, v: string, left: nat)
    requires Quoted(u, q, e, name, v, left)
    ensures Quoted(a + u, |a| + q, |a| + e, name, v, left)
  {
    hide ScanStr, WordBefore;
    NameBehind(a, u, e, name);
    assert (a + u)[|a| + q + 1..] == u[q + 1..];
    forall i | |a| + e <= i < |a| + q ensures (a + u)[i] == '=' || Skipped((a + u)[i]) {
      assert (a + u)[i] == u[i - |a|];
    }
  }

  lemma SiteQuoted(t: string, name: string, v: string, left: nat) returns (q: nat, e: nat)
    requires Site(t, name, v, left)
    ensures Quoted(t, q, e, name, v, left)
  {
    hide Quoted, Assigns;
    var u :| Tail(t, u) && Assigns(u, name, v, left);
    q, e := AssignsQuoted(u, name, v, left);
    var a := t[..|t| - |u|];
    QuotedBehind(a, u, q, e, name, v, left);
    assert a + u == t;
    q, e := |a| + q, |a| + e;
  }

  // ---------------------------------------------------------------- strings inside a field

  /** A string that can be put between quotes has a quote only right behind a backslash. */
  lemma {:induction false} BareQuote(w: string, q: nat, escaped: bool)
    requires q < |w| && w[q] == '"' && if q == 0 then !escaped else w[q - 1] != '\\'
    ensures !Encloses(w, escaped)
  {
    if q > 0 {
      BareQuote(w[1..], q - 1, w[0] == '\\' && !escaped);
    }
  }

  /** The two characters, neither a backslash, count for what is left of the whole. */
  lemma {:induction false} UnescapedBehind(w: string, q: nat, escaped: bool)
    requires 1 <= q < |w| && w[q] == '"' && w[q - 1] != '\\'
    ensures |UnescapedFrom(w, escaped)| >= 2 + |Unescaped(w[q + 1..])|
  {
    var u := w[1..];
    assert u[q..] == w[q + 1..];
    if q == 1 {
      assert u[1..] == w[2..];
      assert UnescapedFrom(u, false) == [u[0]] + UnescapedFrom(u[1..], false);
    } else {
      UnescapedBehind(u, q - 1, w[0] == '\\' && !escaped);
    }
  }

  lemma {:induction false} ScanKeeps(t: string, escaped: bool, s: string)
    ensures s <= ScanStr(t, escaped, s).0
    decreases |t|
  {
    if t != "" {
      ScanKeeps(t[1..], true, s);
      ScanKeeps(t[1..], false, s + [t[0]]);
    }
  }

  /** A line end that the scan takes stays in the string. */
  lemma LineEndTaken(x: string, s: string)
    requires |s| <= MAX_STR_LEN
    ensures '\n' in ScanStr("\n" + x, false, s).0
  {
    assert ("\n" + x)[1..] == x;
    ScanKeeps(x, false, s + "\n");
    assert (s + "\n")[|s|] == '\n' && ScanStr(x, false, s + "\n").0[|s|] == '\n';
  }

  /** What a scan makes of a field, its closing quote and the end of its line: all of it and nothing else, or less,
      or the end of the line; or the field ends in a backslash, kept from the closing quote by the limit or not. */
  ghost predicate Outcome(w: string, escaped: bool, s: string, r: string) {
    var u := UnescapedFrom(w, escaped);
    || (r == s + u && Encloses(w, escaped) && |s| + |u| <= MAX_STR_LEN + 1)
    || |r| < |s| + |u|
    || '\n' in r
    || (r == s + u + "\"" && if w == "" then escaped else w[|w| - 1] == '\\')
    || (r == s + u && |r| == MAX_STR_LEN + 1 && LoneTail(w, escaped))
  }

  /** Right but for a lone backslash at the end. */
  predicate LoneTail(w: string, escaped: bool) {
    w != "" && w[|w| - 1] == '\\' && Encloses(w[..|w| - 1], escaped)
  }

  lemma {:induction false} LoneTailLeft(w: string, escaped: bool)
    requires LoneTail(w, escaped)
    ensures UnescapedFrom(w, escaped) == UnescapedFrom(w[..|w| - 1], escaped)
  {
    var k := w[..|w| - 1];
    if k != "" {
      var escapes := w[0] == '\\' && !escaped;
      assert w[1..][..|w[1..]| - 1] == k[1..];
      LoneTailLeft(w[1..], escapes);
    } else {
      assert w == "\\";
    }
  }

  lemma LoneTailMore(w: string, escaped: bool)
    requires w != "" && !(w[0] == '"' && !escaped) && LoneTail(w[1..], w[0] == '\\' && !escaped)
    ensures LoneTail(w, escaped)
  {
    var k := w[..|w| - 1];
    assert k[0] == w[0] && k[1..] == w[1..][..|w[1..]| - 1];
  }

  lemma OutcomeTakes(w: string, escaped: bool, s: string, r: string)
    requires w != "" && !(w[0] == '"' && !escaped) && !(w[0] == '\\' && !escaped)
    requires Outcome(w[1..], false, s + [w[0]], r)
    ensures Outcome(w, escaped, s, r)
  {
    var u := UnescapedFrom(w[1..], false);
    assert s + [w[0]] + u == s + UnescapedFrom(w, escaped);
    if LoneTail(w[1..], false) {
      LoneTailMore(w, escaped);
    }
  }

  lemma OutcomeEscapes(w: string, s: string, r: string)
    requires w != "" && w[0] == '\\' && Outcome(w[1..], true, s, r)
    ensures Outcome(w, false, s, r)
  {
    assert UnescapedFrom(w, false) == UnescapedFrom(w[1..], true);
    if LoneTail(w[1..], true) {
      LoneTailMore(w, false);
    }
  }

  lemma FieldOver(escaped: bool, s: string, x: string)
    requires |s| <= MAX_STR_LEN + 1 && (escaped ==> |s| <= MAX_STR_LEN)
    ensures Outcome("", escaped, s, ScanStr("\"\n" + x, escaped, s).0)
  {
    var end := "\"\n" + x;
    assert end[0] == '"' && end[1..] == "\n" + x && s + "" == s;
    if escaped && |s| < MAX_STR_LEN {
      LineEndTaken(x, s + "\"");
    }
  }

  lemma {:induction false} FieldScan(w: string, escaped: bool, s: string, x: string)
    requires |s| <= MAX_STR_LEN + 1 && (escaped ==> |s| <= MAX_STR_LEN)
    ensures Outcome(w, escaped, s, ScanStr(w + ("\"\n" + x), escaped, s).0)
    decreases |w|
  {
    hide Outcome;
    var end := "\"\n" + x;
    var t := w + end;
    if w == "" {
      assert t == end;
      FieldOver(escaped, s, x);
    } else {
      assert t[0] == w[0] && t[1..] == w[1..] + end;
      if (w[0] == '"' && !escaped) || |s| > MAX_STR_LEN {
        StopsShort(w, escaped, s);
      } else if w[0] == '\\' && !escaped {
        FieldScan(w[1..], true, s, x);
        OutcomeEscapes(w, s, ScanStr(t, escaped, s).0);
      } else {
        FieldScan(w[1..], false, s + [w[0]], x);
        OutcomeTakes(w, escaped, s, ScanStr(t, escaped, s).0);
      }
    }
  }

  lemma StopsShort(w: string, escaped: bool, s: string)
    requires w != "" && ((w[0] == '"' && !escaped) || (|s| == MAX_STR_LEN + 1 && !escaped))
    ensures Outcome(w, escaped, s, s)
  {
    assert s + "" == s;
    if Unescaped(w) == "" {
      NothingLeft(w);
    }
  }

  lemma NothingLeft(w: string)
    requires w != "" && Unescaped(w) == ""
    ensures w == "\\"
  {
    assert w[0] == '\\' && UnescapedFrom(w[1..], true) == "";
    assert w[1..] == "";
  }

  /** Cut off by the limit just before the backslash that would take the closing quote. */
  predicate IsCut(w: string) {
    LoneTail(w, false) && |Unescaped(w)| == MAX_STR_LEN + 1
  }

  /** At its own place a string is read whole if it can be put between quotes, or if it is cut. */
  predicate IsWhole(w: string) {
    IsQuotable(w) || IsCut(w)
  }

  /** In the one case nothing is left of it, in the other the backslash is. */
  lemma CutScan(w: string, x: string)
    requires IsCut(w)
    ensures ScanStr(w + x, false, "") == (Unescaped(w), "\\" + x)
  {
    var k := w[..|w| - 1];
    LoneTailLeft(w, false);
    assert w + x == k + ("\\" + x) && "" + Unescaped(k) == Unescaped(k);
    CutScanFrom(k, false, "", x);
  }

  lemma {:induction false} CutScanFrom(k: string, escaped: bool, s: string, x: string)
    requires Encloses(k, escaped) && |s| + |UnescapedFrom(k, escaped)| == MAX_STR_LEN + 1
    ensures ScanStr(k + ("\\" + x), escaped, s) == (s + UnescapedFrom(k, escaped), "\\" + x)
    decreases |k|
  {
    var t := k + ("\\" + x);
    if k == "" {
      assert t == "\\" + x && s + "" == s;
    } else {
      assert t[0] == k[0] && t[1..] == k[1..] + ("\\" + x);
      if k[0] == '\\' && !escaped {
        SomeLeftEscaped(k[1..]);
        CutScanFrom(k[1..], true, s, x);
      } else {
        CutScanFrom(k[1..], false, s + [k[0]], x);
        assert s + [k[0]] + UnescapedFrom(k[1..], false) == s + UnescapedFrom(k, escaped);
      }
    }
  }

  lemma SomeLeftEscaped(w: string)
    requires Encloses(w, true)
    ensures UnescapedFrom(w, true) != ""
  {
  }

  lemma {:induction false} UnescapedChars(w: string, escaped: bool, c: char)
    requires c in UnescapedFrom(w, escaped)
    ensures c in w
  {
    if w[0] == '\\' && !escaped {
      UnescapedChars(w[1..], true, c);
    } else if c != w[0] {
      UnescapedChars(w[1..], false, c);
    }
  }

  predicate OnOneLine(w: string) {
    '\n' !in w
  }

  /** The string read for a field at its own place is the unescaped field only if the field is read whole. */
  lemma OwnUnescaped(w: string, x: string)
    requires OnOneLine(w) && ScanStr(w + ("\"\n" + x), false, "").0 == Unescaped(w)
    ensures IsWhole(w)
  {
    FieldScan(w, false, "", x);
    assert "" + Unescaped(w) == Unescaped(w);
    if '\n' in Unescaped(w) {
      UnescapedChars(w, false, '\n');
    }
  }

  /** It is the field itself only if the field is plain. */
  lemma OwnPlain(w: string, x: string)
    requires OnOneLine(w) && ScanStr(w + ("\"\n" + x), false, "").0 == w
    ensures IsPlain(w)
  {
    var u := Unescaped(w);
    FieldScan(w, false, "", x);
    UnescapedShorter(w, false);
    PlainIff(w);
    assert "" + u == u;
    assert (u + "\"")[|u|] == '"';
  }

  /** A string that starts at a quote inside a field, behind anything but a backslash, takes less than the field leaves,
      or the end of the line. */
  lemma InsideShorter(w: string, q: nat, x: string)
    requires 1 <= q < |w| && w[q] == '"' && w[q - 1] != '\\'
    ensures var v := ScanStr(w[q + 1..] + ("\"\n" + x), false, "").0; '\n' in v || |v| < |Unescaped(w)|
    ensures !IsWhole(w)
  {
    BareQuote(w, q, false);
    if LoneTail(w, false) {
      BareQuote(w[..|w| - 1], q, false);
      assert false;
    }
    UnescapedBehind(w, q, false);
    FieldScan(w[q + 1..], false, "", x);
  }

  // ---------------------------------------------------------------- lines with fields

  datatype Field = Field(name: string, text: string)

  /** What follows the opening quote of a field: its lines, the end of the message and the text behind that. */
  function Chunk(w: string, fs: seq<Field>, t: string): string
    decreases |fs|
  {
    w + ("\"\n" + (if fs == [] then "%\n" + t else fs[0].name + " = \"" + Chunk(fs[0].text, fs[1..], t)))
  }

  predicate IsWord(name: string) {
    name != "" && forall i :: 0 <= i < |name| ==> 'a' <= name[i] <= 'z' || name[i] == '_'
  }

  predicate AreNamed(fs: seq<Field>) {
    forall i :: 0 <= i < |fs| ==> IsWord(fs[i].name)
  }

  predicate EndsIn(m: string, name: string) {
    |name| <= |m| && m[|m| - |name|..] == name
  }

  /** A field that is not read whole and leaves more than `v`. */
  predicate LeavesMore(w: string, v: string) {
    !IsWhole(w) && |v| < |Unescaped(w)|
  }

  /** The string read at the place of a field. */
  function OwnString(fs: seq<Field>, t: string): string
    requires fs != []
  {
    ScanStr(Chunk(fs[0].text, fs[1..], t), false, "").0
  }

  /** Where an assignment of `v` to `name` can come from. */
  predicate Source(w: string, fs: seq<Field>, t: string, name: string, v: string)
    decreases |fs|
  {
    || LeavesMore(w, v)
    || (fs != [] && EndsIn(fs[0].name, name) && v == OwnString(fs, t))
    || (fs != [] && Source(fs[0].text, fs[1..], t, name, v))
  }

  /** The sign and the name of a site do not reach back over a quote. */
  lemma QuotedInside(a: string, u: string, q: nat, e: nat, name: string, v: string, left: nat)
    requires a != "" && a[|a| - 1] == '"' && IsWord(name) && q >= |a| && Quoted(a + u, q, e, name, v, left)
    ensures e >= |a| && Quoted(u, q - |a|, e - |a|, name, v, left)
  {
    hide ScanStr;
    var x := a + u;
    assert x[|a| - 1] == '"';
    if e - |name| < |a| {
      NotInWord(x, e, name, |a| - 1);
    }
    var q', e' := q - |a|, e - |a|;
    assert u[q' + 1..] == x[q + 1..];
    forall i, j | 0 <= i < |name| && j == e' - |name| + i ensures Lower(u[j]) == name[i] {
      var j' := j + |a|;
      assert x[j'] == u[j];
    }
    forall i | e' <= i < q' ensures u[i] == '=' || Skipped(u[i]) {
      assert x[i + |a|] == u[i];
    }
  }

  lemma NotInWord(x: string, e: nat, name: string, k: nat)
    requires WordBefore(x, e, name) && IsWord(name) && k < e && !IsAlpha(x[k]) && x[k] != '_'
    ensures k < e - |name|
  {
    forall j | e - |name| <= j < e ensures IsAlpha(x[j]) || x[j] == '_' {
      var i := j - (e - |name|);
      assert Lower(x[j]) == name[i];
    }
  }

  /** At the opening quote of a line the name is that of the line, or ends it. */
  lemma OpeningName(a: string, m: string, c: string, q: nat, e: nat, name: string, v: string, left: nat)
    requires a != "" && a[|a| - 1] == '\n' && IsWord(m) && IsWord(name) && q == |a| + |m| + 3
    requires Quoted(a + (m + " = \"" + c), q, e, name, v, left)
    ensures EndsIn(m, name) && v == ScanStr(c, false, "").0
  {
    hide ScanStr;
    var x := a + (m + " = \"" + c);
    var o := |a| + |m|;
    assert x[|a| - 1] == '\n' && x[o - 1] == m[|m| - 1] && x[o] == ' ' && x[o + 1] == '=' && x[o + 2] == ' ';
    assert x[q + 1..] == c;
    assert e >= o;
    NotInWord(x, e, name, |a| - 1);
    if e > o {
      NotInWord(x, e, name, e - 1);
      assert false;
    }
    forall i | 0 <= i < |name| ensures m[|m| - |name|..][i] == name[i] {
      var j := e - |name| + i;
      assert x[j] == m[|m| - |name| + i] && Lower(x[j]) == name[i];
    }
  }

  lemma InsideField(w: string, b: string, q: nat, e: nat, name: string, v: string, left: nat)
    requires Quoted(w + ("\"\n" + b), q, e, name, v, left) && q < |w| && '\n' !in v
    ensures LeavesMore(w, v)
  {
    hide ScanStr;
    var x := w + ("\"\n" + b);
    assert x[q - 1] == w[q - 1] && x[q] == w[q];
    assert x[q + 1..] == w[q + 1..] + ("\"\n" + b);
    InsideShorter(w, q, b);
  }

  /** A site is not at the end of a line ... */
  lemma NotAtEnd(w: string, b: string, q: nat, e: nat, name: string, v: string, left: nat)
    requires Quoted(w + ("\"\n" + b), q, e, name, v, left) && q >= |w| && '\n' !in v
    ensures q >= |w| + 2
  {
    hide ScanStr;
    var x := w + ("\"\n" + b);
    if q == |w| {
      assert x[q + 1..] == "\n" + b;
      LineEndTaken(b, "");
    }
    assert x[|w| + 1] == '\n';
  }

  /** ... and not behind the message. */
  lemma NotBehind(w: string, t: string, q: nat, e: nat, name: string, v: string)
    requires Quoted(w + ("\"\n" + ("%\n" + t)), q, e, name, v, |t|)
    ensures q < |w| + 2
  {
    hide ScanStr;
    var x := w + ("\"\n" + ("%\n" + t));
    ScanStrShortens(x[q + 1..], false, "");
    assert x[|w| + 2] == '%' && x[|w| + 3] == '\n';
  }

  /** Every site in the text comes from the place of a field of that name, or from inside a field that is not read
      whole and leaves more. */
  lemma {:induction false} ChunkSource(w: string, fs: seq<Field>, t: string, q: nat, e: nat, name: string, v: string)
    requires Quoted(Chunk(w, fs, t), q, e, name, v, |t|) && AreNamed(fs) && IsWord(name) && '\n' !in v
    ensures Source(w, fs, t, name, v)
    decreases |fs|, 1
  {
    hide Quoted, LeavesMore, EndsIn;
    var b := if fs == [] then "%\n" + t else fs[0].name + " = \"" + Chunk(fs[0].text, fs[1..], t);
    if q < |w| {
      InsideField(w, b, q, e, name, v, |t|);
    } else {
      NotAtEnd(w, b, q, e, name, v, |t|);
      if fs == [] {
        NotBehind(w, t, q, e, name, v);
      } else {
        assert w + ("\"\n" + b) == (w + "\"\n") + b;
        LineSource(w + "\"\n", fs, t, q, e, name, v);
      }
    }
  }

  lemma {:induction false} LineSource(a: string, fs: seq<Field>, t: string, q: nat, e: nat, name: string, v: string)
    requires fs != [] && AreNamed(fs) && IsWord(name) && '\n' !in v && a != "" && a[|a| - 1] == '\n' && q >= |a|
    requires Quoted(a + (fs[0].name + " = \"" + Chunk(fs[0].text, fs[1..], t)), q, e, name, v, |t|)
    ensures (EndsIn(fs[0].name, name) && v == OwnString(fs, t)) || Source(fs[0].text, fs[1..], t, name, v)
    decreases |fs|, 0
  {
    hide ScanStr, WordBefore, Source, EndsIn, IsWord, Chunk;
    var m, c := fs[0].name, Chunk(fs[0].text, fs[1..], t);
    var head := a + (m + " = \"");
    var x := a + (m + " = \"" + c);
    assert x == head + c && head[|head| - 1] == '"';
    if q < |head| {
      NoQuoteBefore(a, m, c, q);
      OpeningName(a, m, c, q, e, name, v, |t|);
    } else {
      QuotedInside(head, c, q, e, name, v, |t|);
      ChunkSource(fs[0].text, fs[1..], t, q - |head|, e - |head|, name, v);
    }
  }

  lemma NoQuoteBefore(a: string, m: string, c: string, q: nat)
    requires IsWord(m) && |a| <= q < |a| + |m| + 4 && (a + (m + " = \"" + c))[q] == '"'
    ensures q == |a| + |m| + 3
  {
    var line := m + " = \"" + c;
    assert (a + line)[q] == line[q - |a|];
    forall k | 0 <= k < |m| ensures line[k] != '"' {
      assert line[k] == m[k];
    }
  }
}
