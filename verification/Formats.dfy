/** What the format of a rejection message means, independently of the loop that expands it. */
module Formats {
  import opened Wrappers
  import opened Reply

  // ---------------------------------------------------------------- from the left

  predicate IsEscape(c: char) {
    c == '\\' || c == '%'
  }

  /** What an escape and the character behind it stand for: a line end, the client's address, the first of two escapes,
      or for any other character both of them as they are. */
  function Pair(escape: char, c: char, src: string): string {
    if escape == '\\' && c == 'n' then "\n"
    else if escape == '%' && c == 'A' then src
    else if IsEscape(c) then [escape]
    else [escape, c]
  }

  /** Pairs are read from the left; a last escape without a partner stands for nothing. */
  function Meaning(fmt: string, src: string): string {
    if fmt == "" then ""
    else if !IsEscape(fmt[0]) then [fmt[0]] + Meaning(fmt[1..], src)
    else if |fmt| == 1 then ""
    else Pair(fmt[0], fmt[1], src) + Meaning(fmt[2..], src)
  }

  /** The last escape without a partner. */
  function Dangling(fmt: string): Option<char> {
    if fmt == "" then None
    else if !IsEscape(fmt[0]) then Dangling(fmt[1..])
    else if |fmt| == 1 then Some(fmt[0])
    else Dangling(fmt[2..])
  }

  /** Going on from a format already expanded. */
  function ExpandFrom(e: Expansion, fmt: string, src: string): Expansion
    decreases |fmt|
  {
    if fmt == "" then e else ExpandFrom(ExpandChar(e, fmt[0], src), fmt[1..], src)
  }

  lemma {:induction false} ExpandSplits(a: string, b: string, src: string)
    ensures Expand(a + b, src) == ExpandFrom(Expand(a, src), b, src)
    decreases |b|
  {
    hide ExpandChar;
    if b == "" {
      assert a + b == a;
    } else {
      var a' := a + [b[0]];
      assert a'[..|a'| - 1] == a && a' + b[1..] == a + b;
      ExpandSplits(a', b[1..], src);
    }
  }

  lemma MeaningUnfolds(fmt: string, src: string)
    requires fmt != ""
    ensures !IsEscape(fmt[0]) ==>
              Meaning(fmt, src) == [fmt[0]] + Meaning(fmt[1..], src) && Dangling(fmt) == Dangling(fmt[1..])
    ensures IsEscape(fmt[0]) && |fmt| == 1 ==> Meaning(fmt, src) == "" && Dangling(fmt) == Some(fmt[0])
    ensures IsEscape(fmt[0]) && |fmt| > 1 ==>
              Meaning(fmt, src) == Pair(fmt[0], fmt[1], src) + Meaning(fmt[2..], src)
              && Dangling(fmt) == Dangling(fmt[2..])
  {
    hide IsEscape, Pair;
  }

  lemma FromUnfolds(e: Expansion, fmt: string, src: string)
    requires fmt != ""
    ensures ExpandFrom(e, fmt, src) == ExpandFrom(ExpandChar(e, fmt[0], src), fmt[1..], src)
  {
    hide ExpandChar;
  }

  lemma FromNothing(e: Expansion, fmt: string, src: string)
    requires fmt == ""
    ensures ExpandFrom(e, fmt, src) == e && Meaning(fmt, src) == "" && Dangling(fmt) == None
  {
  }

  /** From no waiting escape the loop puts out what the format means and leaves its last escape waiting. */
  lemma {:induction false} FromMeans(e: Expansion, fmt: string, src: string)
    requires e.saved.None?
    ensures ExpandFrom(e, fmt, src) == Expansion(e.out + Meaning(fmt, src), Dangling(fmt))
    decreases |fmt|
  {
    hide ExpandFrom, Meaning, Dangling;
    if fmt == "" {
      FromNothing(e, fmt, src);
      assert e.out + "" == e.out;
    } else {
      var e' := ExpandChar(e, fmt[0], src);
      FromUnfolds(e, fmt, src);
      MeaningUnfolds(fmt, src);
      if !IsEscape(fmt[0]) {
        FromMeans(e', fmt[1..], src);
        assert e.out + [fmt[0]] + Meaning(fmt[1..], src) == e.out + ([fmt[0]] + Meaning(fmt[1..], src));
      } else if |fmt| == 1 {
        FromNothing(e', fmt[1..], src);
        assert e.out + "" == e.out;
      } else {
        var s := Pair(fmt[0], fmt[1], src);
        FromUnfolds(e', fmt[1..], src);
        assert fmt[1..][0] == fmt[1] && fmt[1..][1..] == fmt[2..];
        PairExpands(e, fmt[0], fmt[1], src);
        FromMeans(Expansion(e.out + s, None), fmt[2..], src);
        assert e.out + s + Meaning(fmt[2..], src) == e.out + (s + Meaning(fmt[2..], src));
      }
    }
  }

  lemma PairExpands(e: Expansion, escape: char, c: char, src: string)
    requires e.saved.None? && IsEscape(escape)
    ensures ExpandChar(ExpandChar(e, escape, src), c, src) == Expansion(e.out + Pair(escape, c, src), None)
  {
  }

  /** The loop expands every format to what it means. */
  lemma ExpandMeans(fmt: string, src: string)
    ensures Expand(fmt, src) == Expansion(Meaning(fmt, src), Dangling(fmt))
  {
    assert "" + fmt == fmt && "" + Meaning(fmt, src) == Meaning(fmt, src);
    ExpandSplits("", fmt, src);
    FromMeans(Expansion("", None), fmt, src);
  }

  // ---------------------------------------------------------------- by parts

  /** A text without escapes, the address, a line end, one of the escapes, or an escape before another character. */
  datatype Part = Literal(text: string) | Address | LineEnd | Percent | Backslash | Kept(escape: char, c: char)

  predicate IsPart(p: Part) {
    match p
    case Literal(text) => forall i :: 0 <= i < |text| ==> !IsEscape(text[i])
    case Kept(escape, c) => IsEscape(escape) && !IsEscape(c) && !(escape == '\\' && c == 'n')
                            && !(escape == '%' && c == 'A')
    case _ => true
  }

  predicate AreParts(ps: seq<Part>) {
    forall i :: 0 <= i < |ps| ==> IsPart(ps[i])
  }

  /** How a part is written. */
  function Spelled(p: Part): string {
    match p
    case Literal(text) => text
    case Address => "%A"
    case LineEnd => "\\n"
    case Percent => "%%"
    case Backslash => "\\\\"
    case Kept(escape, c) => [escape, c]
  }

  /** What it is expanded to. */
  function Meant(p: Part, src: string): string {
    match p
    case Literal(text) => text
    case Address => src
    case LineEnd => "\n"
    case Percent => "%"
    case Backslash => "\\"
    case Kept(escape, c) => [escape, c]
  }

  function AllSpelled(ps: seq<Part>): string {
    if ps == [] then "" else Spelled(ps[0]) + AllSpelled(ps[1..])
  }

  function AllMeant(ps: seq<Part>, src: string): string {
    if ps == [] then "" else Meant(ps[0], src) + AllMeant(ps[1..], src)
  }

  lemma {:induction false} LiteralMeans(text: string, rest: string, src: string)
    requires forall i :: 0 <= i < |text| ==> !IsEscape(text[i])
    ensures Meaning(text + rest, src) == text + Meaning(rest, src) && Dangling(text + rest) == Dangling(rest)
  {
    hide Meaning, Dangling;
    if text == "" {
      assert text + rest == rest && text + Meaning(rest, src) == Meaning(rest, src);
    } else {
      LiteralMeans(text[1..], rest, src);
      MeaningUnfolds(text + rest, src);
      assert (text + rest)[1..] == text[1..] + rest;
      assert text + Meaning(rest, src) == [text[0]] + (text[1..] + Meaning(rest, src));
    }
  }

  lemma PartMeans(p: Part, rest: string, src: string)
    requires IsPart(p)
    ensures Meaning(Spelled(p) + rest, src) == Meant(p, src) + Meaning(rest, src)
    ensures Dangling(Spelled(p) + rest) == Dangling(rest)
  {
    if p.Literal? {
      LiteralMeans(p.text, rest, src);
    } else {
      var t := Spelled(p) + rest;
      assert t[2..] == rest && t[0] == Spelled(p)[0] && t[1] == Spelled(p)[1];
    }
  }

  /** A format put together from parts is expanded part by part, and no escape is left waiting. */
  lemma {:induction false} PartsExpand(ps: seq<Part>, src: string)
    requires AreParts(ps)
    ensures Expand(AllSpelled(ps), src) == Expansion(AllMeant(ps, src), None)
  {
    if ps != [] {
      PartsExpand(ps[1..], src);
      ExpandMeans(AllSpelled(ps[1..]), src);
      PartMeans(ps[0], AllSpelled(ps[1..]), src);
    }
    ExpandMeans(AllSpelled(ps), src);
  }

  /** Two different escapes side by side stand for the first of them. */
  lemma MixedEscapes(rest: string, src: string)
    ensures Expand("%\\" + rest, src).out == "%" + Expand(rest, src).out
    ensures Expand("\\%" + rest, src).out == "\\" + Expand(rest, src).out
  {
    ExpandMeans(rest, src);
    assert ("%\\" + rest)[2..] == rest && ("\\%" + rest)[2..] == rest;
    ExpandMeans("%\\" + rest, src);
    ExpandMeans("\\%" + rest, src);
  }

  /** A message that names the address once, as the shipped ones do, has it in the place of its `%A`. */
  lemma AddressPut(a: string, b: string, src: string)
    requires IsPart(Literal(a)) && IsPart(Literal(b))
    ensures Expand(a + ("%A" + b), src) == Expansion(a + (src + b), None)
  {
    ExpandMeans(a + ("%A" + b), src);
    LiteralMeans(a, "%A" + b, src);
    PartMeans(Address, b, src);
    LiteralMeans(b, "", src);
    assert b + "" == b;
  }
}
