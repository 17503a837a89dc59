/** The tokens of a blacklist feed. */
module SpamdLexer {
  import opened Lexer
  import opened Numerals

  const MAX_INT6 := 32
  const MAX_INT8 := 255

  datatype Token = Dot | Int6(i: int) | Int8(i: int) | Dash | Slash | Eof | Eol

  datatype Scan = Scan(token: Token, rest: string)

  /** A number ends before the digit that would make it too large. */
  function ScanInt(t: string, i: int): (int, string) {
    if t != "" && IsDigit(t[0]) && i * 10 + Digit(t[0]) <= MAX_INT8
    then ScanInt(t[1..], i * 10 + Digit(t[0])) else (i, t)
  }

  function IntToken(i: int): Token {
    if i <= MAX_INT6 then Int6(i) else Int8(i)
  }

  function CharToken(c: char): Token {
    match c case '\n' => Eol case '.' => Dot case '-' => Dash case '/' => Slash case _ => Eof
  }

  predicate IsToken(t: Token) {
    (t.Int6? ==> 0 <= t.i <= MAX_INT6) && (t.Int8? ==> 0 <= t.i <= MAX_INT8)
  }

  lemma {:induction false} ScanIntShortens(t: string, i: int)
    requires 0 <= i <= MAX_INT8
    ensures |ScanInt(t, i).1| <= |t| && 0 <= ScanInt(t, i).0 <= MAX_INT8
  {
    if t != "" && IsDigit(t[0]) && i * 10 + Digit(t[0]) <= MAX_INT8 {
      ScanIntShortens(t[1..], i * 10 + Digit(t[0]));
    }
  }

  /** The next token; it takes at least one character from a text that has any. */
  function NextTok(t: string): (r: Scan)
    ensures if t == "" then r == Scan(Eof, "") else |r.rest| < |t|
    ensures IsToken(r.token)
    decreases |t|
  {
    if t == "" then Scan(Eof, "")
    else if IsDigit(t[0]) then
      ScanIntShortens(t[1..], Digit(t[0]));
      var n := ScanInt(t[1..], Digit(t[0]));
      Scan(IntToken(n.0), n.1)
    else if Skipped(t[0]) then NextTok(t[1..])
    else if t[0] == '#' then
      AfterCommentShortens(t[1..]);
      NextTok(AfterComment(t[1..]))
    else Scan(CharToken(t[0]), t[1..])
  }

  method NextToken(lexer: Lexer) returns (token: Token)
    requires lexer.Valid()
    modifies lexer
    ensures lexer.Valid() && Scan(token, lexer.Rest()) == NextTok(old(lexer.Rest()))
  {
    while true
      invariant lexer.Valid() && NextTok(lexer.Rest()) == NextTok(old(lexer.Rest()))
      decreases |lexer.src| - lexer.pos
    {
      if lexer.seenEnd {
        return Eof;
      }
      var c := lexer.GetC();
      if c.None? {
        return Eof;
      }
      if IsDigit(c.value) {
        token := ReadInt(lexer, c.value);
        return;
      }
      if c.value == '#' {
        AfterCommentShortens(lexer.Rest());
        lexer.SkipComment();
      } else if !Skipped(c.value) {
        return CharToken(c.value);
      }
    }
  }

  method ReadInt(lexer: Lexer, first: char) returns (token: Token)
    requires lexer.Valid() && !lexer.seenEnd && IsDigit(first)
    modifies lexer
    ensures lexer.Valid() && token == IntToken(ScanInt(old(lexer.Rest()), Digit(first)).0)
    ensures lexer.Rest() == ScanInt(old(lexer.Rest()), Digit(first)).1
  {
    var i := Digit(first);
    var c := lexer.GetC();
    while c.Some? && IsDigit(c.value)
      invariant lexer.Valid() && !lexer.seenEnd
      invariant c.None? ==> lexer.Rest() == ""
      invariant c.Some? ==> lexer.pos > 0 && lexer.src[lexer.pos - 1] == c.value
      invariant ScanInt(Ahead(c, lexer.Rest()), i) == ScanInt(old(lexer.Rest()), Digit(first))
      decreases |lexer.src| - lexer.pos, c.Some?
    {
      var j := i * 10 + Digit(c.value);
      if j > MAX_INT8 {
        lexer.Reuse(c);
        return IntToken(i);
      }
      i := j;
      assert ScanInt(lexer.Rest(), i) == ScanInt(old(lexer.Rest()), Digit(first));
      c := lexer.GetC();
    }
    lexer.Reuse(c);
    return IntToken(i);
  }
}
