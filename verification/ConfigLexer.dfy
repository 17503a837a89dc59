/** The tokens of the configuration language, read character by character. */
module ConfigLexer {
  import opened Wrappers
  import opened Fold
  import opened Lexer
  import opened Numerals

  const MAX_STR_LEN := 256

  datatype Token =
    | Str(s: string) | Int(i: int) | Eq | Name(name: string) | Section | Include | BracketL | BracketR | Eof | Eol
    | Comma | SqBrackL | SqBrackR | Blacklist | Whitelist

  /** A token and the text after it. */
  datatype Scan = Scan(token: Token, rest: string)

  predicate IsAlpha(c: char) {
    'a' <= c <= 'z' || 'A' <= c <= 'Z'
  }

  predicate IsWordChar(c: char) {
    IsAlpha(c) || IsDigit(c) || c == '_'
  }

  /** The length of the run of digits that `t` starts with, and its value on top of `n`. */
  function ScanInt(t: string, n: int): (int, string) {
    if t != "" && IsDigit(t[0]) then ScanInt(t[1..], n * 10 + Digit(t[0])) else (n, t)
  }

  /** A word continues while there is room for it. */
  function ScanWord(t: string, word: string): (string, string) {
    if t != "" && IsWordChar(t[0]) && |word| <= MAX_STR_LEN then ScanWord(t[1..], word + [Lower(t[0])]) else (word, t)
  }

  /** A string ends at a quote, at the end of the text, or when there is no more room; a backslash keeps the character
      after it from meaning anything else. */
  function ScanStr(t: string, escaped: bool, s: string): (string, string) {
    if t == "" then (s, t)
    else if t[0] == '"' && !escaped then (s, t[1..])
    else if |s| > MAX_STR_LEN then (s, if t[0] == '"' then t[1..] else t)
    else if t[0] == '\\' && !escaped then ScanStr(t[1..], true, s)
    else ScanStr(t[1..], false, s + [t[0]])
  }

  function WordToken(word: string): Token {
    if word == "section" then Section else if word == "include" then Include
    else if word == "blacklist" then Blacklist else if word == "whitelist" then Whitelist
    else Name(word)
  }

  /** A character that no token starts with counts as an end of the text. */
  function CharToken(c: char): Token {
    match c
    case ';' => Eol case '\n' => Eol case ',' => Comma case '=' => Eq case '{' => BracketL case '}' => BracketR
    case '[' => SqBrackL case ']' => SqBrackR case _ => Eof
  }

  lemma {:induction false} ScanIntShortens(t: string, n: int)
    ensures |ScanInt(t, n).1| <= |t|
  {
    if t != "" && IsDigit(t[0]) {
      ScanIntShortens(t[1..], n * 10 + Digit(t[0]));
    }
  }

  lemma {:induction false} ScanWordShortens(t: string, word: string)
    ensures |ScanWord(t, word).1| <= |t|
    decreases |t|
  {
    if t != "" && IsWordChar(t[0]) && |word| <= MAX_STR_LEN {
      ScanWordShortens(t[1..], word + [Lower(t[0])]);
    }
  }

  lemma {:induction false} ScanStrShortens(t: string, escaped: bool, s: string)
    ensures |ScanStr(t, escaped, s).1| <= |t|
    decreases |t|
  {
    if t != "" {
      ScanStrShortens(t[1..], true, s);
      ScanStrShortens(t[1..], false, s + [t[0]]);
    }
  }

  /** The next token; it takes at least one character from a text that has any. */
  function NextTok(t: string): (r: Scan)
    ensures if t == "" then r == Scan(Eof, "") else |r.rest| < |t|
    decreases |t|
  {
    if t == "" then Scan(Eof, "")
    else if IsDigit(t[0]) then
      ScanIntShortens(t[1..], Digit(t[0]));
      var n := ScanInt(t[1..], Digit(t[0]));
      Scan(Int(n.0), n.1)
    else if IsAlpha(t[0]) then
      ScanWordShortens(t[1..], [Lower(t[0])]);
      var w := ScanWord(t[1..], [Lower(t[0])]);
      Scan(WordToken(w.0), w.1)
    else if Skipped(t[0]) then NextTok(t[1..])
    else if t[0] == '#' then
      AfterCommentShortens(t[1..]);
      NextTok(AfterComment(t[1..]))
    else if t[0] == '"' then
      ScanStrShortens(t[1..], false, "");
      var s := ScanStr(t[1..], false, "");
      Scan(Str(s.0), s.1)
    else Scan(CharToken(t[0]), t[1..])
  }

  method NextToken(lexer: Lexer) returns (token: Token)
    requires lexer.Valid()
    modifies lexer
    ensures lexer.Valid() && Scan(token, lexer.Rest()) == NextTok(old(lexer.Rest()))
  {
    while true
      invariant lexer.Valid() && NextTok(lexer.Rest()) == NextTok(old(lexer.Rest()))
      decreases |lexer.src| - lexer.pos
    {
      if lexer.seenEnd {
        return Eof;
      }
      var c := lexer.GetC();
      if c.None? {
        return Eof;
      }
      if IsDigit(c.value) {
        token := ReadInt(lexer, c.value);
        return;
      }
      if IsAlpha(c.value) {
        token := ReadWord(lexer, c.value);
        return;
      }
      if c.value == '"' {
        token := ReadStr(lexer);
        return;
      }
      if c.value == '#' {
        AfterCommentShortens(lexer.Rest());
        lexer.SkipComment();
      } else if !Skipped(c.value) {
        return CharToken(c.value);
      }
    }
  }

  method ReadInt(lexer: Lexer, first: char) returns (token: Token)
    requires lexer.Valid() && !lexer.seenEnd && IsDigit(first)
    modifies lexer
    ensures lexer.Valid() && token == Int(ScanInt(old(lexer.Rest()), Digit(first)).0)
    ensures lexer.Rest() == ScanInt(old(lexer.Rest()), Digit(first)).1
  {
    var i := Digit(first);
    var c := lexer.GetC();
    while c.Some? && IsDigit(c.value)
      invariant lexer.Valid() && !lexer.seenEnd
      invariant c.None? ==> lexer.Rest() == ""
      invariant c.Some? ==> lexer.pos > 0 && lexer.src[lexer.pos - 1] == c.value
      invariant ScanInt(Ahead(c, lexer.Rest()), i) == ScanInt(old(lexer.Rest()), Digit(first))
      decreases |lexer.src| - lexer.pos, c.Some?
    {
      i := i * 10 + Digit(c.value);
      c := lexer.GetC();
    }
    lexer.Reuse(c);
    return Int(i);
  }

  method ReadWord(lexer: Lexer, first: char) returns (token: Token)
    requires lexer.Valid() && !lexer.seenEnd && IsAlpha(first)
    modifies lexer
    ensures lexer.Valid() && token == WordToken(ScanWord(old(lexer.Rest()), [Lower(first)]).0)
    ensures lexer.Rest() == ScanWord(old(lexer.Rest()), [Lower(first)]).1
  {
    var word := [Lower(first)];
    var c := lexer.GetC();
    while c.Some? && IsWordChar(c.value) && |word| <= MAX_STR_LEN
      invariant lexer.Valid() && !lexer.seenEnd
      invariant c.None? ==> lexer.Rest() == ""
      invariant c.Some? ==> lexer.pos > 0 && lexer.src[lexer.pos - 1] == c.value
      invariant ScanWord(Ahead(c, lexer.Rest()), word) == ScanWord(old(lexer.Rest()), [Lower(first)])
      decreases |lexer.src| - lexer.pos, c.Some?
    {
      word := word + [Lower(c.value)];
      c := lexer.GetC();
    }
    lexer.Reuse(c);
    return WordToken(word);
  }

  method ReadStr(lexer: Lexer) returns (token: Token)
    requires lexer.Valid() && !lexer.seenEnd
    modifies lexer
    ensures lexer.Valid() && token == Str(ScanStr(old(lexer.Rest()), false, "").0)
    ensures lexer.Rest() == ScanStr(old(lexer.Rest()), false, "").1
  {
    var s, escaped := "", false;
    var c := lexer.GetC();
    while c.Some? && (c.value != '"' || escaped) && |s| <= MAX_STR_LEN
      invariant lexer.Valid() && !lexer.seenEnd
      invariant c.None? ==> lexer.Rest() == ""
      invariant c.Some? ==> lexer.pos > 0 && lexer.src[lexer.pos - 1] == c.value
      invariant ScanStr(Ahead(c, lexer.Rest()), escaped, s) == ScanStr(old(lexer.Rest()), false, "")
      decreases |lexer.src| - lexer.pos, c.Some?
    {
      if c.value == '\\' && !escaped {
        escaped := true;
      } else {
        s := s + [c.value];
        escaped := false;
      }
      c := lexer.GetC();
    }
    if c != Some('"') {
      lexer.Reuse(c);
    }
    return Str(s);
  }
}
