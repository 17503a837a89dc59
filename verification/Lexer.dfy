/** A source of characters that can give one back, as both lexers read it. */
module Lexer {
  import opened Wrappers

  predicate Skipped(c: char) {
    c == ' ' || c == '\t' || c == '\r'
  }

  function AfterComment(t: string): string {
    if t != "" && t[0] != '\n' then AfterComment(t[1..]) else t
  }

  lemma {:induction false} AfterCommentShortens(t: string)
    ensures |AfterComment(t)| <= |t|
  {
    if t != "" {
      AfterCommentShortens(t[1..]);
    }
  }

  /** At the end of a line or of the text. */
  predicate AtEnd(t: string) {
    t == "" || t[0] == '\n'
  }

  lemma {:induction false} CommentSkipped(c: string, t: string)
    requires '\n' !in c && AtEnd(t)
    ensures AfterComment(c + t) == t
    decreases c
  {
    if c == "" {
      assert c + t == t;
    } else {
      CommentSkipped(c[1..], t);
      assert (c + t)[1..] == c[1..] + t;
    }
  }

  /** The text whose first character has been read. */
  function Ahead(c: Option<char>, rest: string): (t: string)
    ensures c.Some? ==> t != "" && t[0] == c.value && t[1..] == rest
  {
    if c.Some? then [c.value] + rest else ""
  }

  /** The lexer over its source. Once a token ran into the end of the source, there is nothing but the end. */
  class Lexer {
    const src: string
    var pos: nat
    var seenEnd: bool

    ghost predicate Valid()
      reads this
    {
      pos <= |src| && (seenEnd ==> pos == |src|)
    }

    function Rest(): string
      requires pos <= |src|
      reads this
    {
      src[pos..]
    }

    constructor (src: string)
      ensures Valid() && Rest() == src
    {
      this.src, pos, seenEnd := src, 0, false;
    }

    method GetC() returns (c: Option<char>)
      requires Valid()
      modifies this
      ensures Valid() && seenEnd == old(seenEnd)
      ensures old(Rest()) == Ahead(c, Rest()) && (c.None? ==> Rest() == "")
      ensures c.Some? ==> pos == old(pos) + 1
    {
      if pos == |src| {
        return None;
      }
      c := Some(src[pos]);
      pos := pos + 1;
    }

    /** Gives back the last character; the end cannot be given back, but is remembered. */
    method Reuse(c: Option<char>)
      requires Valid()
      requires c.None? ==> Rest() == ""
      requires c.Some? ==> pos > 0 && src[pos - 1] == c.value && !seenEnd
      modifies this
      ensures Valid() && Rest() == Ahead(c, old(Rest()))
    {
      if c.None? {
        seenEnd := true;
      } else {
        pos := pos - 1;
      }
    }

    method SkipComment()
      requires Valid() && !seenEnd
      modifies this
      ensures Valid() && Rest() == AfterComment(old(Rest()))
    {
      var c := GetC();
      while c.Some? && c.value != '\n'
        invariant Valid() && !seenEnd
        invariant c.None? ==> Rest() == ""
        invariant c.Some? ==> pos > 0 && src[pos - 1] == c.value
        invariant AfterComment(Ahead(c, Rest())) == AfterComment(old(Rest()))
        decreases |src| - pos, c.Some?
      {
        c := GetC();
      }
      Reuse(c);
    }
  }
}
