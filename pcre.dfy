/**
 * The part of PHP's PCRE functions the key-rotation command uses:
 * `preg_quote` with '/' as delimiter, and the meaning of a pattern
 * `/^<body>/m` whose body is plain characters and escaped
 * metacharacters, which is the text it matches at the start of a line.
 */
module Pcre {

  import opened Wrappers

  /** The characters `preg_quote` escapes with a backslash when the delimiter is '/'. */
  predicate IsMeta(c: char) {
    c in ".\\+*?[^]$(){}=!<>|:-#/"
  }

  /** No character of `s` is a metacharacter. */
  predicate NoMeta(s: string) {
    forall i :: 0 <= i < |s| ==> !IsMeta(s[i])
  }

  /** `preg_quote` of one character: a backslash before a metacharacter, `\000` for the NUL byte. */
  function QuoteChar(c: char): string {
    if c == '\0' then "\\000" else if IsMeta(c) then ['\\', c] else [c]
  }

  /** `preg_quote(s, '/')`. */
  function PregQuote(s: string): string {
    if s == [] then [] else QuoteChar(s[0]) + PregQuote(s[1..])
  }

  /**
   * The literal text a pattern body stands for, read left to right: a
   * backslash before a metacharacter stands for that character, `\000` for
   * NUL, and any other non-metacharacter for itself. None when the body
   * holds an unescaped metacharacter or any other escape.
   */
  function Unquote(body: string): Option<string>
    decreases |body|
  {
    if body == [] then Some([])
    else if body[0] == '\\' then
      if |body| >= 2 && IsMeta(body[1]) then
        match Unquote(body[2..])
        case None => None
        case Some(rest) => Some([body[1]] + rest)
      else if |body| >= 4 && body[1..4] == "000" then
        match Unquote(body[4..])
        case None => None
        case Some(rest) => Some(['\0'] + rest)
      else None
    else if IsMeta(body[0]) then None
    else
      match Unquote(body[1..])
      case None => None
      case Some(rest) => Some([body[0]] + rest)
  }

  /**
   * For a pattern `/^<body>/m` with a literal body: the text it matches at
   * the start of every line (in multi-line mode `^` matches after each line
   * break). None for any other pattern.
   */
  function AnchoredLiteral(pattern: string): Option<string> {
    if |pattern| >= 4 && pattern[..2] == "/^" && pattern[|pattern| - 2..] == "/m"
    then Unquote(pattern[2..|pattern| - 2])
    else None
  }

  lemma {:induction false} UnquoteAfterQuoteChar(c: char, tail: string)
    ensures Unquote(QuoteChar(c) + tail)
         == match Unquote(tail) case None => None case Some(rest) => Some([c] + rest)
  {
    var q := QuoteChar(c) + tail;
    if c == '\0' {
      assert q[1..4] == "000" && q[4..] == tail;
    } else if IsMeta(c) {
      assert q[2..] == tail;
    } else {
      assert q[1..] == tail;
    }
  }

  /** Quoting is undone by reading the quoted text back: any text matches itself literally once quoted. */
  lemma {:induction false} UnquotePregQuote(s: string)
    ensures Unquote(PregQuote(s)) == Some(s)
    decreases |s|
  {
    if s != [] {
      UnquotePregQuote(s[1..]);
      UnquoteAfterQuoteChar(s[0], PregQuote(s[1..]));
      assert [s[0]] + s[1..] == s;
    }
  }

  /** A prefix without metacharacters is read as itself. */
  lemma {:induction false} UnquotePlainPrefix(plain: string, body: string)
    requires NoMeta(plain)
    ensures Unquote(plain + body)
         == match Unquote(body) case None => None case Some(rest) => Some(plain + rest)
    decreases |plain|
  {
    if plain != [] {
      var q := plain + body;
      assert q[0] == plain[0] && q[1..] == plain[1..] + body;
      assert NoMeta(plain[1..]) by {
        forall i | 0 <= i < |plain[1..]| ensures !IsMeta(plain[1..][i]) {
          assert plain[1..][i] == plain[i + 1];
        }
      }
      assert !IsMeta(plain[0]);
      assert plain[0] != '\\' by {
        assert IsMeta('\\');
      }
      UnquotePlainPrefix(plain[1..], body);
      assert Unquote(q) == match Unquote(q[1..]) case None => None case Some(rest) => Some([q[0]] + rest);
      if Unquote(body).Some? {
        var rest := Unquote(body).value;
        assert Unquote(q[1..]) == Some(plain[1..] + rest);
        assert [plain[0]] + (plain[1..] + rest) == plain + rest;
        assert Unquote(q) == Some(plain + rest);
      } else {
        assert Unquote(q[1..]) == None;
      }
    } else {
      assert plain + body == body;
      if Unquote(body).Some? {
        assert plain + Unquote(body).value == Unquote(body).value;
      }
    }
  }
}
