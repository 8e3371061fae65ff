/**
 * The few PHP built-ins the HMAC core leans on, as pure functions over
 * strings: boolean conversion of a string, `explode` and its inverse
 * `implode`, and `abs` on integers.
 */
module Php {

  /** PHP's conversion of a string to bool: only "" and "0" are false. */
  predicate Truthy(s: string) {
    s != "" && s != "0"
  }

  /** PHP `abs` on integers (unbounded here). */
  function Abs(x: int): (r: nat)
    ensures r == x || r == -x
  {
    if x < 0 then -x else x
  }

  /** PHP `implode(d, chunks)`: the chunks joined by the delimiter. */
  function Implode(d: char, chunks: seq<string>): string
    requires |chunks| >= 1
  {
    if |chunks| == 1 then chunks[0] else chunks[0] + [d] + Implode(d, chunks[1..])
  }

  /**
   * PHP `explode(d, s)` for a one-character delimiter: the maximal pieces
   * of `s` between delimiters. There is always at least one piece, no piece
   * holds the delimiter, and gluing the pieces back gives `s`.
   */
  function Explode(d: char, s: string): (chunks: seq<string>)
    ensures |chunks| >= 1
    ensures forall i :: 0 <= i < |chunks| ==> d !in chunks[i]
    ensures Implode(d, chunks) == s
    decreases |s|
  {
    if s == [] then [""]
    else
      var rest := Explode(d, s[1..]);
      if s[0] == d then
        assert [""] + rest == [""] + rest[..];
        [""] + rest
      else
        var chunks := [[s[0]] + rest[0]] + rest[1..];
        assert chunks[1..] == rest[1..];
        assert s == [s[0]] + s[1..];
        chunks
  }

  /** A piece without the delimiter explodes to itself. */
  lemma {:induction false} ExplodeSingle(d: char, a: string)
    requires d !in a
    ensures Explode(d, a) == [a]
    decreases |a|
  {
    if a != [] {
      assert d !in a[1..];
      ExplodeSingle(d, a[1..]);
      assert [a[0]] + a[1..] == a;
    }
  }

  /** Exploding `a + d + t`, where `a` has no delimiter, peels off `a` as the first piece. */
  lemma {:induction false} ExplodeCons(d: char, a: string, t: string)
    requires d !in a
    ensures Explode(d, a + [d] + t) == [a] + Explode(d, t)
    decreases |a|
  {
    var s := a + [d] + t;
    if a == [] {
      assert s[1..] == t;
    } else {
      assert s[1..] == a[1..] + [d] + t;
      assert d !in a[1..];
      ExplodeCons(d, a[1..], t);
      assert [a[0]] + a[1..] == a;
    }
  }

  /** `explode` undoes `implode` when no chunk holds the delimiter. */
  lemma {:induction false} ExplodeImplode(d: char, chunks: seq<string>)
    requires |chunks| >= 1
    requires forall i :: 0 <= i < |chunks| ==> d !in chunks[i]
    ensures Explode(d, Implode(d, chunks)) == chunks
    decreases |chunks|
  {
    if |chunks| == 1 {
      ExplodeSingle(d, chunks[0]);
    } else {
      ExplodeImplode(d, chunks[1..]);
      ExplodeCons(d, chunks[0], Implode(d, chunks[1..]));
      assert [chunks[0]] + chunks[1..] == chunks;
    }
  }
}
