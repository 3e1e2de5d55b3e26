// The pattern language the Huff grammar is written in, as a language of
// strings: character classes (`[...]`, `[^...]`, `\s`, a literal character),
// concatenation (`seq(...)` and juxtaposition inside a regex), alternation
// (`choice(...)`) and repetition (`*`, `+`). `Matches(r, s)` holds when the
// whole of `s` is in the language of `r`; which match a lexer picks among
// several is decided elsewhere (longest match, see module SourceFile).

module Regex {

  datatype Regex =
    | OneOf(chars: set<char>)         // `[abc]`, `\s`, or one literal character
    | NoneOf(chars: set<char>)        // `[^abc]`
    | Cat(first: Regex, second: Regex)
    | Alt(first: Regex, second: Regex)
    | Star(body: Regex)

  /** A single literal character. */
  function Char(c: char): Regex {
    OneOf({c})
  }

  /** `r+`, one or more repetitions. */
  function Plus(r: Regex): Regex {
    Cat(r, Star(r))
  }

  ghost predicate Matches(r: Regex, s: string)
    decreases r, |s|
  {
    match r
    case OneOf(cs) => |s| == 1 && s[0] in cs
    case NoneOf(cs) => |s| == 1 && s[0] !in cs
    case Cat(a, b) => exists i :: 0 <= i <= |s| && Matches(a, s[..i]) && Matches(b, s[i..])
    case Alt(a, b) => Matches(a, s) || Matches(b, s)
    case Star(a) => s == [] || exists i :: 0 < i <= |s| && Matches(a, s[..i]) && Matches(Star(a), s[i..])
  }

  /** The regexes that match exactly one character. */
  predicate IsClass(r: Regex) {
    r.OneOf? || r.NoneOf?
  }

  /** Whether the one-character regex `r` accepts `c`. */
  predicate Admits(r: Regex, c: char) {
    (r.OneOf? && c in r.chars) || (r.NoneOf? && c !in r.chars)
  }

  lemma CatOf(a: Regex, b: Regex, x: string, y: string)
    requires Matches(a, x) && Matches(b, y)
    ensures Matches(Cat(a, b), x + y)
  {
    var s := x + y;
    assert s[..|x|] == x && s[|x|..] == y;
    assert 0 <= |x| <= |s| && Matches(a, s[..|x|]) && Matches(b, s[|x|..]);
  }

  lemma StarOf(a: Regex, x: string, y: string)
    requires x != [] && Matches(a, x) && Matches(Star(a), y)
    ensures Matches(Star(a), x + y)
  {
    var s := x + y;
    assert s[..|x|] == x && s[|x|..] == y;
    assert 0 < |x| <= |s| && Matches(a, s[..|x|]) && Matches(Star(a), s[|x|..]);
  }

  /** The split point of a concatenation match. */
  lemma CatParts(a: Regex, b: Regex, s: string) returns (i: nat)
    requires Matches(Cat(a, b), s)
    ensures i <= |s| && Matches(a, s[..i]) && Matches(b, s[i..])
  {
    i :| 0 <= i <= |s| && Matches(a, s[..i]) && Matches(b, s[i..]);
  }

  /** The first repetition of a non-empty repetition match. */
  lemma StarParts(a: Regex, s: string) returns (i: nat)
    requires s != [] && Matches(Star(a), s)
    ensures 0 < i <= |s| && Matches(a, s[..i]) && Matches(Star(a), s[i..])
  {
    i :| 0 < i <= |s| && Matches(a, s[..i]) && Matches(Star(a), s[i..]);
  }

  /** A repeated character class matches exactly the strings of admitted characters. */
  lemma {:induction false} StarOfClass(r: Regex, s: string)
    requires IsClass(r)
    ensures Matches(Star(r), s) <==> forall k :: 0 <= k < |s| ==> Admits(r, s[k])
    decreases |s|
  {
    if s != [] {
      StarOfClass(r, s[1..]);
      if Matches(Star(r), s) {
        var i :| 0 < i <= |s| && Matches(r, s[..i]) && Matches(Star(r), s[i..]);
        assert i == 1;
        forall k | 0 <= k < |s|
          ensures Admits(r, s[k])
        {
          if k > 0 {
            assert s[k] == s[1..][k - 1];
          }
        }
      }
      if forall k :: 0 <= k < |s| ==> Admits(r, s[k]) {
        assert s[..1] == [s[0]];
        StarOf(r, s[..1], s[1..]);
        assert s[..1] + s[1..] == s;
      }
    }
  }

  /** `r+` for a character class: a non-empty string of admitted characters. */
  lemma PlusOfClass(r: Regex, s: string)
    requires IsClass(r)
    ensures Matches(Plus(r), s) <==> |s| >= 1 && forall k :: 0 <= k < |s| ==> Admits(r, s[k])
  {
    if Matches(Plus(r), s) {
      var i :| 0 <= i <= |s| && Matches(r, s[..i]) && Matches(Star(r), s[i..]);
      assert i == 1;
      StarOfClass(r, s[1..]);
      forall k | 0 <= k < |s|
        ensures Admits(r, s[k])
      {
        if k > 0 {
          assert s[k] == s[1..][k - 1];
        }
      }
    }
    if |s| >= 1 && forall k :: 0 <= k < |s| ==> Admits(r, s[k]) {
      StarOfClass(r, s[1..]);
      assert s[..1] == [s[0]];
      CatOf(r, Star(r), s[..1], s[1..]);
      assert s[..1] + s[1..] == s;
    }
  }

  // Two literal characters in sequence, such as the openers of the two comment kinds.
  lemma PairOf(a: char, b: char, s: string)
    ensures Matches(Cat(Char(a), Char(b)), s) <==> s == [a, b]
  {
    if Matches(Cat(Char(a), Char(b)), s) {
      var i :| 0 <= i <= |s| && Matches(Char(a), s[..i]) && Matches(Char(b), s[i..]);
      assert i == 1;
      assert s == s[..1] + s[1..];
    }
    if s == [a, b] {
      CatOf(Char(a), Char(b), [a], [b]);
      assert [a] + [b] == s;
    }
  }
}
