// The lexical rules of the Huff grammar (grammar.js): the `/\s/` extra and
// the two comment tokens, written as `Regex` values exactly as the grammar
// spells them, together with direct descriptions of the strings they
// accept and the proofs that the two agree.

module Grammar {
  import opened Regex

  /** `\s`, restricted to ASCII: space, tab, line feed, carriage return, vertical tab, form feed. */
  const WhitespaceChars: set<char> := {' ', '\t', '\n', '\r', '\U{000B}', '\U{000C}'}

  predicate IsWhitespace(c: char) {
    c in WhitespaceChars
  }

  predicate IsLineTerminator(c: char) {
    c == '\r' || c == '\n'
  }

  // ---------------------------------------------------------------------
  // The rules as written

  /** The extra `/\s/`: one whitespace character. */
  const WhitespaceRule: Regex := OneOf(WhitespaceChars)

  /** `line_comment`: the literal `//`, then `[^\r\n]*`. */
  const LineCommentRule: Regex := Cat(Cat(Char('/'), Char('/')), Star(NoneOf({'\r', '\n'})))

  /** `[^*]*\*+`: some characters other than a star, then a run of stars. */
  const StarRun: Regex := Cat(Star(NoneOf({'*'})), Plus(Char('*')))

  // `[^/*][^*]*\*+`: the repeated group of the block-comment body.
  const BodyGroup: Regex := Cat(NoneOf({'/', '*'}), StarRun)

  // `[^*]*\*+([^/*][^*]*\*+)*`: the block-comment body, which the final `/` follows.
  const BlockBody: Regex := Cat(StarRun, Star(BodyGroup))

  /** `block_comment`: the literal opener, the body, then the literal `/`. */
  const BlockCommentRule: Regex := Cat(Cat(Char('/'), Char('*')), Cat(BlockBody, Char('/')))

  /** `comment`: a choice of the two comment tokens. */
  const CommentRule: Regex := Alt(LineCommentRule, BlockCommentRule)

  // ---------------------------------------------------------------------
  // What the rules accept, said directly

  /** A closing star-slash pair starts at index `k` of `s`. */
  predicate ClosesAt(s: string, k: int) {
    0 <= k && k + 1 < |s| && s[k] == '*' && s[k + 1] == '/'
  }

  /** Two slashes, then anything up to (not including) a line terminator. */
  predicate LineText(t: string) {
    && |t| >= 2 && t[0] == '/' && t[1] == '/'
    && forall k :: 2 <= k < |t| ==> !IsLineTerminator(t[k])
  }

  /**
   * Slash-star, then text that contains a star-slash pair only as its last
   * two characters: the comment closes at the first star-slash after the
   * opener (the opener's own star does not count).
   */
  predicate BlockText(t: string) {
    && |t| >= 4 && t[0] == '/' && t[1] == '*'
    && ClosesAt(t, |t| - 2)
    && forall k :: 2 <= k < |t| - 2 ==> !ClosesAt(t, k)
  }

  /** The body of a block comment: ends with a star and holds no star-slash pair. */
  ghost predicate BodyText(b: string) {
    |b| >= 1 && b[|b| - 1] == '*' && forall k :: !ClosesAt(b, k)
  }

  /** `[^*]*\*+` said directly: ends with a star, and every star is followed by a star or the end. */
  predicate RunText(u: string) {
    && |u| >= 1 && u[|u| - 1] == '*'
    && forall k :: 0 <= k < |u| - 1 && u[k] == '*' ==> u[k + 1] == '*'
  }

  // ---------------------------------------------------------------------
  // Scanning helpers used by the proofs

  /** The first star at or after `from`, or `|s|`. */
  ghost function FirstStar(s: string, from: nat): (j: nat)
    requires from <= |s|
    ensures from <= j <= |s|
    ensures forall k :: from <= k < j ==> s[k] != '*'
    ensures j < |s| ==> s[j] == '*'
    decreases |s| - from
  {
    if from == |s| || s[from] == '*' then from else FirstStar(s, from + 1)
  }

  /** The end of the run of stars that starts at `from`: the first non-star at or after it, or `|s|`. */
  ghost function StarRunEnd(s: string, from: nat): (m: nat)
    requires from <= |s|
    ensures from <= m <= |s|
    ensures forall k :: from <= k < m ==> s[k] == '*'
    ensures m < |s| ==> s[m] != '*'
    decreases |s| - from
  {
    if from == |s| || s[from] != '*' then from else StarRunEnd(s, from + 1)
  }

  // ---------------------------------------------------------------------
  // The rules accept exactly the strings described above

  lemma {:induction false} RunStarsToEnd(u: string, j: nat)
    requires RunText(u) && j < |u| && u[j] == '*'
    ensures forall k :: j <= k < |u| ==> u[k] == '*'
    decreases |u| - j
  {
    if j + 1 < |u| {
      RunStarsToEnd(u, j + 1);
    }
  }

  /** Star-free text followed by a non-empty run of stars is `[^*]*\*+` text. */
  lemma StarFreeThenStars(p: string, q: string)
    requires forall k :: 0 <= k < |p| ==> p[k] != '*'
    requires |q| >= 1 && forall k :: 0 <= k < |q| ==> q[k] == '*'
    ensures RunText(p + q)
  {
    var u := p + q;
    assert forall k :: 0 <= k < |p| ==> u[k] == p[k];
    assert forall k :: |p| <= k < |u| ==> u[k] == q[k - |p|];
  }

  lemma RunMatchIsRunText(u: string)
    requires Matches(StarRun, u)
    ensures RunText(u)
  {
    var i := CatParts(Star(NoneOf({'*'})), Plus(Char('*')), u);
    var p, q := u[..i], u[i..];
    StarOfClass(NoneOf({'*'}), p);
    PlusOfClass(Char('*'), q);
    assert forall k :: 0 <= k < |p| ==> Admits(NoneOf({'*'}), p[k]);
    assert forall k :: 0 <= k < |q| ==> Admits(Char('*'), q[k]);
    StarFreeThenStars(p, q);
    assert u == p + q;
  }

  lemma RunTextIsRunMatch(u: string)
    requires RunText(u)
    ensures Matches(StarRun, u)
  {
    var j := FirstStar(u, 0);
    RunStarsToEnd(u, j);
    var p, q := u[..j], u[j..];
    StarOfClass(NoneOf({'*'}), p);
    PlusOfClass(Char('*'), q);
    CatOf(Star(NoneOf({'*'})), Plus(Char('*')), p, q);
    assert p + q == u;
  }

  lemma RunRule(u: string)
    ensures Matches(StarRun, u) <==> RunText(u)
  {
    if Matches(StarRun, u) {
      RunMatchIsRunText(u);
    }
    if RunText(u) {
      RunTextIsRunMatch(u);
    }
  }

  lemma GroupRule(g: string)
    ensures Matches(BodyGroup, g) <==> |g| >= 2 && g[0] != '/' && g[0] != '*' && RunText(g[1..])
  {
    if Matches(BodyGroup, g) {
      var i :| 0 <= i <= |g| && Matches(NoneOf({'/', '*'}), g[..i]) && Matches(StarRun, g[i..]);
      assert i == 1;
      RunRule(g[1..]);
    }
    if |g| >= 2 && g[0] != '/' && g[0] != '*' && RunText(g[1..]) {
      RunRule(g[1..]);
      assert Matches(NoneOf({'/', '*'}), g[..1]);
      CatOf(NoneOf({'/', '*'}), StarRun, g[..1], g[1..]);
      assert g[..1] + g[1..] == g;
    }
  }

  /** A run followed by nothing, or by a body that starts with neither slash nor star, is a body. */
  lemma JoinRun(u: string, w: string)
    requires RunText(u)
    requires w == [] || (w[0] != '/' && w[0] != '*' && BodyText(w))
    ensures BodyText(u + w)
  {
    var b := u + w;
    forall k | 0 <= k
      ensures !ClosesAt(b, k)
    {
      if k + 1 < |u| {
        assert b[k] == u[k] && b[k + 1] == u[k + 1];
      } else if k + 1 == |u| {
        assert b[k] == '*';
        if w != [] {
          assert b[k + 1] == w[0];
        }
      } else if k + 1 < |b| {
        assert b[k] == w[k - |u|] && b[k + 1] == w[k - |u| + 1];
        assert !ClosesAt(w, k - |u|);
      }
    }
    if w != [] {
      assert b[|b| - 1] == w[|w| - 1];
    }
  }

  /**
   * A body splits after its first run of stars into a `[^*]*\*+` part and
   * a rest that is empty or again a body starting with neither slash nor star.
   */
  lemma SplitAfterRun(x: string) returns (m: nat)
    requires BodyText(x)
    ensures 1 <= m <= |x| && RunText(x[..m])
    ensures m < |x| ==> x[m] != '/' && x[m] != '*' && BodyText(x[m..])
  {
    var j := FirstStar(x, 0);
    m := StarRunEnd(x, j);
    var u := x[..m];
    forall k | 0 <= k < |u| - 1 && u[k] == '*'
      ensures u[k + 1] == '*'
    {
      assert j <= k;
    }
    if m < |x| {
      assert !ClosesAt(x, m - 1);
      var w := x[m..];
      forall k | 0 <= k
        ensures !ClosesAt(w, k)
      {
        assert !ClosesAt(x, m + k);
      }
    }
  }

  /** A non-star character in front of a body keeps it a body. */
  lemma PrependToBody(c: char, x: string)
    requires c != '*' && BodyText(x)
    ensures BodyText([c] + x)
  {
    var w := [c] + x;
    forall k | 0 <= k
      ensures !ClosesAt(w, k)
    {
      if k >= 1 {
        assert !ClosesAt(x, k - 1);
      }
    }
  }

  /** Dropping a leading non-star character of a body leaves a body. */
  lemma DropFromBody(w: string)
    requires |w| >= 1 && w[0] != '*' && BodyText(w)
    ensures BodyText(w[1..])
  {
    var x := w[1..];
    forall k | 0 <= k
      ensures !ClosesAt(x, k)
    {
      assert !ClosesAt(w, k + 1);
    }
  }

  lemma {:induction false} GroupsToBody(w: string)
    requires w != [] && Matches(Star(BodyGroup), w)
    ensures w[0] != '/' && w[0] != '*' && BodyText(w)
    decreases |w|
  {
    var i := StarParts(BodyGroup, w);
    var g, rest := w[..i], w[i..];
    GroupRule(g);
    if rest != [] {
      GroupsToBody(rest);
    }
    JoinRun(g[1..], rest);
    PrependToBody(g[0], g[1..] + rest);
    assert w == [g[0]] + (g[1..] + rest);
  }

  lemma {:induction false} BodyToGroups(w: string)
    requires w != [] && w[0] != '/' && w[0] != '*' && BodyText(w)
    ensures Matches(Star(BodyGroup), w)
    decreases |w|
  {
    var x := w[1..];
    DropFromBody(w);
    var m := SplitAfterRun(x);
    var g, rest := w[..m + 1], w[m + 1..];
    assert g[1..] == x[..m];
    GroupRule(g);
    assert rest == x[m..];
    if rest != [] {
      BodyToGroups(rest);
    }
    StarOf(BodyGroup, g, rest);
    assert g + rest == w;
  }

  lemma GroupsRule(w: string)
    ensures Matches(Star(BodyGroup), w) <==> w == [] || (w[0] != '/' && w[0] != '*' && BodyText(w))
  {
    if w != [] && Matches(Star(BodyGroup), w) {
      GroupsToBody(w);
    }
    if w != [] && w[0] != '/' && w[0] != '*' && BodyText(w) {
      BodyToGroups(w);
    }
  }

  lemma BodyRule(b: string)
    ensures Matches(BlockBody, b) <==> BodyText(b)
  {
    if Matches(BlockBody, b) {
      var i := CatParts(StarRun, Star(BodyGroup), b);
      var u, w := b[..i], b[i..];
      RunRule(u);
      GroupsRule(w);
      JoinRun(u, w);
      assert u + w == b;
    }
    if BodyText(b) {
      var m := SplitAfterRun(b);
      var u, w := b[..m], b[m..];
      RunRule(u);
      GroupsRule(w);
      CatOf(StarRun, Star(BodyGroup), u, w);
      assert u + w == b;
    }
  }

  /** `line_comment` accepts exactly `//` followed by a line's remaining text. */
  lemma LineCommentRuleMeaning(t: string)
    ensures Matches(LineCommentRule, t) <==> LineText(t)
  {
    var rest := NoneOf({'\r', '\n'});
    if Matches(LineCommentRule, t) {
      var i :| 0 <= i <= |t| && Matches(Cat(Char('/'), Char('/')), t[..i]) && Matches(Star(rest), t[i..]);
      PairOf('/', '/', t[..i]);
      StarOfClass(rest, t[i..]);
      assert i == 2;
      forall k | 2 <= k < |t|
        ensures !IsLineTerminator(t[k])
      {
        assert t[k] == t[2..][k - 2];
      }
    }
    if LineText(t) {
      PairOf('/', '/', t[..2]);
      StarOfClass(rest, t[2..]);
      CatOf(Cat(Char('/'), Char('/')), Star(rest), t[..2], t[2..]);
      assert t[..2] + t[2..] == t;
    }
  }

  /** An opener, a body and a closing slash form a block comment. */
  lemma FramedBody(b: string)
    requires BodyText(b)
    ensures BlockText(['/', '*'] + b + ['/'])
  {
    var t := ['/', '*'] + b + ['/'];
    forall k | 2 <= k < |t| - 2
      ensures !ClosesAt(t, k)
    {
      assert t[k] == b[k - 2] && t[k + 1] == b[k - 1];
      assert !ClosesAt(b, k - 2);
    }
    assert t[|t| - 2] == b[|b| - 1];
  }

  lemma BlockMatchIsBlockText(t: string)
    requires Matches(BlockCommentRule, t)
    ensures BlockText(t)
  {
    var i := CatParts(Cat(Char('/'), Char('*')), Cat(BlockBody, Char('/')), t);
    PairOf('/', '*', t[..i]);
    var r := t[i..];
    var j := CatParts(BlockBody, Char('/'), r);
    var b := r[..j];
    BodyRule(b);
    assert |r| == j + 1 && r[j] == '/';
    assert t == ['/', '*'] + b + ['/'];
    FramedBody(b);
  }

  lemma BlockTextIsBlockMatch(t: string)
    requires BlockText(t)
    ensures Matches(BlockCommentRule, t)
  {
    var b := t[2..|t| - 1];
    forall k | 0 <= k
      ensures !ClosesAt(b, k)
    {
      if k + 1 < |b| {
        assert b[k] == t[k + 2] && b[k + 1] == t[k + 3];
        assert !ClosesAt(t, k + 2);
      }
    }
    BodyRule(b);
    var close := [t[|t| - 1]];
    assert Matches(Char('/'), close);
    CatOf(BlockBody, Char('/'), b, close);
    PairOf('/', '*', t[..2]);
    CatOf(Cat(Char('/'), Char('*')), Cat(BlockBody, Char('/')), t[..2], b + close);
    assert t[..2] + (b + close) == t;
  }

  /**
   * `block_comment` accepts exactly a slash-star opener followed by text
   * that closes at its first star-slash: the regex body cannot run past a
   * star-slash pair, and every such text is matched by it.
   */
  lemma BlockCommentRuleMeaning(t: string)
    ensures Matches(BlockCommentRule, t) <==> BlockText(t)
  {
    if Matches(BlockCommentRule, t) {
      BlockMatchIsBlockText(t);
    }
    if BlockText(t) {
      BlockTextIsBlockMatch(t);
    }
  }

  /** `comment` is one of the two kinds, told apart by the character after the leading slash. */
  lemma CommentRuleMeaning(t: string)
    ensures Matches(CommentRule, t) <==> LineText(t) || BlockText(t)
    ensures Matches(LineCommentRule, t) ==> !Matches(BlockCommentRule, t)
    ensures Matches(CommentRule, t) ==> |t| >= 2 && t[0] == '/' && !IsWhitespace(t[0])
    ensures Matches(CommentRule, t) ==> (Matches(LineCommentRule, t) <==> t[1] == '/')
    ensures Matches(CommentRule, t) ==> (Matches(BlockCommentRule, t) <==> t[1] == '*')
  {
    LineCommentRuleMeaning(t);
    BlockCommentRuleMeaning(t);
  }
}
