// Losslessness of the comment lexer: an accepted input is exactly its
// comments, in source order, with runs of whitespace between them, and
// every such layout is read back as the same comments.

module Layout {
  import opened Grammar
  import opened Lexer
  import opened SourceFile

  predicate AllWhitespace(w: string) {
    forall k :: 0 <= k < |w| ==> IsWhitespace(w[k])
  }

  /** The text `gaps[0] + cs[0] + gaps[1] + ... + cs[n-1] + gaps[n]`. */
  function Weave(gaps: seq<string>, cs: seq<Comment>): string
    requires |gaps| == |cs| + 1
    decreases |cs|
  {
    if cs == [] then gaps[0] else gaps[0] + cs[0].text + Weave(gaps[1..], cs[1..])
  }

  /** What may follow a line comment: a line terminator, or nothing when it is the last token. */
  predicate EndsLineComment(gap: string, isLast: bool) {
    if gap == [] then isLast else IsLineTerminator(gap[0])
  }

  /**
   * A layout the lexer reads back as it is: whitespace-only gaps, well
   * formed comments, and each line comment followed by a line terminator
   * or by the end of input (otherwise it would run on into what follows).
   */
  predicate Separated(gaps: seq<string>, cs: seq<Comment>) {
    && |gaps| == |cs| + 1
    && (forall k :: 0 <= k < |gaps| ==> AllWhitespace(gaps[k]))
    && (forall k :: 0 <= k < |cs| ==> WellFormed(cs[k]))
    && (forall k :: 0 <= k < |cs| && cs[k].LineComment? ==> EndsLineComment(gaps[k + 1], k == |cs| - 1))
  }

  /** The layout does not end inside a line comment: its last comment is a block comment, or a gap follows it. */
  predicate ClosedLayout(gaps: seq<string>, cs: seq<Comment>) {
    |gaps| == |cs| + 1 && (cs == [] || cs[|cs| - 1].BlockComment? || gaps[|cs|] != [])
  }

  /**
   * `x` is whitespace and complete comments and stops where a new token may
   * start: whatever follows it, no comment of `x` runs on into it.
   */
  ghost predicate EndsAtTokenBoundary(x: string) {
    exists gaps, cs :: Separated(gaps, cs) && ClosedLayout(gaps, cs) && Weave(gaps, cs) == x
  }

  /** Whitespace alone, the empty input included, ends at a token boundary. */
  lemma WhitespaceIsAtTokenBoundary(w: string)
    requires AllWhitespace(w)
    ensures EndsAtTokenBoundary(w)
  {
    var gaps: seq<string>, cs: seq<Comment> := [w], [];
    assert Separated(gaps, cs) && ClosedLayout(gaps, cs) && Weave(gaps, cs) == w;
  }

  lemma WeaveLeadingChar(c: char, g: seq<string>, cs: seq<Comment>)
    requires |g| == |cs| + 1
    ensures Weave([[c] + g[0]] + g[1..], cs) == [c] + Weave(g, cs)
  {
    var gaps := [[c] + g[0]] + g[1..];
    assert gaps[1..] == g[1..];
  }

  lemma SeparatedLeadingChar(c: char, g: seq<string>, cs: seq<Comment>)
    requires Separated(g, cs) && IsWhitespace(c)
    ensures Separated([[c] + g[0]] + g[1..], cs)
  {
    var gaps := [[c] + g[0]] + g[1..];
    assert forall k :: 1 <= k < |gaps| ==> gaps[k] == g[k];
  }

  lemma SeparatedLeadingComment(c: Comment, g: seq<string>, cs: seq<Comment>)
    requires Separated(g, cs) && WellFormed(c)
    requires c.LineComment? ==> EndsLineComment(g[0], cs == [])
    ensures Separated([[]] + g, [c] + cs)
  {
    var gaps, all := [[]] + g, [c] + cs;
    assert forall k :: 1 <= k < |gaps| ==> gaps[k] == g[k - 1];
    assert forall k :: 1 <= k < |all| ==> all[k] == cs[k - 1];
  }

  /** A comment the lexer recognises at `i` is the token it takes there. */
  lemma LexesComment(s: string, i: nat, j: nat, c: Comment)
    requires i < j <= |s| && c.text == s[i..j] && WellFormed(c)
    requires c.LineComment? ==> j == |s| || IsLineTerminator(s[j])
    ensures NextStep(s, i) == Take(c, j)
  {
    var t := c.text;
    assert s[i] == t[0] && s[i + 1] == t[1];
    if c.LineComment? {
      forall k | i + 2 <= k < j
        ensures !IsLineTerminator(s[k])
      {
        assert s[k] == t[k - i];
      }
    } else {
      LongestBlockEnd(s, i, j);
    }
  }

  lemma LayoutAfterComment(s: string, i: nat, j: nat, c: Comment, g: seq<string>, rest: seq<Comment>)
    requires i < j <= |s| && c.text == s[i..j] && WellFormed(c)
    requires c.LineComment? ==> j == |s| || IsLineTerminator(s[j])
    requires Separated(g, rest) && Weave(g, rest) == s[j..]
    requires j < |s| && IsWhitespace(s[j]) ==> g[0] != [] && g[0][0] == s[j]
    requires j == |s| ==> rest == []
    ensures Separated([[]] + g, [c] + rest) && Weave([[]] + g, [c] + rest) == s[i..]
  {
    if j == |s| {
      assert g[0] == [];
    }
    SeparatedLeadingComment(c, g, rest);
    var gaps := [[]] + g;
    assert gaps[1..] == g;
    assert s[i..] == s[i..j] + s[j..];
  }

  /** The gaps and comments of an accepted input rebuild it, and form a separated layout. */
  lemma {:induction false} LexFromLayout(s: string, i: nat) returns (gaps: seq<string>)
    requires i <= |s| && LexFrom(s, i).Ok?
    ensures Separated(gaps, LexFrom(s, i).value)
    ensures Weave(gaps, LexFrom(s, i).value) == s[i..]
    ensures i < |s| && IsWhitespace(s[i]) ==> gaps[0] != [] && gaps[0][0] == s[i]
    decreases |s| - i
  {
    var cs := LexFrom(s, i).value;
    if i == |s| {
      gaps := [[]];
    } else if IsWhitespace(s[i]) {
      var g := LexFromLayout(s, i + 1);
      assert cs == LexFrom(s, i + 1).value;
      gaps := [[s[i]] + g[0]] + g[1..];
      WeaveLeadingChar(s[i], g, cs);
      SeparatedLeadingChar(s[i], g, cs);
      assert s[i..] == [s[i]] + s[i + 1..];
    } else {
      var j := NextStep(s, i).next;
      var g := LexFromLayout(s, j);
      LayoutAfterComment(s, i, j, cs[0], g, LexFrom(s, j).value);
      gaps := [[]] + g;
    }
  }

  /** Dropping the first character of a non-empty leading gap keeps the layout separated. */
  lemma DropLeadingChar(gaps: seq<string>, cs: seq<Comment>) returns (g: seq<string>)
    requires Separated(gaps, cs) && gaps[0] != []
    ensures Separated(g, cs) && IsWhitespace(gaps[0][0]) && g[1..] == gaps[1..]
    ensures Weave(gaps, cs) == [gaps[0][0]] + Weave(g, cs)
  {
    g := [gaps[0][1..]] + gaps[1..];
    assert [gaps[0][0]] + g[0] == gaps[0] && g[1..] == gaps[1..];
    WeaveLeadingChar(gaps[0][0], g, cs);
    assert forall k :: 1 <= k < |g| ==> g[k] == gaps[k];
  }

  /** The tail of a separated layout is separated, and the first comment's follower is its next gap. */
  lemma SeparatedTail(gaps: seq<string>, cs: seq<Comment>)
    requires Separated(gaps, cs) && cs != []
    ensures Separated(gaps[1..], cs[1..]) && WellFormed(cs[0])
    ensures cs[0].LineComment? ==> EndsLineComment(gaps[1], |cs| == 1)
  {
    var g, rest := gaps[1..], cs[1..];
    assert forall k :: 0 <= k < |g| ==> g[k] == gaps[k + 1];
    assert forall k :: 0 <= k < |rest| ==> rest[k] == cs[k + 1];
  }

  lemma WeaveHead(gaps: seq<string>, cs: seq<Comment>)
    requires |gaps| == |cs| + 1 && gaps[0] == [] && cs != []
    ensures Weave(gaps, cs) == cs[0].text + Weave(gaps[1..], cs[1..])
  {
    assert gaps[0] + cs[0].text == cs[0].text;
  }

  lemma SliceSplit(s: string, i: nat, t: string, w: string)
    requires i <= |s| && s[i..] == t + w
    ensures i + |t| <= |s| && s[i..i + |t|] == t && s[i + |t|..] == w
  {
    assert s[i..i + |t|] == (t + w)[..|t|];
    assert s[i + |t|..] == (t + w)[|t|..];
  }

  /** A layout that opens with a comment is that comment's text, then the rest of the layout. */
  lemma SplitLeadingComment(s: string, i: nat, gaps: seq<string>, cs: seq<Comment>)
    requires i <= |s| && Separated(gaps, cs) && s[i..] == Weave(gaps, cs)
    requires gaps[0] == [] && cs != []
    ensures i + |cs[0].text| <= |s| && s[i..i + |cs[0].text|] == cs[0].text && WellFormed(cs[0])
    ensures Separated(gaps[1..], cs[1..]) && s[i + |cs[0].text|..] == Weave(gaps[1..], cs[1..])
    ensures cs[0].LineComment? ==> i + |cs[0].text| == |s| || IsLineTerminator(s[i + |cs[0].text|])
  {
    var t := cs[0].text;
    var g, rest := gaps[1..], cs[1..];
    SeparatedTail(gaps, cs);
    WeaveHead(gaps, cs);
    SliceSplit(s, i, t, Weave(g, rest));
    var j := i + |t|;
    if cs[0].LineComment? && g[0] != [] {
      assert s[j] == s[j..][0] == g[0][0];
    }
  }

  /** A separated layout starting at `i` is lexed into its own comments. */
  lemma {:induction false} LexFromWeave(s: string, i: nat, gaps: seq<string>, cs: seq<Comment>)
    requires i <= |s| && Separated(gaps, cs) && s[i..] == Weave(gaps, cs)
    ensures LexFrom(s, i) == Ok(cs)
    decreases |s| - i
  {
    if gaps[0] != [] {
      var g := WeaveGap(s, i, gaps, cs);
      LexFromWeave(s, i + 1, g, cs);
      LexFromSkip(s, i);
    } else if cs != [] {
      var j := WeaveComment(s, i, gaps, cs);
      LexFromWeave(s, j, gaps[1..], cs[1..]);
      LexFromTake(s, i, cs[0], j);
      assert cs == [cs[0]] + cs[1..];
    }
  }

  /** A leading whitespace character of a layout is skipped. */
  lemma WeaveGap(s: string, i: nat, gaps: seq<string>, cs: seq<Comment>) returns (g: seq<string>)
    requires i <= |s| && Separated(gaps, cs) && s[i..] == Weave(gaps, cs) && gaps[0] != []
    ensures i < |s| && NextStep(s, i) == Skip
    ensures Separated(g, cs) && s[i + 1..] == Weave(g, cs)
  {
    g := DropLeadingChar(gaps, cs);
    assert s[i] == gaps[0][0] && s[i + 1..] == Weave(g, cs);
  }

  /** A leading comment of a layout is the token the lexer takes. */
  lemma WeaveComment(s: string, i: nat, gaps: seq<string>, cs: seq<Comment>) returns (j: nat)
    requires i <= |s| && Separated(gaps, cs) && s[i..] == Weave(gaps, cs) && gaps[0] == [] && cs != []
    ensures i < j <= |s| && NextStep(s, i) == Take(cs[0], j)
    ensures Separated(gaps[1..], cs[1..]) && s[j..] == Weave(gaps[1..], cs[1..])
  {
    SplitLeadingComment(s, i, gaps, cs);
    j := i + |cs[0].text|;
    LexesComment(s, i, j, cs[0]);
  }


  /**
   * Losslessness and order: the lexer accepts `s` with comments `cs`
   * exactly when `s` is those comments, in order, interleaved with runs of
   * whitespace in a separated layout.
   */
  lemma LexIsLossless(s: string, cs: seq<Comment>)
    ensures Lex(s) == Ok(cs) <==> exists gaps :: Separated(gaps, cs) && Weave(gaps, cs) == s
  {
    if Lex(s) == Ok(cs) {
      var gaps := LexFromLayout(s, 0);
      assert s[0..] == s;
    }
    if exists gaps :: Separated(gaps, cs) && Weave(gaps, cs) == s {
      var gaps :| Separated(gaps, cs) && Weave(gaps, cs) == s;
      assert s[0..] == s;
      LexFromWeave(s, 0, gaps, cs);
    }
  }

  /** Writing comments out in a separated layout and lexing the text gives the comments back. */
  lemma RoundTrip(gaps: seq<string>, cs: seq<Comment>)
    requires Separated(gaps, cs)
    ensures Lex(Weave(gaps, cs)) == Ok(cs)
  {
    var s := Weave(gaps, cs);
    assert s[0..] == s;
    LexFromWeave(s, 0, gaps, cs);
  }

  /** The empty input and every whitespace-only input are accepted with no comments, and only they are. */
  lemma WhitespaceOnlyInputs(s: string)
    ensures Lex(s) == Ok([]) <==> AllWhitespace(s)
  {
    LexIsLossless(s, []);
    if AllWhitespace(s) {
      assert Separated([s], []) && Weave([s], []) == s;
    }
  }
}
