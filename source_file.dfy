// What grammar.js declares, as a relation between an input and its list of
// comments: `source_file` is `repeat(_definition)`, a definition is a
// `comment`, and `/\s/` and `comment` are extras that may sit between any
// two tokens. A tree-sitter lexer takes, at each position, the longest
// token that matches there. `LexesFrom` states this with the rules of
// module Grammar, and the theorems below show that `Lexer.Lex` computes
// exactly it.

module SourceFile {
  import opened Regex
  import opened Grammar
  import opened Lexer

  /** `s[i..j]` is the longest match of `comment` that starts at `i`. */
  ghost predicate LongestComment(s: string, i: nat, j: nat)
    requires i <= j <= |s|
  {
    && Matches(CommentRule, s[i..j])
    && forall m :: j < m <= |s| ==> !Matches(CommentRule, s[i..m])
  }

  /** `c` is the comment the rule of its own kind makes of the text `t`. */
  ghost predicate TokenOf(c: Comment, t: string) {
    match c
    case LineComment(x) => x == t && Matches(LineCommentRule, t)
    case BlockComment(x) => x == t && Matches(BlockCommentRule, t)
  }

  /**
   * `s[i..]` is a run of whitespace extras and comments, each comment the
   * longest match at its position, and `cs` lists those comments in order.
   */
  ghost predicate LexesFrom(s: string, i: nat, cs: seq<Comment>)
    requires i <= |s|
    decreases |s| - i
  {
    if i == |s| then cs == []
    else
      || (Matches(WhitespaceRule, s[i..i + 1]) && LexesFrom(s, i + 1, cs))
      || (&& cs != []
          && exists j :: i < j <= |s| && LongestComment(s, i, j) && TokenOf(cs[0], s[i..j]) && LexesFrom(s, j, cs[1..]))
  }

  ghost predicate IsSourceFile(s: string, cs: seq<Comment>) {
    LexesFrom(s, 0, cs)
  }

  // ---------------------------------------------------------------------
  // The comment the lexer takes is the longest match

  lemma LineCommentIsLongest(s: string, i: nat)
    requires OpensLineComment(s, i)
    ensures LongestComment(s, i, LineEnd(s, i + 2))
    ensures Matches(LineCommentRule, s[i..LineEnd(s, i + 2)])
  {
    var j := LineEnd(s, i + 2);
    LineCommentRuleMeaning(s[i..j]);
    CommentRuleMeaning(s[i..j]);
    forall m | j < m <= |s|
      ensures !Matches(CommentRule, s[i..m])
    {
      var t := s[i..m];
      assert t[j - i] == s[j] && t[1] == '/';
      CommentRuleMeaning(t);
    }
  }

  lemma BlockCommentIsLongest(s: string, i: nat, k: nat)
    requires OpensBlockComment(s, i) && FindClose(s, i + 2) == Some(k)
    ensures LongestComment(s, i, k + 2)
    ensures Matches(BlockCommentRule, s[i..k + 2])
  {
    BlockSliceShape(s, i, k);
    BlockCommentRuleMeaning(s[i..k + 2]);
    CommentRuleMeaning(s[i..k + 2]);
    forall m | k + 2 < m <= |s|
      ensures !Matches(CommentRule, s[i..m])
    {
      var t := s[i..m];
      assert ClosesAt(t, k - i) && t[1] == '*';
      CommentRuleMeaning(t);
    }
  }

  /** The longest line comment at `i` ends where the lexer ends it. */
  lemma LongestLineEnd(s: string, i: nat, j: nat)
    requires i < j <= |s| && LongestComment(s, i, j) && LineText(s[i..j])
    ensures j == LineEnd(s, i + 2)
  {
    forall k | i + 2 <= k < j
      ensures !IsLineTerminator(s[k])
    {
      assert s[k] == s[i..j][k - i];
    }
    LineCommentIsLongest(s, i);
  }

  /** The longest block comment at `i` ends at the first star-slash after the opener. */
  lemma LongestBlockEnd(s: string, i: nat, j: nat)
    requires i < j <= |s| && BlockText(s[i..j])
    ensures FindClose(s, i + 2) == Some(j - 2)
  {
    var t := s[i..j];
    assert ClosesAt(s, j - 2) by {
      assert t[|t| - 2] == s[j - 2] && t[|t| - 1] == s[j - 1];
    }
    forall k | i + 2 <= k < j - 2
      ensures !ClosesAt(s, k)
    {
      assert !ClosesAt(t, k - i);
    }
  }

  // ---------------------------------------------------------------------
  // The lexer computes exactly the declared language

  /** The comment the lexer takes at `i` is the longest match of `comment` there, of the kind its rule says. */
  lemma TakeIsLongest(s: string, i: nat)
    requires i < |s| && NextStep(s, i).Take?
    ensures LongestComment(s, i, NextStep(s, i).next)
    ensures TokenOf(NextStep(s, i).token, s[i..NextStep(s, i).next])
  {
    if OpensLineComment(s, i) {
      LineCommentIsLongest(s, i);
    } else {
      BlockCommentIsLongest(s, i, FindClose(s, i + 2).value);
    }
  }

  lemma {:induction false} LexFromSound(s: string, i: nat)
    requires i <= |s| && LexFrom(s, i).Ok?
    ensures LexesFrom(s, i, LexFrom(s, i).value)
    decreases |s| - i
  {
    var cs := LexFrom(s, i).value;
    if i < |s| {
      match NextStep(s, i)
      case Skip =>
        LexFromSound(s, i + 1);
        assert s[i..i + 1] == [s[i]];
      case Take(c, j) =>
        LexFromSound(s, j);
        TakeIsLongest(s, i);
        assert cs[0] == c && cs[1..] == LexFrom(s, j).value;
        assert i < j <= |s| && LongestComment(s, i, j) && TokenOf(cs[0], s[i..j]) && LexesFrom(s, j, cs[1..]);
    }
  }

  /** A longest comment match at `i` is the token the lexer takes at `i`. */
  lemma LongestIsLexed(s: string, i: nat, j: nat, c: Comment)
    requires i < j <= |s| && LongestComment(s, i, j) && TokenOf(c, s[i..j])
    ensures NextStep(s, i) == Take(c, j)
  {
    var t := s[i..j];
    CommentRuleMeaning(t);
    LineCommentRuleMeaning(t);
    BlockCommentRuleMeaning(t);
    assert s[i] == t[0] && s[i + 1] == t[1];
    if c.LineComment? {
      LongestLineEnd(s, i, j);
    } else {
      LongestBlockEnd(s, i, j);
    }
  }

  lemma {:induction false} LexFromComplete(s: string, i: nat, cs: seq<Comment>)
    requires i <= |s| && LexesFrom(s, i, cs)
    ensures LexFrom(s, i) == Ok(cs)
    decreases |s| - i
  {
    if i < |s| {
      if Matches(WhitespaceRule, s[i..i + 1]) && LexesFrom(s, i + 1, cs) {
        assert s[i..i + 1][0] == s[i];
        LexFromComplete(s, i + 1, cs);
      } else {
        var j :| i < j <= |s| && LongestComment(s, i, j) && TokenOf(cs[0], s[i..j]) && LexesFrom(s, j, cs[1..]);
        LongestIsLexed(s, i, j, cs[0]);
        LexFromComplete(s, j, cs[1..]);
        assert cs == [cs[0]] + cs[1..];
      }
    }
  }

  /** The lexer returns `cs` exactly when the grammar reads the input as the comments `cs`. */
  lemma LexMeetsGrammar(s: string, cs: seq<Comment>)
    ensures Lex(s) == Ok(cs) <==> IsSourceFile(s, cs)
  {
    if Lex(s) == Ok(cs) {
      LexFromSound(s, 0);
    }
    if IsSourceFile(s, cs) {
      LexFromComplete(s, 0, cs);
    }
  }

  /** The lexer fails exactly on the inputs the grammar does not accept. */
  lemma LexFailsOnlyOnNonSourceFiles(s: string)
    ensures Lex(s).Err? <==> forall cs :: !IsSourceFile(s, cs)
  {
    if Lex(s).Ok? {
      LexFromSound(s, 0);
      assert IsSourceFile(s, Lex(s).value);
    }
    forall cs | IsSourceFile(s, cs)
      ensures Lex(s) == Ok(cs)
    {
      LexFromComplete(s, 0, cs);
    }
  }

  /** Under longest match an input is read as at most one list of comments. */
  lemma SourceFileIsUnambiguous(s: string, cs1: seq<Comment>, cs2: seq<Comment>)
    requires IsSourceFile(s, cs1) && IsSourceFile(s, cs2)
    ensures cs1 == cs2
  {
    LexFromComplete(s, 0, cs1);
    LexFromComplete(s, 0, cs2);
  }
}
