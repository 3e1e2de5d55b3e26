// Consequences of the lexer model that grammar.js promises for whole
// files: lexing depends only on what follows a position, a file that ends
// at a token boundary can be followed by any text, a failure is reported at
// a token boundary, an unclosed block comment or a stray character at a
// token boundary rejects the file, and comment openers inside a comment are
// plain text.

module Properties {
  import opened Regex
  import opened Grammar
  import opened Lexer
  import opened Layout

  /** A result whose error position is moved `d` characters on. */
  function Shifted(r: Result<seq<Comment>>, d: nat): Result<seq<Comment>> {
    match r
    case Ok(cs) => Ok(cs)
    case Err(e) => Err(e.(pos := e.pos + d))
  }

  /** `cs` followed by the comments of `r`, or the error of `r`. */
  function Append(cs: seq<Comment>, r: Result<seq<Comment>>): Result<seq<Comment>> {
    match r
    case Ok(more) => Ok(cs + more)
    case Err(e) => Err(e)
  }

  // ---------------------------------------------------------------------
  // The scanners are determined by their contracts

  lemma LineEndIs(s: string, i: nat, j: nat)
    requires i <= j <= |s|
    requires forall k :: i <= k < j ==> !IsLineTerminator(s[k])
    requires j == |s| || IsLineTerminator(s[j])
    ensures LineEnd(s, i) == j
  {
  }

  lemma FindCloseIs(s: string, i: nat, k: nat)
    requires i <= k && ClosesAt(s, k)
    requires forall m :: i <= m < k ==> !ClosesAt(s, m)
    ensures FindClose(s, i) == Some(k)
  {
  }

  lemma FindCloseNone(s: string, i: nat)
    requires i <= |s| && forall k :: i <= k ==> !ClosesAt(s, k)
    ensures FindClose(s, i) == None
  {
  }

  // ---------------------------------------------------------------------
  // Lexing only looks ahead

  // The lemmas below name a position `p` of `x + y` as a variable equal to
  // `|x| + i`, so that the solver does not rewrite the sums.

  lemma CharsShift(x: string, y: string, i: nat, p: nat)
    requires i < |y| && p == |x| + i
    ensures p < |x + y| && (x + y)[p] == y[i]
    ensures OpensLineComment(x + y, p) == OpensLineComment(y, i)
    ensures OpensBlockComment(x + y, p) == OpensBlockComment(y, i)
  {
    assert (x + y)[p] == y[i];
    if i + 1 < |y| {
      assert (x + y)[p + 1] == y[i + 1];
    }
  }

  lemma SliceShift(x: string, y: string, a: nat, b: nat, p: nat, q: nat)
    requires a <= b <= |y| && p == |x| + a && q == |x| + b
    ensures q <= |x + y| && (x + y)[p..q] == y[a..b]
  {
  }

  lemma LineEndShift(x: string, y: string, i: nat, p: nat)
    requires i <= |y| && p == |x| + i
    ensures LineEnd(x + y, p) == |x| + LineEnd(y, i)
  {
    var s, j := x + y, LineEnd(y, i);
    assert forall k :: |x| <= k < |s| ==> s[k] == y[k - |x|];
    LineEndIs(s, p, |x| + j);
  }

  lemma FindCloseShift(x: string, y: string, i: nat, p: nat)
    requires i <= |y| && p == |x| + i
    ensures FindClose(x + y, p) == match FindClose(y, i) case None => None case Some(k) => Some(|x| + k)
  {
    var s := x + y;
    assert forall k :: |x| <= k < |s| ==> s[k] == y[k - |x|];
    assert forall k :: |x| <= k ==> (ClosesAt(s, k) <==> ClosesAt(y, k - |x|));
    match FindClose(y, i)
    case None =>
      FindCloseNone(s, p);
    case Some(k) =>
      FindCloseIs(s, p, |x| + k);
  }

  /** A lexer step with its positions moved `d` characters on. */
  function ShiftedStep(st: Step, d: nat): Step {
    match st
    case Skip => Skip
    case Take(c, j) => Take(c, j + d)
    case Stop(e) => Stop(e.(pos := e.pos + d))
  }

  lemma LineStepShift(x: string, y: string, i: nat, p: nat)
    requires i < |y| && !IsWhitespace(y[i]) && OpensLineComment(y, i) && p == |x| + i
    ensures NextStep(x + y, p) == Take(LineComment(y[i..LineEnd(y, i + 2)]), |x| + LineEnd(y, i + 2))
  {
    var j := LineEnd(y, i + 2);
    CharsShift(x, y, i, p);
    LineEndShift(x, y, i + 2, p + 2);
    SliceShift(x, y, i, j, p, |x| + j);
  }

  lemma UnclosedStepShift(x: string, y: string, i: nat, p: nat)
    requires i < |y| && !IsWhitespace(y[i]) && OpensBlockComment(y, i) && FindClose(y, i + 2).None?
    requires p == |x| + i
    ensures NextStep(x + y, p) == Stop(UnterminatedBlockComment(p))
  {
    CharsShift(x, y, i, p);
    FindCloseShift(x, y, i + 2, p + 2);
  }

  lemma ClosedStepShift(x: string, y: string, i: nat, k: nat, p: nat)
    requires i < |y| && !IsWhitespace(y[i]) && OpensBlockComment(y, i) && FindClose(y, i + 2) == Some(k)
    requires p == |x| + i
    ensures k + 2 <= |y| && NextStep(x + y, p) == Take(BlockComment(y[i..k + 2]), |x| + k + 2)
  {
    var q := |x| + k;
    CharsShift(x, y, i, p);
    FindCloseShift(x, y, i + 2, p + 2);
    BlockStepAt(x + y, p, q);
    SliceShift(x, y, i, k + 2, p, q + 2);
  }

  /** The block comment the lexer takes runs up to the first star-slash after its opener. */
  lemma BlockStepAt(s: string, p: nat, q: nat)
    requires p < |s| && !IsWhitespace(s[p]) && OpensBlockComment(s, p) && FindClose(s, p + 2) == Some(q)
    ensures q + 2 <= |s| && NextStep(s, p) == Take(BlockComment(s[p..q + 2]), q + 2)
  {
  }

  /** The lexer's decision at a position depends only on the text from there on. */
  lemma NextStepShift(x: string, y: string, i: nat, p: nat)
    requires i < |y| && p == |x| + i
    ensures NextStep(x + y, p) == ShiftedStep(NextStep(y, i), |x|)
  {
    CharsShift(x, y, i, p);
    if IsWhitespace(y[i]) {
    } else if OpensLineComment(y, i) {
      LineStepShift(x, y, i, p);
    } else if OpensBlockComment(y, i) {
      match FindClose(y, i + 2)
      case None => UnclosedStepShift(x, y, i, p);
      case Some(k) => ClosedStepShift(x, y, i, k, p);
    }
  }

  // ---------------------------------------------------------------------
  // A prefix that ends at a token boundary is lexed on its own

  lemma PrependAppend(c: Comment, cs: seq<Comment>, r: Result<seq<Comment>>)
    ensures Prepend(c, Append(cs, r)) == Append([c] + cs, r)
  {
    if r.Ok? {
      assert [c] + (cs + r.value) == ([c] + cs) + r.value;
    }
  }

  lemma AppendNothing(r: Result<seq<Comment>>)
    ensures Append([], r) == r
  {
    if r.Ok? {
      assert [] + r.value == r.value;
    }
  }

  /** A leading whitespace character of a laid-out stretch is skipped. */
  lemma PrefixGap(s: string, i: nat, j: nat, gaps: seq<string>, cs: seq<Comment>) returns (g: seq<string>)
    requires i <= j <= |s| && Separated(gaps, cs) && ClosedLayout(gaps, cs) && s[i..j] == Weave(gaps, cs)
    requires gaps[0] != []
    ensures i < j && NextStep(s, i) == Skip
    ensures Separated(g, cs) && ClosedLayout(g, cs) && s[i + 1..j] == Weave(g, cs)
  {
    g := DropLeadingChar(gaps, cs);
    assert s[i..j] == [gaps[0][0]] + Weave(g, cs);
    assert s[i] == gaps[0][0] && s[i + 1..j] == Weave(g, cs);
    if cs != [] {
      assert g[|cs|] == g[1..][|cs| - 1] == gaps[|cs|];
    }
  }

  /** A leading comment of a laid-out stretch is the token the lexer takes there. */
  lemma PrefixComment(s: string, i: nat, j: nat, gaps: seq<string>, cs: seq<Comment>) returns (k: nat)
    requires i <= j <= |s| && Separated(gaps, cs) && ClosedLayout(gaps, cs) && s[i..j] == Weave(gaps, cs)
    requires gaps[0] == [] && cs != []
    ensures i < k <= j && NextStep(s, i) == Take(cs[0], k)
    ensures Separated(gaps[1..], cs[1..]) && ClosedLayout(gaps[1..], cs[1..]) && s[k..j] == Weave(gaps[1..], cs[1..])
  {
    var x := s[..j];
    assert x[i..] == s[i..j];
    SplitLeadingComment(x, i, gaps, cs);
    var g, rest := gaps[1..], cs[1..];
    k := i + |cs[0].text|;
    if rest != [] {
      assert |Weave(g, rest)| >= |rest[0].text| >= 2;
      assert rest[|rest| - 1] == cs[|cs| - 1] && g[|rest|] == gaps[|cs|];
    } else if cs[0].LineComment? {
      assert g[0] == gaps[|cs|];
    }
    assert s[i..k] == x[i..k] && s[k..j] == x[k..];
    if cs[0].LineComment? {
      assert k < j && s[k] == x[k];
    }
    LexesComment(s, i, k, cs[0]);
  }

  /** A stretch laid out as whitespace and comments, not ending inside a line comment, is lexed as those comments whatever follows it. */
  lemma {:induction false} LexFromClosedPrefix(s: string, i: nat, j: nat, gaps: seq<string>, cs: seq<Comment>)
    requires i <= j <= |s| && Separated(gaps, cs) && ClosedLayout(gaps, cs) && s[i..j] == Weave(gaps, cs)
    ensures LexFrom(s, i) == Append(cs, LexFrom(s, j))
    decreases j - i
  {
    if gaps[0] != [] {
      var g := PrefixGap(s, i, j, gaps, cs);
      LexFromClosedPrefix(s, i + 1, j, g, cs);
      LexFromSkip(s, i);
    } else if cs != [] {
      var k := PrefixComment(s, i, j, gaps, cs);
      LexFromClosedPrefix(s, k, j, gaps[1..], cs[1..]);
      LexFromTake(s, i, cs[0], k);
      PrependAppend(cs[0], cs[1..], LexFrom(s, j));
      assert [cs[0]] + cs[1..] == cs;
    } else {
      assert s[i..j] == [];
      AppendNothing(LexFrom(s, j));
    }
  }

  // ---------------------------------------------------------------------
  // Lexing after a prefix

  /** Prepending a comment commutes with shifting the error position. */
  lemma PrependShifted(c: Comment, a: Result<seq<Comment>>, a2: Result<seq<Comment>>,
                       b: Result<seq<Comment>>, b2: Result<seq<Comment>>, d: nat)
    requires a == Prepend(c, a2) && b == Prepend(c, b2) && a2 == Shifted(b2, d)
    ensures a == Shifted(b, d)
  {
  }

  /**
   * Lexing `x + y` from `p`, the position `i` of `y` moved past `x`, gives
   * the same comments as lexing `y` from `i`, or the same error moved by `|x|`.
   */
  lemma {:induction false} LexFromShift(x: string, y: string, i: nat, p: nat)
    requires i <= |y| && p == |x| + i
    ensures LexFrom(x + y, p) == Shifted(LexFrom(y, i), |x|)
    decreases |y| - i, 1
  {
    if i < |y| {
      match NextStep(y, i)
      case Skip => ShiftSkip(x, y, i, p);
      case Take(c, j) => ShiftTake(x, y, i, c, j, p);
      case Stop(e) => ShiftStop(x, y, i, e, p);
    }
  }

  // The steps of `LexFromShift`. Each names the moved positions of `x + y`
  // as variables, so that the solver does not rewrite the sums.

  lemma {:induction false} ShiftSkip(x: string, y: string, i: nat, p: nat)
    requires i < |y| && NextStep(y, i) == Skip && p == |x| + i
    ensures LexFrom(x + y, p) == Shifted(LexFrom(y, i), |x|)
    decreases |y| - i, 0
  {
    var q := p + 1;
    LexFromShift(x, y, i + 1, q);
    NextStepShift(x, y, i, p);
    LexFromSkip(x + y, p);
    LexFromSkip(y, i);
  }

  lemma TakeStep(x: string, y: string, i: nat, c: Comment, j: nat, p: nat, q: nat)
    requires i < |y| && NextStep(y, i) == Take(c, j) && p == |x| + i && q == |x| + j
    ensures LexFrom(x + y, p) == Prepend(c, LexFrom(x + y, q))
  {
    NextStepShift(x, y, i, p);
    LexFromTake(x + y, p, c, q);
  }

  lemma {:induction false} ShiftTake(x: string, y: string, i: nat, c: Comment, j: nat, p: nat)
    requires i < |y| && NextStep(y, i) == Take(c, j) && p == |x| + i
    ensures LexFrom(x + y, p) == Shifted(LexFrom(y, i), |x|)
    decreases |y| - i, 0
  {
    var q := |x| + j;
    LexFromShift(x, y, j, q);
    LexFromTake(y, i, c, j);
    TakeStep(x, y, i, c, j, p, q);
    PrependShifted(c, LexFrom(x + y, p), LexFrom(x + y, q), LexFrom(y, i), LexFrom(y, j), |x|);
  }

  lemma ShiftStop(x: string, y: string, i: nat, e: LexError, p: nat)
    requires i < |y| && NextStep(y, i) == Stop(e) && p == |x| + i
    ensures LexFrom(x + y, p) == Shifted(LexFrom(y, i), |x|)
  {
    NextStepShift(x, y, i, p);
    LexFromStop(x + y, p, e.(pos := p));
    LexFromStop(y, i, e);
  }

  /**
   * Concatenation: when `x` ends at a token boundary, `x + y` lexes as the
   * comments of `x` followed by those of `y`, and fails where `y` fails.
   */
  lemma LexConcat(x: string, y: string)
    requires EndsAtTokenBoundary(x)
    ensures Lex(x).Ok? && Lex(x + y) == Append(Lex(x).value, Shifted(Lex(y), |x|))
  {
    var gaps, cs :| Separated(gaps, cs) && ClosedLayout(gaps, cs) && Weave(gaps, cs) == x;
    RoundTrip(gaps, cs);
    assert (x + y)[0..|x|] == x;
    LexFromClosedPrefix(x + y, 0, |x|, gaps, cs);
    LexFromShift(x, y, 0, |x|);
  }

  // ---------------------------------------------------------------------
  // Rejection

  /** A block comment that opens at a token boundary, with no star-slash after it, rejects the file there. */
  lemma UnclosedBlockCommentRejected(x: string, y: string)
    requires EndsAtTokenBoundary(x)
    requires forall k :: !ClosesAt(y, k)
    ensures Lex(x + ("/*" + y)) == Err(UnterminatedBlockComment(|x|))
  {
    var z := "/*" + y;
    assert forall k :: 2 <= k ==> (ClosesAt(z, k) <==> ClosesAt(y, k - 2));
    FindCloseNone(z, 2);
    assert Lex(z) == Err(UnterminatedBlockComment(0));
    LexConcat(x, z);
  }

  /** A character that is neither whitespace nor the start of a comment, at a token boundary, rejects the file there. */
  lemma StrayCharacterRejected(x: string, z: string)
    requires EndsAtTokenBoundary(x)
    requires z != [] && !IsWhitespace(z[0]) && !OpensLineComment(z, 0) && !OpensBlockComment(z, 0)
    ensures Lex(x + z) == Err(InvalidCharacter(|x|))
  {
    assert Lex(z) == Err(InvalidCharacter(0));
    LexConcat(x, z);
  }

  /** After a comment that stops short of the failure, the text up to it is still a closed layout. */
  lemma ErrorLayoutAfterComment(s: string, i: nat, j: nat, p: nat, c: Comment, g: seq<string>, rest: seq<Comment>)
    requires i < j <= p < |s| && c.text == s[i..j] && WellFormed(c) && !IsWhitespace(s[p])
    requires c.LineComment? ==> IsLineTerminator(s[j])
    requires Separated(g, rest) && ClosedLayout(g, rest) && Weave(g, rest) == s[j..p]
    ensures Separated([[]] + g, [c] + rest) && ClosedLayout([[]] + g, [c] + rest)
    ensures Weave([[]] + g, [c] + rest) == s[i..p]
  {
    if g[0] != [] {
      assert g[0][0] == Weave(g, rest)[0] == s[j];
    } else if rest != [] {
      assert Weave(g, rest)[0] == rest[0].text[0] == '/' && s[j] == '/';
    } else {
      assert j == p;
    }
    SeparatedLeadingComment(c, g, rest);
    var gaps, all := [[]] + g, [c] + rest;
    assert gaps[1..] == g && all[1..] == rest;
    if rest != [] {
      assert all[|all| - 1] == rest[|rest| - 1] && gaps[|all|] == g[|rest|];
    }
    assert s[i..p] == s[i..j] + s[j..p];
  }

  /** A whitespace character before a closed layout joins its first gap. */
  lemma ErrorLayoutAfterGap(s: string, i: nat, p: nat, g: seq<string>, cs: seq<Comment>) returns (gaps: seq<string>)
    requires i < p <= |s| && IsWhitespace(s[i])
    requires Separated(g, cs) && ClosedLayout(g, cs) && Weave(g, cs) == s[i + 1..p]
    ensures Separated(gaps, cs) && ClosedLayout(gaps, cs) && Weave(gaps, cs) == s[i..p]
  {
    gaps := [[s[i]] + g[0]] + g[1..];
    WeaveLeadingChar(s[i], g, cs);
    SeparatedLeadingChar(s[i], g, cs);
    if cs != [] {
      assert gaps[|cs|] == g[|cs|];
    }
    assert s[i..p] == [s[i]] + s[i + 1..p];
  }

  lemma {:induction false} LexFromErrorLayout(s: string, i: nat) returns (gaps: seq<string>, cs: seq<Comment>)
    requires i <= |s| && LexFrom(s, i).Err?
    ensures Separated(gaps, cs) && ClosedLayout(gaps, cs) && Weave(gaps, cs) == s[i..LexFrom(s, i).error.pos]
    decreases |s| - i
  {
    var p := LexFrom(s, i).error.pos;
    match NextStep(s, i)
    case Skip =>
      LexFromSkip(s, i);
      var g;
      g, cs := LexFromErrorLayout(s, i + 1);
      gaps := ErrorLayoutAfterGap(s, i, p, g, cs);
    case Take(c, j) =>
      LexFromTake(s, i, c, j);
      var g, rest := LexFromErrorLayout(s, j);
      ErrorLayoutAfterComment(s, i, j, p, c, g, rest);
      gaps, cs := [[]] + g, [c] + rest;
    case Stop(e) =>
      LexFromStop(s, i, e);
      gaps, cs := [[]], [];
  }

  /**
   * A failure is at the first token boundary where neither whitespace nor a
   * complete comment starts: the text before it is whitespace and complete
   * comments, and ends at a token boundary.
   */
  lemma ErrorAtTokenBoundary(s: string)
    requires Lex(s).Err?
    ensures EndsAtTokenBoundary(s[..Lex(s).error.pos])
  {
    var gaps, cs := LexFromErrorLayout(s, 0);
    assert s[0..Lex(s).error.pos] == s[..Lex(s).error.pos];
  }

  // ---------------------------------------------------------------------
  // Openers inside comments are text

  /** A line comment runs to the end of its line, whatever openers it holds. */
  lemma LineCommentTakesRestOfLine(body: string)
    requires forall k :: 0 <= k < |body| ==> !IsLineTerminator(body[k])
    ensures Lex("//" + body) == Ok([LineComment("//" + body)])
  {
    var t := "//" + body;
    assert forall k :: 2 <= k < |t| ==> t[k] == body[k - 2];
    var gaps, cs := [[], []], [LineComment(t)];
    assert Separated(gaps, cs);
    assert Weave(gaps, cs) == t;
    RoundTrip(gaps, cs);
  }

  /** A block comment runs to its first star-slash, across lines and past any openers. */
  lemma BlockCommentTakesBody(body: string)
    requires forall k :: !ClosesAt(body, k)
    ensures Lex("/*" + body + "*/") == Ok([BlockComment("/*" + body + "*/")])
  {
    var t := "/*" + body + "*/";
    forall k | 2 <= k < |t| - 2
      ensures !ClosesAt(t, k)
    {
      assert t[k] == body[k - 2];
      if k + 1 < |t| - 2 {
        assert t[k + 1] == body[k - 1];
        assert !ClosesAt(body, k - 2);
      }
    }
    var gaps, cs := [[], []], [BlockComment(t)];
    assert Separated(gaps, cs);
    assert Weave(gaps, cs) == t;
    RoundTrip(gaps, cs);
  }

  // ---------------------------------------------------------------------
  // Examples

  /** The shortest block comment: the opener's star does not close it, the next star-slash does. */
  lemma EmptyBlockComment()
    ensures Matches(BlockCommentRule, "/**/") && Lex("/**/") == Ok([BlockComment("/**/")])
  {
    BlockCommentRuleMeaning("/**/");
    assert "/*" + "" + "*/" == "/**/";
    BlockCommentTakesBody("");
  }

  /** A slash right after the opener is body text. */
  lemma SlashAfterOpener()
    ensures Matches(BlockCommentRule, "/*/ */") && Lex("/*/ */") == Ok([BlockComment("/*/ */")])
  {
    BlockCommentRuleMeaning("/*/ */");
    var body := "/ ";
    assert forall k :: !ClosesAt(body, k);
    assert "/*" + body + "*/" == "/*/ */";
    BlockCommentTakesBody(body);
  }

  /** The opener's star and a following slash do not form a close. */
  lemma OpenerIsNotAClose()
    ensures !Matches(BlockCommentRule, "/*/") && Lex("/*/") == Err(UnterminatedBlockComment(0))
  {
    BlockCommentRuleMeaning("/*/");
    WhitespaceIsAtTokenBoundary("");
    UnclosedBlockCommentRejected("", "/");
  }

  /** A block comment ends at its first star-slash: it cannot run on to a later one. */
  lemma FirstCloseEndsComment()
    ensures !Matches(BlockCommentRule, "/* a */ b */")
  {
    var long := "/* a */ b */";
    assert ClosesAt(long, 5);
    BlockCommentRuleMeaning(long);
  }

  /** Stray input outside comments is rejected at its first character. */
  lemma StrayInputExamples()
    ensures Lex("/") == Err(InvalidCharacter(0))
    ensures Lex("#define") == Err(InvalidCharacter(0))
    ensures Lex("0x00") == Err(InvalidCharacter(0))
  {
    assert !OpensLineComment("/", 0) && !OpensBlockComment("/", 0);
  }

  /** Stray input after a complete line is rejected where it starts. */
  lemma StrayInputAfterComment()
    ensures Lex("// x\n0x00") == Err(InvalidCharacter(5))
  {
    var gaps, cs := [[], "\n"], [LineComment("// x")];
    assert Separated(gaps, cs) && ClosedLayout(gaps, cs) && Weave(gaps, cs) == "// x\n";
    assert "// x\n" + "0x00" == "// x\n0x00";
    StrayCharacterRejected("// x\n", "0x00");
  }

  /** Stray input right after a block comment, on the same line, is rejected where it starts. */
  lemma StrayInputAfterBlockComment()
    ensures Lex("/**/#") == Err(InvalidCharacter(4))
  {
    var gaps, cs := [[], []], [BlockComment("/**/")];
    assert Separated(gaps, cs) && ClosedLayout(gaps, cs) && Weave(gaps, cs) == "/**/";
    assert "/**/" + "#" == "/**/#";
    StrayCharacterRejected("/**/", "#");
  }

  /** An unclosed block comment after leading whitespace is rejected at its opener. */
  lemma IndentedUnclosedBlockComment()
    ensures Lex(" /* a") == Err(UnterminatedBlockComment(1))
  {
    WhitespaceIsAtTokenBoundary(" ");
    assert forall k :: !ClosesAt(" a", k);
    assert " " + ("/*" + " a") == " /* a";
    UnclosedBlockCommentRejected(" ", " a");
  }
}
