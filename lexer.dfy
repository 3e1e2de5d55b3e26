// The tokeniser a tree-sitter lexer runs for the Huff grammar of
// grammar.js: at each position it skips one `/\s/` extra, or takes the
// longest comment token that starts there, or fails. A source file is the
// ordered list of the comments it holds (`source_file` is a repetition of
// `_definition`, and a definition is a comment).

module Lexer {
  import opened Grammar

  datatype Comment =
    | LineComment(text: string)
    | BlockComment(text: string)

  /** Where lexing stopped and why. `pos` is an index into the input. */
  datatype LexError =
    | InvalidCharacter(pos: nat)          // no whitespace and no comment starts here
    | UnterminatedBlockComment(pos: nat)  // a block comment opens here and never closes

  datatype Result<T> = Ok(value: T) | Err(error: LexError)

  datatype Option<T> = None | Some(value: T)

  /** The text of a comment has the shape its kind demands. */
  predicate WellFormed(c: Comment) {
    match c
    case LineComment(t) => LineText(t)
    case BlockComment(t) => BlockText(t)
  }

  predicate OpensLineComment(s: string, i: nat) {
    i + 1 < |s| && s[i] == '/' && s[i + 1] == '/'
  }

  predicate OpensBlockComment(s: string, i: nat) {
    i + 1 < |s| && s[i] == '/' && s[i + 1] == '*'
  }

  /** The end of the line comment body `[^\r\n]*` that starts at `i`: the next line terminator, or the end of input. */
  function LineEnd(s: string, i: nat): (j: nat)
    requires i <= |s|
    ensures i <= j <= |s|
    ensures forall k :: i <= k < j ==> !IsLineTerminator(s[k])
    ensures j == |s| || IsLineTerminator(s[j])
    decreases |s| - i
  {
    if i == |s| || IsLineTerminator(s[i]) then i else LineEnd(s, i + 1)
  }

  /** The first star-slash pair at or after `i`, if there is one. */
  function FindClose(s: string, i: nat): (r: Option<nat>)
    requires i <= |s|
    ensures r.Some? ==> i <= r.value && ClosesAt(s, r.value)
    ensures r.Some? ==> forall k :: i <= k < r.value ==> !ClosesAt(s, k)
    ensures r.None? ==> forall k :: i <= k ==> !ClosesAt(s, k)
    decreases |s| - i
  {
    if i + 1 >= |s| then None
    else if s[i] == '*' && s[i + 1] == '/' then Some(i)
    else FindClose(s, i + 1)
  }

  function Prepend(c: Comment, r: Result<seq<Comment>>): Result<seq<Comment>> {
    match r
    case Ok(cs) => Ok([c] + cs)
    case Err(e) => Err(e)
  }

  /** The text from an opener to the first star-slash after it is a block comment. */
  lemma BlockSliceShape(s: string, i: nat, k: nat)
    requires OpensBlockComment(s, i) && i + 2 <= k && ClosesAt(s, k)
    requires forall m :: i + 2 <= m < k ==> !ClosesAt(s, m)
    ensures BlockText(s[i..k + 2])
  {
    var t := s[i..k + 2];
    forall m | 2 <= m < |t| - 2
      ensures !ClosesAt(t, m)
    {
      assert !ClosesAt(s, i + m);
    }
  }

  /** What the lexer does at one position: skip an extra, take a comment ending at `next`, or stop. */
  datatype Step =
    | Skip
    | Take(token: Comment, next: nat)
    | Stop(error: LexError)

  /**
   * The lexer's decision at position `i`: whitespace is skipped; `//` and
   * the opener of a block comment start the longest comment there; any
   * other character, a lone slash included, stops the lexer.
   */
  function NextStep(s: string, i: nat): (st: Step)
    requires i < |s|
    ensures st.Skip? <==> IsWhitespace(s[i])
    ensures st.Take? ==> i < st.next <= |s| && st.token.text == s[i..st.next] && WellFormed(st.token)
    ensures st.Take? && st.token.LineComment? ==> st.next == |s| || IsLineTerminator(s[st.next])
    ensures st.Stop? ==> st.error.pos == i
    ensures st.Stop? && st.error.InvalidCharacter? ==> !OpensLineComment(s, i) && !OpensBlockComment(s, i)
    ensures st.Stop? && st.error.UnterminatedBlockComment? ==>
              OpensBlockComment(s, i) && forall k :: i + 2 <= k ==> !ClosesAt(s, k)
  {
    if IsWhitespace(s[i]) then Skip
    else if OpensLineComment(s, i) then
      var j := LineEnd(s, i + 2);
      Take(LineComment(s[i..j]), j)
    else if OpensBlockComment(s, i) then
      match FindClose(s, i + 2)
      case None => Stop(UnterminatedBlockComment(i))
      case Some(k) =>
        BlockSliceShape(s, i, k);
        Take(BlockComment(s[i..k + 2]), k + 2)
    else Stop(InvalidCharacter(i))
  }

  /**
   * Lexes `s` from index `i` on. Every comment it returns is well formed;
   * a failure names a position at or after `i` where no whitespace and no
   * complete comment starts.
   */
  function LexFrom(s: string, i: nat): (r: Result<seq<Comment>>)
    requires i <= |s|
    ensures r.Ok? ==> forall c :: c in r.value ==> WellFormed(c)
    ensures r.Err? ==> i <= r.error.pos < |s| && !IsWhitespace(s[r.error.pos])
    ensures r.Err? && r.error.InvalidCharacter? ==>
              !OpensLineComment(s, r.error.pos) && !OpensBlockComment(s, r.error.pos)
    ensures r.Err? && r.error.UnterminatedBlockComment? ==>
              OpensBlockComment(s, r.error.pos) && forall k :: r.error.pos + 2 <= k ==> !ClosesAt(s, k)
    decreases |s| - i
  {
    if i == |s| then Ok([])
    else
      match NextStep(s, i)
      case Skip => LexFrom(s, i + 1)
      case Take(c, j) => Prepend(c, LexFrom(s, j))
      case Stop(e) => Err(e)
  }

  /** One step of `LexFrom`: a skipped extra leaves the rest to lex. */
  lemma LexFromSkip(s: string, i: nat)
    requires i < |s| && NextStep(s, i) == Skip
    ensures LexFrom(s, i) == LexFrom(s, i + 1)
  {
  }

  /** One step of `LexFrom`: a taken comment comes before the comments after it. */
  lemma LexFromTake(s: string, i: nat, c: Comment, j: nat)
    requires i < |s| && NextStep(s, i) == Take(c, j)
    ensures LexFrom(s, i) == Prepend(c, LexFrom(s, j))
  {
  }

  /** One step of `LexFrom`: a stop is the failure. */
  lemma LexFromStop(s: string, i: nat, e: LexError)
    requires i < |s| && NextStep(s, i) == Stop(e)
    ensures LexFrom(s, i) == Err(e)
  {
  }

  /** Lexes a whole source file into its comments, in source order. */
  function Lex(s: string): (r: Result<seq<Comment>>)
    ensures r.Ok? ==> forall c :: c in r.value ==> WellFormed(c)
    ensures r.Err? ==> r.error.pos < |s| && !IsWhitespace(s[r.error.pos])
    ensures r.Err? && r.error.InvalidCharacter? ==>
              !OpensLineComment(s, r.error.pos) && !OpensBlockComment(s, r.error.pos)
    ensures r.Err? && r.error.UnterminatedBlockComment? ==>
              OpensBlockComment(s, r.error.pos) && forall k :: r.error.pos + 2 <= k ==> !ClosesAt(s, k)
  {
    LexFrom(s, 0)
  }
}
