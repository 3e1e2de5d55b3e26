# tree-sitter-huff, phase 1: the comment and whitespace lexer

The Huff grammar for tree-sitter (`grammar.js`) currently declares only the
lexical layer of the language:

- a `source_file` is a repetition of definitions, and a definition is a `comment`;
- a `comment` is a `line_comment` (`//` then `[^\r\n]*`) or a `block_comment`
  (the opener, then `[^*]*\*+([^/*][^*]*\*+)*`, then `/`);
- one whitespace character (`/\s/`) and `comment` are extras that may appear
  between any two tokens.

This project models what a tree-sitter lexer built from that grammar does
with an input string. It skips whitespace, takes the longest comment token
at each position, and either returns the comments in source order or fails
at the first token boundary where neither whitespace nor a complete comment
starts. The model then proves that this tokeniser agrees with the grammar's
rules.

Modules:

- `Regex` (`regex.dfy`): a small regular-expression language (character
  classes, concatenation, choice, repetition) with its matching relation.
- `Grammar` (`grammar.dfy`): the three token rules written as `Regex` values,
  exactly as the grammar spells them. Each rule is proved equal to a direct
  description of the strings it accepts. For example, a block comment is
  slash-star followed by text whose only star-slash pair is its last two
  characters.
- `Lexer` (`lexer.dfy`): the executable tokeniser. `NextStep` is the decision
  at one position, and `LexFrom`/`Lex` repeat it to the end of input.
- `SourceFile` (`source_file.dfy`): the grammar read declaratively as a
  relation between an input and its list of comments, with longest match.
  The lexer is proved to compute exactly this relation.
- `Layout` (`layout.dfy`): losslessness. An accepted input is its comments
  with whitespace gaps between them, and every such layout lexes back to the
  same comments.
- `Properties` (`properties.dfy`). A token boundary is the end of a prefix
  that is whitespace and complete comments and does not end inside a line
  comment (`Layout.EndsAtTokenBoundary`). It covers:
  - lexing depends only on the text ahead;
  - an input that ends at a token boundary can be followed by any text;
  - a failure is reported at a token boundary, and an unclosed block comment
    or a stray character at any token boundary rejects the file there;
  - comment openers inside a comment are text;
  - worked examples.

## Model

| member | source | states |
|---|---|---|
| Regex.StarOfClass | grammar.js:38 | a repeated character class matches a string exactly when the class admits every character of it |
| Regex.PlusOfClass | grammar.js:44 | a one-or-more repetition of a class matches exactly the non-empty strings whose characters it all admits |
| Regex.PairOf | grammar.js:37 | a two-character literal matches exactly that two-character string |
| Grammar.WhitespaceRule | grammar.js:16 | renders the `/\s/` extra as a one-character class over the six ASCII whitespace characters |
| Grammar.LineCommentRule | grammar.js:36-39 | renders `line_comment`: the literal `//` followed by `[^\r\n]*` |
| Grammar.BlockCommentRule | grammar.js:42-46 | renders `block_comment`: the literal slash-star, then `[^*]*\*+([^/*][^*]*\*+)*`, then `/` |
| Grammar.CommentRule | grammar.js:30-33 | renders `comment` as the choice of `line_comment` and `block_comment` |
| Grammar.RunRule | grammar.js:44 | `[^*]*\*+` matches exactly the strings that end in a star and in which every star is followed by another star or by the end |
| Grammar.GroupRule | grammar.js:44 | the repeated group `[^/*][^*]*\*+` matches exactly a first character that is neither slash nor star, followed by such a star run |
| Grammar.GroupsRule | grammar.js:44 | any number of groups matches exactly the empty string or a body that does not start with slash or star, ends in a star and has no star-slash pair |
| Grammar.BodyRule | grammar.js:44 | the whole block-comment body regex matches exactly the strings that end in a star and contain no star-slash pair |
| Grammar.LineCommentRuleMeaning | grammar.js:36-39 | `line_comment` matches exactly two slashes followed by characters none of which is CR or LF |
| Grammar.BlockCommentRuleMeaning | grammar.js:42-46 | `block_comment` matches exactly slash-star followed by text whose first star-slash pair after the opener is its last two characters |
| Grammar.CommentRuleMeaning | grammar.js:30-33 | `comment` matches exactly a line comment or a block comment; no text is both; every comment starts with a slash that is not whitespace; its second character decides its kind |
| Lexer.LineEnd | grammar.js:38 | the body of a line comment runs up to the first CR or LF, or to the end of input, and holds no line terminator |
| Lexer.FindClose | grammar.js:42-46 | returns the first star-slash at or after a position, or reports that there is none |
| Lexer.BlockSliceShape | grammar.js:42-46 | the text from an opener up to and including the first star-slash after it is a well-formed block comment |
| Lexer.NextStep | grammar.js:15-46 | at one position the lexer skips exactly the whitespace characters; it takes a well-formed comment of the text from there, and a line comment stops before a line terminator or at the end; it stops with an error at that position otherwise, unterminated only when an opener has no star-slash after it |
| Lexer.LexFrom | grammar.js:15-25 | lexing the rest of the input returns only well-formed comments, or fails at a later non-whitespace position where no comment starts (or where a block comment never closes) |
| Lexer.Lex | grammar.js:22 | the same guarantees for a whole source file |
| SourceFile.LexesFrom | grammar.js:15-25 | renders `source_file` with its extras: from a position, the input is whitespace extras and longest `comment` matches, read as the given comments in order |
| SourceFile.IsSourceFile | grammar.js:15-25 | a whole input is a `source_file` made of the given comments when it is read so from position 0 |
| SourceFile.LineCommentIsLongest | grammar.js:36-39 | the line comment the lexer takes is the longest `comment` match at its position |
| SourceFile.BlockCommentIsLongest | grammar.js:42-46 | the block comment the lexer takes, ending at the first star-slash, is the longest `comment` match at its position |
| SourceFile.TakeIsLongest | grammar.js:30-33 | each comment the lexer takes is the longest match of `comment` there, and it is of the kind whose rule matches it |
| SourceFile.LongestIsLexed | grammar.js:30-46 | conversely, the longest comment match at a position is exactly the token the lexer takes there |
| SourceFile.LexMeetsGrammar | grammar.js:15-25 | the lexer returns a list of comments exactly when the grammar, with whitespace and comment extras and longest match, reads the input as those comments |
| SourceFile.LexFailsOnlyOnNonSourceFiles | grammar.js:15-25 | the lexer fails exactly on the inputs that no list of comments makes a source file |
| SourceFile.SourceFileIsUnambiguous | grammar.js:15-25 | under longest match an input is read as at most one list of comments |
| Layout.LexIsLossless | grammar.js:15-25 | the lexer accepts an input with comments `cs` exactly when the input is `cs`, in order, with whitespace-only gaps and each line comment followed by a line terminator or the end |
| Layout.RoundTrip | grammar.js:15-25 | writing comments out in such a layout and lexing the text gives the same comments back |
| Layout.WhitespaceOnlyInputs | grammar.js:15-22 | the empty input and whitespace-only inputs are accepted with no comments, and no other input is |
| Properties.NextStepShift | grammar.js:15-46 | the lexer's decision at position `p` of `x + y`, where `p` is position `i` of `y` moved past `x`, is its decision at `i` in `y` with positions moved by `|x|`: it depends only on the text from there on |
| Properties.LexFromShift | grammar.js:15-25 | lexing `x + y` from the moved position gives the same comments as lexing `y`, whatever `x` is, and moves an error position by `|x|` |
| Properties.LexFromClosedPrefix | grammar.js:15-25 | a stretch of whitespace and complete comments that does not end inside a line comment is lexed as exactly those comments, whatever follows it |
| Properties.LexConcat | grammar.js:15-25 | an input that ends at a token boundary is accepted, and followed by any text it lexes as its own comments followed by those of the text, or fails where the text fails |
| Properties.ErrorAtTokenBoundary | grammar.js:15-25 | when lexing fails, the text before the failure position ends at a token boundary: the lexer stops at the first boundary where no whitespace and no complete comment starts |
| Properties.UnclosedBlockCommentRejected | grammar.js:42-46 | a block-comment opener at any token boundary, with no star-slash after it, rejects the file with an unterminated-comment error at the opener |
| Properties.StrayCharacterRejected | grammar.js:15-25 | a character that is neither whitespace nor a comment opener, at any token boundary, rejects the file at that character |
| Properties.LineCommentTakesRestOfLine | grammar.js:36-39 | a line comment runs to the end of its line whatever it contains, including comment openers |
| Properties.BlockCommentTakesBody | grammar.js:42-46 | a block comment spans its whole body, across lines and past any openers, up to the first star-slash |
| Properties.EmptyBlockComment | grammar.js:42-46 | `/**/` is one complete block comment |
| Properties.SlashAfterOpener | grammar.js:42-46 | `/*/ */` is one complete block comment |
| Properties.OpenerIsNotAClose | grammar.js:42-46 | `/*/` is not a block comment, and lexing it fails as unterminated at position 0 |
| Properties.FirstCloseEndsComment | grammar.js:42-46 | `/* a */ b */` is not a single block comment |
| Properties.StrayInputExamples | grammar.js:15-25 | a lone slash, `#define` and `0x00` are each rejected at their first character |
| Properties.StrayInputAfterComment | grammar.js:15-25 | stray input on the line after a line comment is rejected at the position where it starts |
| Properties.StrayInputAfterBlockComment | grammar.js:15-25 | `/**/#` is rejected at the `#`, right after a block comment |
| Properties.IndentedUnclosedBlockComment | grammar.js:42-46 | ` /* a` is rejected as an unterminated block comment at position 1, after leading whitespace |

## Left out

- The tree-sitter runtime is not modelled: the generated parser, incremental reparsing, syntax-tree nodes and their byte or row/column spans. The model's result is the list of comments with their texts.
- Error recovery is not modelled. Tree-sitter would build ERROR or MISSING nodes and carry on. The model stops at the first failure and names its character position and its cause (`InvalidCharacter` or `UnterminatedBlockComment`).
- Whether a comment is parsed as a `_definition` or as an extra is not modelled. Both readings give the same comments in the same order, so the model records only the comment list.
- Lexer.Lex: `/\s/` in JavaScript also matches Unicode space characters (no-break space, the line and paragraph separators, the byte-order mark and others). The model fixes whitespace to the six ASCII characters space, tab, LF, CR, vertical tab and form feed.
- Lexer.Lex: positions are indices into a sequence of characters, not byte offsets into UTF-8 text.
- Properties.LexConcat: requires the first input to end at a token boundary. This is a sufficient condition, not a necessary one. Without it, a trailing line comment or an unfinished comment would run on into the second input.
- The rest of the Huff language (macros, functions, constants, opcodes) is not part of this grammar and is not modelled.
