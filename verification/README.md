# Regex lexer and partial parser, modelled in Dafny

This project models the two parts of the `regexp` crate that have behaviour
today.

- **The lexer** (`lex` in `src/lexer.rs`) makes one left-to-right pass over a
  pattern and returns its `Token`s.
  - Each of the fifteen operator characters `* + ? ( ) | [ ] { } , . ^ $ -`
    becomes a payload-free token.
  - A backslash takes the next character, whatever it is, as `Backslash(c)`.
  - A maximal run of word characters becomes one `Literal`.
  - Any other character fails the whole lex.
- **The partial parser** (`Parser` and `ASTNode` in `src/parser.rs`) is a
  loop over the tokens that builds a tree under a `Program` root.
  - A literal appends a leaf to the root.
  - A quantifier (`*`, `+`, `?`) wraps the root's last child in a one-child
    node.
  - `(` is a stub that succeeds without consuming anything, so the loop never
    ends once it reaches one.
  - Every other token is rejected.

Modules, one concept each:

- `Results` (`results.dfy`): `Option` and `Result`.
- `Tokens` (`tokens.dfy`): the `Token` datatype and the three token-class
  predicates.
- `Lexer` (`lexer.dfy`): `Lex` as a recursive function, and `LexScan`, the
  loop as the source writes it, proved equal to `Lex`. `Render` turns tokens
  back into text. `WellFormed` says which token sequences the lexer can
  emit.
- `LexerFacts` (`lexer_facts.dfy`): `Lex` and `Render` are inverse on
  well-formed sequences, and lex errors are characterised exactly.
- `Parser` (`parser.dfy`): the parser state, one function per parser method,
  `Step` (`parse_next`), and `Run`/`Parse` (the `while` loop of `parse`).
  `Run` returns `Done`, `Failed` or `Diverges`.
- `ParserLoop` (`parser_loop.dfy`): the same `while` loop run for a bounded
  number of iterations, with no repeated-state check. It is used to prove
  that `Diverges` means the loop never ends.
- `ParserFacts` (`parser_facts.dfy`): which token sequences `parse` accepts,
  where it diverges, where it fails and with which error, and the shape of
  the tree it builds. Reading that tree back in postorder gives the tokens
  again.
- `SourceTests` (`source_tests.dfy`): the crate's unit tests and the
  parser's edge cases, stated as lemmas.

## Model

| member | source | states |
|---|---|---|
| Tokens.IsBinaryOperator | src/lexer.rs:36-38 | the binary operators (vertical bar, comma, dash) are payload-free operator tokens; `LexerFacts.TokenClassChars` pins them to exactly those three characters |
| Tokens.IsUnaryPostfix | src/lexer.rs:40-42 | the quantifiers (`*`, `+`, `?`) are payload-free operator tokens; `LexerFacts.TokenClassChars` pins them to exactly those three characters |
| Tokens.IsUnaryPrefix | src/lexer.rs:44-46 | the prefix operator `^` is a payload-free operator token; `LexerFacts.TokenClassChars` pins it to exactly that character |
| Tokens.TokenClassesDisjoint | src/lexer.rs:36-46 | no token is in two of the three classes, and every token in a class is a payload-free operator |
| Lexer.OperatorToken | src/lexer.rs:61-76 | exactly the fifteen operator characters map to a token, always a payload-free operator, and none of them is a word character or a backslash |
| Lexer.OperatorChar | src/lexer.rs:61-76 | each payload-free operator token is produced by its own character |
| Lexer.OperatorCharOfToken | src/lexer.rs:61-76 | the operator character of the token lexed from `c` is `c`, so the table is a bijection |
| Lexer.LiteralRun | src/lexer.rs:83-93 | the run taken for a literal is all word characters and stops at a non-word character or at the end (maximal munch) |
| Lexer.LiteralRunExact | src/lexer.rs:86-92 | a maximal run of word characters has only one possible length |
| Lexer.Lex | src/lexer.rs:51-102 | on success the tokens are well-formed and render back to the input, with no more tokens than characters. An invalid escape means the input ends in a backslash. An unexpected character occurs in the input and is a stray character |
| Lexer.LexAt | src/lexer.rs:61-97 | one step of the lexer: an operator, an escape, a trailing backslash or a stray character at the cursor |
| Lexer.LexLiteralAt | src/lexer.rs:83-93 | a maximal run of word characters at the cursor becomes one literal token, and lexing goes on after it |
| Lexer.ScanLiteral | src/lexer.rs:84-92 | the inner peek loop returns the maximal run of word characters starting at the cursor |
| Lexer.LexScan | src/lexer.rs:51-102 | the loop with one character of lookahead and early error return computes exactly `Lex` |
| LexerFacts.LexToken | src/lexer.rs:61-93 | lexing one token's text, followed by text that cannot extend it, yields that token and then the rest |
| LexerFacts.WellFormedMeans | src/lexer.rs:83-93 | a sequence is well-formed exactly when every token is valid and no literal directly follows another, because a literal run is always taken whole |
| LexerFacts.LexAppend | src/lexer.rs:51-102 | lexing is compositional: a well-formed sequence's text, then a tail that does not continue its last literal, lexes to the sequence and then the tail's tokens |
| LexerFacts.LexConsStep | src/lexer.rs:61-93 | one token in front of text that lexes compositionally is lexed first, then the rest as before |
| LexerFacts.LexRender | src/lexer.rs:51-101 | round trip: the text of any well-formed token sequence lexes back to exactly that sequence |
| LexerFacts.LexCharacterization | src/lexer.rs:51-101 | `Lex(s) == Ok(ts)` if and only if `ts` is well-formed and renders as `s`, so the lexer's tokenisation is the unique well-formed one |
| LexerFacts.LexFailsIffNoTokenization | src/lexer.rs:77-97 | the lex fails if and only if no well-formed token sequence renders as the input |
| LexerFacts.LexFirstStray | src/lexer.rs:95-97 | after a lexable prefix, the first stray character decides the error, whatever follows it |
| LexerFacts.LexTrailingBackslash | src/lexer.rs:77-81 | a backslash at the end of input, after a lexable prefix, gives an invalid-escape error |
| LexerFacts.ErrorDecompositionCons | src/lexer.rs:83-93 | a maximal literal in front of a decomposed remainder keeps the decomposition well-formed |
| LexerFacts.LexErrorDecomposes | src/lexer.rs:77-97 | every error comes from a lexable prefix followed either by a lone trailing backslash or by the stray character the error names |
| LexerFacts.ErrorDecompositionStep | src/lexer.rs:61-93 | a token taken at the head of the pattern extends the decomposition of the remainder to the whole pattern, with the same error |
| LexerFacts.TokenClassChars | src/lexer.rs:36-46 | quantifiers are the tokens of `*+?`, binary operators those of a vertical bar, comma and dash, and the prefix operator that of `^` |
| LexerFacts.CharClassesPartition | src/lexer.rs:61-97 | every character is exactly one of: operator, backslash, word character, stray |
| Parser.NewParser | src/parser.rs:83-90 | a new parser holds the given tokens, starts at index 0 and has no root yet |
| Parser.NewNode | src/parser.rs:169-175 | a new node carries the given op and has nothing to pop |
| Parser.AddChild | src/parser.rs:177-179 | the new child becomes last; the op and all earlier children are unchanged |
| Parser.PopChild | src/parser.rs:181-183 | with no children, returns None and leaves the node as it was; otherwise returns the last child and keeps the others |
| Parser.PopChildUndoesAddChild | src/parser.rs:177-183 | `pop_child` and `add_child` are inverse |
| Parser.ParseParens | src/parser.rs:123-125 | the `(` stub succeeds without consuming a token or changing the tree, which is why `parse` never stops once it reaches `(` |
| Parser.ParseLiteral | src/parser.rs:127-138 | succeeds exactly on literal tokens and advances the index by one. The root gains exactly one leaf holding the whole token, and earlier children are unchanged. A non-literal is an error |
| Parser.ParseUnaryPostfix | src/parser.rs:140-159 | a quantifier replaces the last child `c` with a quantifier node whose only child is `c`. It advances by one and keeps the child count and earlier children. Otherwise: no root is an error, no child is an error, a non-quantifier is an error |
| Parser.Step | src/parser.rs:103-121 | past the end it is an error. A successful step keeps the tokens and the root's op, and either advances by exactly one or, on `(`, returns the state unchanged |
| Parser.Run | src/parser.rs:94-100 | `Done` is reached only at the end of the tokens. `Failed` carries the state before the failing step, whose step gives that error |
| Parser.Parse | src/parser.rs:92-101 | on success the index equals the token count and the root's op is `Program` |
| ParserLoop.Loop | src/parser.rs:94-99 | the `while` loop run for a bounded number of iterations: it exits only at or past the end of the tokens, it raises only at a state inside the tokens whose step gives that error, the index never goes back, and with no iterations left it is still looping |
| ParserLoop.LoopAtFixpoint | src/parser.rs:94-99 | a state whose step returns it unchanged keeps the `while` loop running for any number of iterations |
| ParserLoop.LoopStopAgreesWithRun | src/parser.rs:94-100 | whenever the bounded loop exits or raises, `Run` reports the same final state or error |
| ParserLoop.RunAgreesWithLoop | src/parser.rs:94-100 | `Done` and `Failed` are reached within (tokens left) iterations; after `Diverges` the loop is still running after any number of iterations |
| ParserLoop.RunIsTheLoop | src/parser.rs:94-100 | `Diverges` if and only if the loop never ends; `Done` if and only if it exits after finitely many iterations |
| ParserFacts.StepCases | src/parser.rs:103-121 | per token: a literal is appended as a leaf, and a quantifier wraps the last child or fails without a child or root. `(` changes nothing; anything else is `UnexpectedToken` at the current index |
| ParserFacts.LiteralStepKeepsInv | src/parser.rs:127-135 | taking a literal keeps the loop invariant: shaped children, one per literal, whose postorder is the scanned prefix |
| ParserFacts.WrapLastTree | src/parser.rs:148-151 | wrapping the last tree in a quantifier keeps every tree shaped and appends the quantifier to the forest's postorder |
| ParserFacts.PostfixStepKeepsInv | src/parser.rs:140-155 | taking a quantifier when the root has a child keeps the loop invariant |
| ParserFacts.PostfixWithoutChildFails | src/parser.rs:148 | a quantifier when the root has no child fails, and that can only happen at the first token |
| ParserFacts.RunFromInvStep | src/parser.rs:92-121 | from any loop state, `Run`'s outcome is decided by the tokens alone |
| ParserFacts.ParseOutcome | src/parser.rs:92-125 | `parse` succeeds exactly on literal/quantifier sequences not starting with a quantifier, with one root child per literal and the tokens as the tree's postorder. It diverges exactly when it reaches `(` after an accepted prefix. Otherwise it fails at the first token ending the accepted prefix: no child for a quantifier, unexpected token for anything else |
| ParserFacts.ShapedPostorder | src/parser.rs:140-155 | a tree the parser builds reads back as its literal followed only by quantifiers |
| ParserFacts.ShapedForestAccepted | src/parser.rs:127-155 | the postorder of any forest of such trees is a sequence `parse` accepts |
| ParserFacts.PostorderInjective | src/parser.rs:148-151 | such a tree is determined by its postorder, so nesting is recorded faithfully |
| ParserFacts.PostorderAllInjective | src/parser.rs:127-155 | such a forest is determined by its postorder |
| ParserFacts.ParsePostorder | src/parser.rs:92-155 | round trip: parsing the postorder of any forest of such trees rebuilds exactly that forest under a `Program` root |
| SourceTests.TokenClassSamples | src/lexer.rs:108-127 | the class predicates on the tokens the crate's tests use |
| SourceTests.LexStarExample | src/lexer.rs:130-136 | "a*b" lexes to a literal, a star and a literal |
| SourceTests.LexTrailingBackslashExample | src/lexer.rs:177-181 | a pattern ending in a backslash fails with an invalid escape |
| SourceTests.ErrorAfterLexable | src/lexer.rs:77-97 | after any lexable pattern, one more backslash gives an invalid escape and one stray character is reported as itself |
| SourceTests.LexStrayCharExample | src/lexer.rs:184-189 | '@' is an unexpected character |
| SourceTests.LexFirstErrorWins | src/lexer.rs:95-97 | the first stray character is reported even when a later one, or a trailing backslash, follows |
| SourceTests.LexEscapes | src/lexer.rs:77-81 | a backslash escapes another backslash and an operator |
| SourceTests.LexQuantifiedExample | src/parser.rs:231-232 | "a*b", "a+b" and "a?b" lex to a literal, the quantifier and a literal |
| SourceTests.ParseQuantifiedTokens | src/parser.rs:229-272 | the tokens literal, quantifier, literal parse to the quantifier over the first literal followed by the second literal |
| SourceTests.ParseQuantifiedExample | src/parser.rs:229-272 | each of those, lexed and parsed, gives a `Program` root with two children, the first labelled by the quantifier |
| SourceTests.ParseStackedStars | src/parser.rs:148-151 | in "a**" the second star wraps the node built by the first |
| SourceTests.ParseWholeRunQuantified | src/parser.rs:127-135 | a multi-character literal stays one node, and a star after it wraps the whole run |
| SourceTests.ParseParenDiverges | src/parser.rs:113-125 | a `(` after a literal makes `parse` run forever |
| SourceTests.ParseAlternationFails | src/parser.rs:116 | a vertical bar is an unexpected token at its own index, with the earlier literal already in the tree |
| SourceTests.ParseDanglingQuantifier | src/parser.rs:148 | a leading star fails with no child to wrap, leaving the empty root and index 0 |

## Left out

- Lexer.Lex: word characters are ASCII only. The source calls Rust's Unicode
  `char::is_alphanumeric` and `char::is_whitespace`. The model uses ASCII
  letters, digits, space and the characters 0x09-0x0D (tab, line feed,
  vertical tab, form feed, carriage return). A non-ASCII letter, digit or
  space that Rust would put in a literal is an unexpected character here.
  Unicode classification is a standard-library table, not part of this
  crate.
- Error messages are datatype values (`InvalidEscape`, `UnexpectedChar(c)`,
  `UnexpectedToken(t)`, `NoChildForPostfix`, ...), not the formatted strings
  of the source.
- `Parser.expression` is kept by `Parser::new` but never read, so it is not
  part of the state.
- `ASTNode.parent` is never assigned, so it is left out. `ASTNode.op` is an
  `Option<Token>` in the source, but the parser always fills it, so the
  model uses `Token`.
- The source mutates the parser in place. The model returns a new state
  from each step. An `Err` from `parse_next` never follows a mutation in the
  source, so `Failed` carries the state before the failing step.
- The `Expression` enum in `src/parser.rs:6-73` is never constructed.
  `AST::new`, `AST::add_node` and `AST::visualize` are never used by the
  parser, and `visualize` only formats a debug string.
- `src/lib.rs` is not part of this model. `Regex::new` only calls `lex`, and
  `is_match` always returns false.
- No compiler, matcher, or parser for brackets, braces, groups or
  alternation exists in the source, so none is modelled.
- The 32-token test `regex_lex_everything` (src/lexer.rs:139-174) is not
  restated as its own lemma: Dafny's unfolding of `Lex` on a 32-character
  literal is too costly. `LexerFacts.LexCharacterization` covers it: that
  pattern's tokens are well-formed and render back to it.
- The parser's index is a Rust `usize`. The model uses `nat`, because the
  index never exceeds the token count and so cannot overflow.
