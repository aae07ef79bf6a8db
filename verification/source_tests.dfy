/** The unit tests of src/lexer.rs and src/parser.rs, and the parser's edge
    cases, stated as lemmas about the model. */
module SourceTests {
  import opened Results
  import opened Tokens
  import opened Lexer
  import opened LexerFacts
  import opened Parser
  import opened ParserFacts

  /** `test_token_is_*`: the three token classes on sample tokens. */
  lemma TokenClassSamples()
    ensures IsBinaryOperator(VBar) && IsBinaryOperator(Comma) && IsBinaryOperator(Dash)
    ensures !IsBinaryOperator(Literal("a"))
    ensures IsUnaryPostfix(KleeneStar) && IsUnaryPostfix(KleenePlus) && IsUnaryPostfix(Question)
    ensures !IsUnaryPostfix(Literal("a"))
    ensures IsUnaryPrefix(Caret) && !IsUnaryPrefix(Literal("a"))
  {
  }

  /** Three valid tokens with a non-literal in the middle form a
      well-formed sequence written as the three texts in a row. */
  lemma WellFormedTriple(a: Token, b: Token, c: Token)
    requires ValidToken(a) && ValidToken(b) && ValidToken(c)
    requires !b.Literal?
    ensures WellFormed([a, b, c])
    ensures Render([a, b, c]) == TokenText(a) + TokenText(b) + TokenText(c)
  {
    assert [c] + [] == [c];
    ConsWellFormed(c, []);
    assert [b] + [c] == [b, c];
    ConsWellFormed(b, [c]);
    assert [a] + [b, c] == [a, b, c];
    ConsWellFormed(a, [b, c]);
  }

  /** `regex_lex`: "a*b" is a literal, a star and a literal. */
  lemma LexStarExample()
    ensures Lex("a*b") == Ok([Literal("a"), KleeneStar, Literal("b")])
  {
    LexQuantifiedExample(KleeneStar);
    assert "a" + [OperatorChar(KleeneStar)] + "b" == "a*b";
  }

  /** What follows a lexable pattern decides the error: a lone backslash
      is an invalid escape, a stray character is reported as itself. */
  lemma ErrorAfterLexable(s: string, c: char)
    requires Lex(s).Ok?
    ensures c == '\\' ==> Lex(s + [c]) == Err(InvalidEscape)
    ensures IsStrayChar(c) ==> Lex(s + [c]) == Err(UnexpectedChar(c))
  {
    var ts := Lex(s).value;
    if c == '\\' {
      LexTrailingBackslash(ts);
    } else if IsStrayChar(c) {
      LexFirstStray(ts, c, "");
      assert s + [c] + "" == s + [c];
    }
  }

  /** `regex_lex_invalid`: a pattern ending in a backslash. */
  lemma LexTrailingBackslashExample()
    ensures Lex("a*b\\") == Err(InvalidEscape)
  {
    LexStarExample();
    ErrorAfterLexable("a*b", '\\');
    assert "a*b" + ['\\'] == "a*b\\";
  }

  /** `regex_lex_unsupported_character`: '@' is neither an operator nor a
      word character. */
  lemma LexStrayCharExample()
    ensures Lex("a*b@") == Err(UnexpectedChar('@'))
  {
    assert IsStrayChar('@');
    LexStarExample();
    ErrorAfterLexable("a*b", '@');
    assert "a*b" + ['@'] == "a*b@";
  }

  /** Whatever follows the first stray character, and even when a later
      backslash ends the pattern, the first stray character is reported. */
  lemma LexFirstErrorWins()
    ensures Lex("ab@c#\\") == Err(UnexpectedChar('@'))
  {
    assert IsStrayChar('@');
    var ts := [Literal("ab")];
    assert WellFormed(ts) by {
      assert ts[1..] == [];
    }
    assert Render(ts) == "ab" by {
      assert ts[1..] == [];
    }
    LexFirstStray(ts, '@', "c#\\");
    assert "ab" + ['@'] + "c#\\" == "ab@c#\\";
  }

  /** A backslash takes the next character whatever it is, another
      backslash or an operator included. */
  lemma LexEscapes()
    ensures Lex("\\\\\\*x") == Ok([Backslash('\\'), Backslash('*'), Literal("x")])
  {
    var ts := [Backslash('\\'), Backslash('*'), Literal("x")];
    WellFormedTriple(Backslash('\\'), Backslash('*'), Literal("x"));
    assert TokenText(Backslash('\\')) + TokenText(Backslash('*')) + TokenText(Literal("x")) == "\\\\\\*x";
    LexRender(ts);
  }

  /** The lexer's output for "a*b", "a+b" and "a?b": a literal, the
      quantifier, a literal. */
  lemma LexQuantifiedExample(q: Token)
    requires IsUnaryPostfix(q)
    ensures Lex("a" + [OperatorChar(q)] + "b") == Ok([Literal("a"), q, Literal("b")])
  {
    var ts := [Literal("a"), q, Literal("b")];
    WellFormedTriple(Literal("a"), q, Literal("b"));
    LexRender(ts);
  }

  /** The forest for "a*b": the quantifier over `a`, then `b`; its
      postorder is the three tokens in order. */
  lemma QuantifiedForest(q: Token)
    requires IsUnaryPostfix(q)
    ensures var a := Node(Literal("a"), []);
      var f := [Node(q, [a]), Node(Literal("b"), [])];
      && (forall i :: 0 <= i < |f| ==> Shaped(f[i]))
      && PostorderAll(f) == [Literal("a"), q, Literal("b")]
  {
    var a, b := Node(Literal("a"), []), Node(Literal("b"), []);
    var wrapped := Node(q, [a]);
    assert Shaped(a) && Shaped(b) && Shaped(wrapped);
    PostorderLeaf(Literal("a"));
    PostorderLeaf(Literal("b"));
    PostorderWrap(q, a);
    PostorderAllSnoc([], wrapped);
    PostorderAllSnoc([wrapped], b);
    assert [] + [wrapped] == [wrapped];
    assert [wrapped] + [b] == [wrapped, b];
  }

  /** Parsing a literal, a quantifier and a literal builds the quantifier
      over the first literal, then the second literal. */
  lemma ParseQuantifiedTokens(q: Token)
    requires IsUnaryPostfix(q)
    ensures var ts := [Literal("a"), q, Literal("b")];
      ParseTokens(ts) == Done(State(ts, 3, Some(Node(Program, [Node(q, [Node(Literal("a"), [])]), Node(Literal("b"), [])]))))
  {
    QuantifiedForest(q);
    ParsePostorder([Node(q, [Node(Literal("a"), [])]), Node(Literal("b"), [])]);
  }

  /** `regex_parse_unary_postfix`: "a*b", "a+b" and "a?b", lexed and parsed,
      give a `Program` root with two children, the first labelled by the
      quantifier. */
  lemma ParseQuantifiedExample(q: Token)
    requires IsUnaryPostfix(q)
    ensures Lex("a" + [OperatorChar(q)] + "b").Ok?
    ensures var o := ParseTokens(Lex("a" + [OperatorChar(q)] + "b").value);
      && o.Done?
      && o.final.current.value.op == Program
      && |o.final.current.value.children| == 2
      && o.final.current.value.children[0].op == q
  {
    LexQuantifiedExample(q);
    ParseQuantifiedTokens(q);
  }

  /** A single shaped tree parses from its postorder to a root holding just
      that tree. */
  lemma {:induction false} ParseSingleTree(n: Node)
    requires Shaped(n)
    ensures var ts := Postorder(n);
      ParseTokens(ts) == Done(State(ts, |ts|, Some(Node(Program, [n]))))
  {
    assert PostorderAll([n]) == Postorder(n) by {
      assert [n][..0] == [];
    }
    ParsePostorder([n]);
  }

  /** Stacked quantifiers nest: in "a**" the second star wraps the node the
      first star built. */
  lemma ParseStackedStars()
    ensures var ts := [Literal("a"), KleeneStar, KleeneStar];
      ParseTokens(ts) == Done(State(ts, 3, Some(Node(Program, [Node(KleeneStar, [Node(KleeneStar, [Node(Literal("a"), [])])])]))))
  {
    var a := Node(Literal("a"), []);
    var once := Node(KleeneStar, [a]);
    var twice := Node(KleeneStar, [once]);
    assert Shaped(twice) by {
      assert Shaped(a) && Shaped(once);
    }
    assert Postorder(twice) == [Literal("a"), KleeneStar, KleeneStar] by {
      PostorderLeaf(Literal("a"));
      PostorderWrap(KleeneStar, a);
      PostorderWrap(KleeneStar, once);
    }
    ParseSingleTree(twice);
  }

  /** A multi-character literal stays one node, so a following star wraps
      the whole run. */
  lemma ParseWholeRunQuantified()
    ensures ParseTokens([Literal("ab"), KleeneStar]).Done?
    ensures ParseTokens([Literal("ab"), KleeneStar]).final.current.value.children ==
      [Node(KleeneStar, [Node(Literal("ab"), [])])]
  {
    var ab := Node(Literal("ab"), []);
    var star := Node(KleeneStar, [ab]);
    assert Shaped(star) by {
      assert Shaped(ab);
    }
    assert Postorder(star) == [Literal("ab"), KleeneStar] by {
      PostorderLeaf(Literal("ab"));
      PostorderWrap(KleeneStar, ab);
    }
    ParseSingleTree(star);
  }

  /** Reaching `(` after an accepted prefix, the parser never stops. */
  lemma ParseParenDiverges()
    ensures ParseTokens([Literal("a"), LParen, Literal("b"), RParen]) == Diverges
  {
    var ts := [Literal("a"), LParen, Literal("b"), RParen];
    ParseOutcome(ts);
    assert ts[1] == LParen && ts[..1] == [Literal("a")];
  }

  /** Alternation is not parsed: `|` fails at its own index. */
  lemma ParseAlternationFails()
    ensures ParseTokens([Literal("a"), VBar, Literal("b")]) ==
      Failed(UnexpectedToken(VBar), State([Literal("a"), VBar, Literal("b")], 1, Some(Node(Program, [Node(Literal("a"), [])]))))
  {
  }

  /** A quantifier with nothing before it fails and leaves the empty root
      and the cursor as they were. */
  lemma ParseDanglingQuantifier()
    ensures ParseTokens([KleeneStar, Literal("a")]) ==
      Failed(NoChildForPostfix, State([KleeneStar, Literal("a")], 0, Some(Node(Program, []))))
  {
  }
}
