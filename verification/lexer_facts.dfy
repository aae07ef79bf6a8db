/** What `Lex` promises beyond its own contract: it is the exact inverse of
    `Render` on well-formed token sequences, and when it fails, the error is
    decided by the first position that cannot start a token. */
module LexerFacts {
  import opened Results
  import opened Tokens
  import opened Lexer

  /** The text of a token the lexer can emit is never empty. */
  lemma TokenTextNonEmpty(t: Token)
    requires ValidToken(t)
    ensures |TokenText(t)| > 0
    ensures !t.Literal? ==> !IsWordChar(TokenText(t)[0])
  {
  }

  /** The text of a non-empty sequence starts with the text of its first
      token. */
  lemma RenderHead(ts: seq<Token>)
    requires |ts| > 0
    ensures Render(ts) == TokenText(ts[0]) + Render(ts[1..])
  {
  }

  lemma RenderHeadAppend(ts: seq<Token>, tail: string)
    requires |ts| > 0
    ensures Render(ts) + tail == TokenText(ts[0]) + (Render(ts[1..]) + tail)
  {
    RenderHead(ts);
    AppendAssoc(TokenText(ts[0]), Render(ts[1..]), tail);
  }

  lemma AppendAssoc(a: string, b: string, c: string)
    ensures (a + b) + c == a + (b + c)
  {
  }

  /** Dropping the first token keeps a sequence well-formed. */
  lemma WellFormedTail(ts: seq<Token>)
    requires WellFormed(ts) && |ts| > 0
    ensures WellFormed(ts[1..])
  {
  }

  /** `WellFormed` read element-wise: every token is valid and no two
      adjacent tokens are both literals. */
  lemma {:induction false} WellFormedMeans(ts: seq<Token>)
    ensures WellFormed(ts) <==>
      && (forall i :: 0 <= i < |ts| ==> ValidToken(ts[i]))
      && (forall i :: 0 < i < |ts| ==> !(ts[i - 1].Literal? && ts[i].Literal?))
    decreases |ts|
  {
    if |ts| > 0 {
      var rest := ts[1..];
      WellFormedMeans(rest);
      assert forall i :: 0 < i < |ts| ==> ts[i] == rest[i - 1];
    }
  }

  /** Lexing the text of one valid token followed by anything that cannot
      extend it yields that token, then the lex of the rest. */
  lemma {:induction false} LexToken(t: Token, x: string)
    requires ValidToken(t)
    requires t.Literal? && |x| > 0 ==> !IsWordChar(x[0])
    ensures Lex(TokenText(t) + x) == Prepend(t, Lex(x))
  {
    var s := TokenText(t) + x;
    TokenTextNonEmpty(t);
    if t.Literal? {
      var w := t.text;
      assert s[0] == w[0];
      LiteralRunExact(s, |w|);
      assert s[..|w|] == w;
      assert s[|w|..] == x;
    } else if t.Backslash? {
      assert s[0] == '\\' && s[1] == t.escaped;
      assert s[2..] == x;
    } else {
      assert s[0] == OperatorChar(t);
      OperatorCharOfToken(s[0]);
      assert s[1..] == x;
    }
  }

  lemma PrependAllCons(t: Token, rest: seq<Token>, r: Result<seq<Token>, LexError>)
    ensures PrependAll([t] + rest, r) == Prepend(t, PrependAll(rest, r))
  {
    if r.Ok? {
      assert [t] + rest + r.value == [t] + (rest + r.value);
    }
  }

  /** In a well-formed sequence followed by a tail that does not continue its
      last literal, a literal is never followed by a word character. */
  lemma SeparatedAfterHead(ts: seq<Token>, tail: string)
    requires WellFormed(ts) && |ts| > 0
    requires ts[|ts| - 1].Literal? && |tail| > 0 ==> !IsWordChar(tail[0])
    ensures var x := Render(ts[1..]) + tail;
      ts[0].Literal? && |x| > 0 ==> !IsWordChar(x[0])
  {
    var rest := ts[1..];
    var x := Render(rest) + tail;
    if ts[0].Literal? && |x| > 0 && |rest| > 0 {
      assert ts[1] == rest[0];
      TokenTextNonEmpty(rest[0]);
      RenderHead(rest);
      assert x[0] == TokenText(rest[0])[0];
    }
  }

  /** Lexing the text of a well-formed sequence followed by a tail that does
      not continue its last literal gives the sequence, then the lex of the
      tail. */
  lemma {:induction false} LexAppend(ts: seq<Token>, tail: string)
    requires WellFormed(ts)
    requires |ts| > 0 && ts[|ts| - 1].Literal? && |tail| > 0 ==> !IsWordChar(tail[0])
    ensures Lex(Render(ts) + tail) == PrependAll(ts, Lex(tail))
    decreases |ts|
  {
    if |ts| == 0 {
      assert Render(ts) + tail == tail;
      if Lex(tail).Ok? {
        assert ts + Lex(tail).value == Lex(tail).value;
      }
    } else {
      var t, rest := ts[0], ts[1..];
      WellFormedTail(ts);
      LexAppend(rest, tail);
      RenderHeadAppend(ts, tail);
      SeparatedAfterHead(ts, tail);
      LexConsStep(t, rest, tail);
      assert ts == [t] + rest;
    }
  }

  /** The inductive step of `LexAppend`: the head token is lexed from its own
      text, then the rest as the induction hypothesis says. */
  lemma LexConsStep(t: Token, rest: seq<Token>, tail: string)
    requires ValidToken(t)
    requires var x := Render(rest) + tail; t.Literal? && |x| > 0 ==> !IsWordChar(x[0])
    requires Lex(Render(rest) + tail) == PrependAll(rest, Lex(tail))
    ensures Lex(TokenText(t) + (Render(rest) + tail)) == PrependAll([t] + rest, Lex(tail))
  {
    LexToken(t, Render(rest) + tail);
    PrependAllCons(t, rest, Lex(tail));
  }

  /** Lex inverts Render: the text of any well-formed sequence lexes back to
      exactly that sequence. */
  lemma LexRender(ts: seq<Token>)
    requires WellFormed(ts)
    ensures Lex(Render(ts)) == Ok(ts)
  {
    LexAppend(ts, "");
    assert Render(ts) + "" == Render(ts);
    assert ts + [] == ts;
  }

  /** Lex succeeds with `ts` exactly when `ts` is well-formed and is written
      as `s`: the lexer's tokenization is the only well-formed one. */
  lemma LexCharacterization(s: string, ts: seq<Token>)
    ensures Lex(s) == Ok(ts) <==> WellFormed(ts) && Render(ts) == s
  {
    if WellFormed(ts) && Render(ts) == s {
      LexRender(ts);
    }
  }

  /** A pattern that has no well-formed tokenization fails to lex, and one
      that has one lexes to it. */
  lemma LexFailsIffNoTokenization(s: string)
    ensures Lex(s).Err? <==> forall ts :: !(WellFormed(ts) && Render(ts) == s)
  {
    if Lex(s).Err? {
      forall ts ensures !(WellFormed(ts) && Render(ts) == s) {
        LexCharacterization(s, ts);
      }
    } else {
      var ts := Lex(s).value;
      assert WellFormed(ts) && Render(ts) == s;
    }
  }

  /** The first stray character decides the error, whatever follows it. */
  lemma LexFirstStray(ts: seq<Token>, c: char, rest: string)
    requires WellFormed(ts) && IsStrayChar(c)
    ensures Lex(Render(ts) + [c] + rest) == Err(UnexpectedChar(c))
  {
    var tail := [c] + rest;
    assert Render(ts) + [c] + rest == Render(ts) + tail;
    LexAppend(ts, tail);
    LexAt(tail, 0);
    assert tail[0..] == tail;
  }

  /** A backslash that ends the pattern, after a lexable prefix, is an
      invalid escape. */
  lemma LexTrailingBackslash(ts: seq<Token>)
    requires WellFormed(ts)
    ensures Lex(Render(ts) + ['\\']) == Err(InvalidEscape)
  {
    LexAppend(ts, ['\\']);
    LexAt(['\\'], 0);
    assert ['\\'][0..] == ['\\'];
  }

  /** Where an error is found: `tail` is what is left of the pattern when the
      lexer stops. */
  ghost predicate ErrorAt(e: LexError, tail: string) {
    match e
    case InvalidEscape => tail == ['\\']
    case UnexpectedChar(c) => |tail| > 0 && tail[0] == c && IsStrayChar(c)
  }

  /** The inductive step of `LexErrorDecomposes`: a token in front of a
      decomposed remainder. */
  lemma ErrorDecompositionCons(s: string, k: nat, t: Token, ts': seq<Token>, tail: string)
    requires 0 < k <= |s| && TokenText(t) == s[..k] && ValidToken(t)
    requires t.Literal? && k < |s| ==> !IsWordChar(s[k])
    requires WellFormed(ts') && s[k..] == Render(ts') + tail
    ensures WellFormed([t] + ts') && s == Render([t] + ts') + tail
  {
    if t.Literal? && |ts'| > 0 {
      TokenTextNonEmpty(ts'[0]);
      RenderHead(ts');
      assert s[k] == TokenText(ts'[0])[0];
    }
    ConsWellFormed(t, ts');
    assert s == s[..k] + s[k..];
    AppendAssoc(TokenText(t), Render(ts'), tail);
  }

  /** Every lex error comes from a lexable prefix followed either by a lone
      trailing backslash or by the stray character the error names. */
  lemma {:induction false} LexErrorDecomposes(s: string)
    requires Lex(s).Err?
    ensures exists ts: seq<Token>, tail: string :: WellFormed(ts) && s == Render(ts) + tail && ErrorAt(Lex(s).error, tail)
    decreases |s|
  {
    var e := Lex(s).error;
    var c := s[0];
    LexAt(s, 0);
    assert s[0..] == s;
    var k: nat;
    var t: Token;
    if OperatorToken(c).Some? {
      k, t := 1, OperatorToken(c).value;
      OperatorCharOfToken(c);
    } else if c == '\\' && |s| > 1 {
      k, t := 2, Backslash(s[1]);
    } else if IsWordChar(c) {
      k := LiteralRun(s);
      t := Literal(s[..k]);
      LexLiteralAt(s, 0, k);
    } else {
      assert Render([]) + s == s;
      assert ErrorAt(e, s);
      return;
    }
    assert Lex(s) == Prepend(t, Lex(s[k..]));
    assert TokenText(t) == s[..k];
    LexErrorDecomposes(s[k..]);
    ErrorDecompositionStep(s, k, t);
  }

  /** A decomposition of the rest of the pattern, with the head token put
      back in front, decomposes the whole pattern. */
  lemma ErrorDecompositionStep(s: string, k: nat, t: Token)
    requires 0 < k <= |s| && TokenText(t) == s[..k] && ValidToken(t)
    requires t.Literal? && k < |s| ==> !IsWordChar(s[k])
    requires Lex(s[k..]).Err?
    requires exists ts: seq<Token>, tail: string :: WellFormed(ts) && s[k..] == Render(ts) + tail && ErrorAt(Lex(s[k..]).error, tail)
    ensures exists ts: seq<Token>, tail: string :: WellFormed(ts) && s == Render(ts) + tail && ErrorAt(Lex(s[k..]).error, tail)
  {
    var e := Lex(s[k..]).error;
    var ts': seq<Token>, tail: string :| WellFormed(ts') && s[k..] == Render(ts') + tail && ErrorAt(e, tail);
    ErrorDecompositionCons(s, k, t, ts', tail);
    assert s == Render([t] + ts') + tail;
  }

  /** Each token class is exactly the tokens of certain operator characters:
      the quantifiers are `*`, `+` and `?`; the binary operators `|`, `,`
      and `-`; the prefix operator `^`. */
  lemma TokenClassChars(t: Token)
    ensures IsUnaryPostfix(t) <==> IsOperator(t) && OperatorChar(t) in "*+?"
    ensures IsBinaryOperator(t) <==> IsOperator(t) && OperatorChar(t) in "|,-"
    ensures IsUnaryPrefix(t) <==> IsOperator(t) && OperatorChar(t) in "^"
  {
  }

  /** Every character of a pattern falls in exactly one lexical class:
      operator, backslash, word character or stray. */
  lemma CharClassesPartition(c: char)
    ensures OperatorToken(c).Some? ==> c != '\\' && !IsWordChar(c) && !IsStrayChar(c)
    ensures c == '\\' ==> OperatorToken(c).None? && !IsWordChar(c) && !IsStrayChar(c)
    ensures IsWordChar(c) ==> OperatorToken(c).None? && !IsStrayChar(c)
    ensures OperatorToken(c).Some? || c == '\\' || IsWordChar(c) || IsStrayChar(c)
  {
  }
}
