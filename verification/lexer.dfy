/** The regex lexer of src/lexer.rs: one left-to-right pass turning a pattern
    into tokens. Fifteen operator characters become payload-free tokens, a
    backslash takes the next character whatever it is, a maximal run of word
    characters becomes one `Literal`, and any other character fails the whole
    lex. */
module Lexer {
  import opened Results
  import opened Tokens

  datatype LexError =
    | InvalidEscape          // a backslash with nothing after it
    | UnexpectedChar(c: char)

  /** Stand-in for Rust's `c.is_alphanumeric() || c.is_whitespace()`,
      restricted to ASCII: letters, digits, space and the control characters
      tab, line feed, vertical tab, form feed and carriage return. */
  predicate IsWordChar(c: char) {
    ('a' <= c <= 'z') || ('A' <= c <= 'Z') || ('0' <= c <= '9') || c == ' ' || ('\t' <= c <= '\r')
  }

  /** The fifteen operator characters, in the order the lexer tests them. */
  const OperatorChars: string := "*+?()|[]{},.^$-"

  /** The token an operator character stands for, or None for any other
      character. */
  function OperatorToken(c: char): (r: Option<Token>)
    ensures r.Some? <==> c in OperatorChars
    ensures r.Some? ==> IsOperator(r.value)
    ensures r.Some? ==> !IsWordChar(c) && c != '\\'
  {
    match c
    case '*' => Some(KleeneStar)
    case '+' => Some(KleenePlus)
    case '?' => Some(Question)
    case '(' => Some(LParen)
    case ')' => Some(RParen)
    case '|' => Some(VBar)
    case '[' => Some(LBracket)
    case ']' => Some(RBracket)
    case '{' => Some(LBrace)
    case '}' => Some(RBrace)
    case ',' => Some(Comma)
    case '.' => Some(Dot)
    case '^' => Some(Caret)
    case '$' => Some(Dollar)
    case '-' => Some(Dash)
    case _ => None
  }

  /** The character an operator token is written as. */
  function OperatorChar(t: Token): (c: char)
    requires IsOperator(t)
    ensures OperatorToken(c) == Some(t)
  {
    match t
    case KleeneStar => '*'
    case KleenePlus => '+'
    case Question => '?'
    case LParen => '('
    case RParen => ')'
    case VBar => '|'
    case LBracket => '['
    case RBracket => ']'
    case LBrace => '{'
    case RBrace => '}'
    case Comma => ','
    case Dot => '.'
    case Caret => '^'
    case Dollar => '$'
    case Dash => '-'
  }

  /** Each operator character is the text of the token it stands for. */
  lemma OperatorCharOfToken(c: char)
    requires OperatorToken(c).Some?
    ensures OperatorChar(OperatorToken(c).value) == c
  {
    match c
    case '*' =>
    case '+' =>
    case '?' =>
    case '(' =>
    case ')' =>
    case '|' =>
    case '[' =>
    case ']' =>
    case '{' =>
    case '}' =>
    case ',' =>
    case '.' =>
    case '^' =>
    case '$' =>
    case '-' =>
  }

  /** A character the lexer rejects: not an operator, not a backslash and not
      a word character. */
  predicate IsStrayChar(c: char) {
    OperatorToken(c).None? && c != '\\' && !IsWordChar(c)
  }

  /** The pattern text a token was lexed from. */
  function TokenText(t: Token): string {
    match t
    case Program => ""
    case Literal(s) => s
    case Backslash(c) => ['\\', c]
    case _ => [OperatorChar(t)]
  }

  /** The pattern text a token sequence was lexed from. */
  function Render(ts: seq<Token>): string {
    if |ts| == 0 then "" else TokenText(ts[0]) + Render(ts[1..])
  }

  /** A token the lexer can emit: never `Program`, and a `Literal` is a
      non-empty run of word characters. */
  ghost predicate ValidToken(t: Token) {
    && !t.Program?
    && (t.Literal? ==> |t.text| > 0 && forall k :: 0 <= k < |t.text| ==> IsWordChar(t.text[k]))
  }

  /** A token sequence the lexer can emit: valid tokens, and literal runs are
      maximal, so two literals are never adjacent. */
  ghost predicate WellFormed(ts: seq<Token>)
    decreases |ts|
  {
    || |ts| == 0
    || (&& ValidToken(ts[0])
        && (|ts| > 1 ==> !(ts[0].Literal? && ts[1].Literal?))
        && WellFormed(ts[1..]))
  }

  /** Length of the longest prefix of `s` made of word characters. */
  function LiteralRun(s: string): (n: nat)
    ensures n <= |s|
    ensures forall k :: 0 <= k < n ==> IsWordChar(s[k])
    ensures n < |s| ==> !IsWordChar(s[n])
  {
    if |s| == 0 || !IsWordChar(s[0]) then 0 else 1 + LiteralRun(s[1..])
  }

  /** Puts `t` in front of a successful lex; passes an error through. */
  function Prepend(t: Token, r: Result<seq<Token>, LexError>): Result<seq<Token>, LexError> {
    match r
    case Ok(ts) => Ok([t] + ts)
    case Err(e) => Err(e)
  }

  /** Puts `ts` in front of a successful lex; passes an error through. */
  function PrependAll(ts: seq<Token>, r: Result<seq<Token>, LexError>): Result<seq<Token>, LexError> {
    match r
    case Ok(us) => Ok(ts + us)
    case Err(e) => Err(e)
  }

  /** Putting a valid token in front of a well-formed sequence keeps it
      well-formed as long as two literals do not meet, and prefixes its text. */
  lemma ConsWellFormed(t: Token, ts: seq<Token>)
    requires ValidToken(t) && WellFormed(ts)
    requires t.Literal? && |ts| > 0 ==> !ts[0].Literal?
    ensures WellFormed([t] + ts)
    ensures Render([t] + ts) == TokenText(t) + Render(ts)
  {
    assert ([t] + ts)[1..] == ts;
  }

  /** The successful lex of `s` when its first token is `t`, written as
      `s[..k]`, and the rest lexes to `rest`. */
  function LexCons(s: string, k: nat, t: Token, rest: Result<seq<Token>, LexError>): (r: Result<seq<Token>, LexError>)
    requires 0 < k <= |s| && TokenText(t) == s[..k] && ValidToken(t)
    requires rest.Ok? ==> WellFormed(rest.value) && Render(rest.value) == s[k..] && |rest.value| <= |s| - k
    requires rest.Ok? && t.Literal? && |rest.value| > 0 ==> !rest.value[0].Literal?
    ensures r.Ok? ==> WellFormed(r.value) && Render(r.value) == s && |r.value| <= |s|
    ensures r.Ok? ==> |r.value| > 0 && r.value[0] == t
    ensures r.Err? ==> rest == r
  {
    if rest.Err? then rest
    else
      ConsWellFormed(t, rest.value);
      assert s == s[..k] + s[k..];
      Ok([t] + rest.value)
  }

  /** `lex`: the tokens of a pattern, or the error at the first position that
      cannot start a token. */
  function Lex(s: string): (r: Result<seq<Token>, LexError>)
    ensures r.Ok? ==> WellFormed(r.value) && Render(r.value) == s
    ensures r.Ok? ==> |r.value| <= |s|
    ensures r.Ok? && |r.value| > 0 && r.value[0].Literal? ==> |s| > 0 && IsWordChar(s[0])
    ensures r == Err(InvalidEscape) ==> |s| > 0 && s[|s| - 1] == '\\'
    ensures r.Err? && r.error.UnexpectedChar? ==> r.error.c in s && IsStrayChar(r.error.c)
    decreases |s|
  {
    if |s| == 0 then Ok([])
    else
      var c := s[0];
      if OperatorToken(c).Some? then
        OperatorCharOfToken(c);
        LexCons(s, 1, OperatorToken(c).value, Lex(s[1..]))
      else if c == '\\' then
        if |s| == 1 then Err(InvalidEscape)
        else LexCons(s, 2, Backslash(s[1]), Lex(s[2..]))
      else if IsWordChar(c) then
        var n := LiteralRun(s);
        LexCons(s, n, Literal(s[..n]), Lex(s[n..]))
      else Err(UnexpectedChar(c))
  }

  /** One unfolding of `Lex` on the suffix of `s` that starts at `i`, as the
      loop of `lex` sees it. */
  lemma LexAt(s: string, i: nat)
    requires i < |s|
    ensures OperatorToken(s[i]).Some? ==> Lex(s[i..]) == Prepend(OperatorToken(s[i]).value, Lex(s[i + 1..]))
    ensures s[i] == '\\' && i + 1 < |s| ==> Lex(s[i..]) == Prepend(Backslash(s[i + 1]), Lex(s[i + 2..]))
    ensures s[i] == '\\' && i + 1 == |s| ==> Lex(s[i..]) == Err(InvalidEscape)
    ensures IsStrayChar(s[i]) ==> Lex(s[i..]) == Err(UnexpectedChar(s[i]))
  {
    assert s[i..][0] == s[i];
    assert s[i..][1..] == s[i + 1..];
    if i + 1 < |s| {
      assert s[i..][2..] == s[i + 2..];
      assert s[i..][1] == s[i + 1];
    }
  }

  /** The literal case of `LexAt`: a word character at `i` whose run ends at
      `j`. */
  lemma LexLiteralAt(s: string, i: nat, j: nat)
    requires i < j <= |s|
    requires forall k :: i <= k < j ==> IsWordChar(s[k])
    requires j < |s| ==> !IsWordChar(s[j])
    ensures Lex(s[i..]) == Prepend(Literal(s[i..j]), Lex(s[j..]))
  {
    var u := s[i..];
    LiteralRunExact(u, j - i);
    assert u[0] == s[i];
    assert u[..j - i] == s[i..j];
    assert u[j - i..] == s[j..];
  }

  lemma PrependAllSnoc(ts: seq<Token>, t: Token, r: Result<seq<Token>, LexError>)
    ensures PrependAll(ts + [t], r) == PrependAll(ts, Prepend(t, r))
  {
    if r.Ok? {
      assert ts + [t] + r.value == ts + ([t] + r.value);
    }
  }

  /** The loop of `lex` as written: a cursor over the pattern with one
      character of lookahead, pushing tokens onto a growing vector and
      returning at the first error. It computes exactly `Lex`. */
  method LexScan(s: string) returns (r: Result<seq<Token>, LexError>)
    ensures r == Lex(s)
  {
    var tokens: seq<Token> := [];
    var i := 0;
    assert s[i..] == s;
    match Lex(s) {
      case Ok(us) => assert tokens + us == us;
      case Err(_) =>
    }
    while i < |s|
      invariant 0 <= i <= |s|
      invariant Lex(s) == PrependAll(tokens, Lex(s[i..]))
    {
      var c := s[i];
      var op := OperatorToken(c);
      LexAt(s, i);
      if op.Some? {
        PrependAllSnoc(tokens, op.value, Lex(s[i + 1..]));
        tokens := tokens + [op.value];
        i := i + 1;
      } else if c == '\\' {
        if i + 1 < |s| {
          PrependAllSnoc(tokens, Backslash(s[i + 1]), Lex(s[i + 2..]));
          tokens := tokens + [Backslash(s[i + 1])];
          i := i + 2;
        } else {
          return Err(InvalidEscape);
        }
      } else if IsWordChar(c) {
        var start := i;
        var literal;
        literal, i := ScanLiteral(s, i);
        LexLiteralAt(s, start, i);
        PrependAllSnoc(tokens, Literal(literal), Lex(s[i..]));
        tokens := tokens + [Literal(literal)];
      } else {
        return Err(UnexpectedChar(c));
      }
    }
    assert s[i..] == [];
    assert tokens + [] == tokens;
    return Ok(tokens);
  }

  /** The inner loop of `lex`: starting at a word character, take characters
      while the next one is a word character. */
  method ScanLiteral(s: string, start: nat) returns (literal: string, j: nat)
    requires start < |s| && IsWordChar(s[start])
    ensures start < j <= |s| && literal == s[start..j]
    ensures forall k :: start <= k < j ==> IsWordChar(s[k])
    ensures j < |s| ==> !IsWordChar(s[j])
  {
    literal := [s[start]];
    j := start + 1;
    while j < |s| && IsWordChar(s[j])
      invariant start < j <= |s|
      invariant literal == s[start..j]
      invariant forall k :: start <= k < j ==> IsWordChar(s[k])
    {
      literal := literal + [s[j]];
      j := j + 1;
    }
  }

  /** `LiteralRun` is the only length whose prefix is all word characters and
      is followed by a non-word character or the end. */
  lemma LiteralRunExact(s: string, n: nat)
    requires n <= |s|
    requires forall k :: 0 <= k < n ==> IsWordChar(s[k])
    requires n < |s| ==> !IsWordChar(s[n])
    ensures LiteralRun(s) == n
  {
  }
}
