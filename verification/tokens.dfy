/** The tokens the lexer produces and the parser consumes (src/lexer.rs). */
module Tokens {

  /** One token of a regex pattern. `Program` stands for the whole pattern and
      only ever labels the root of a parse tree; the lexer never emits it. */
  datatype Token =
    | Program
    | Literal(text: string)
    | Backslash(escaped: char)
    | KleeneStar
    | KleenePlus
    | Question
    | LParen
    | RParen
    | VBar
    | RBracket
    | LBracket
    | LBrace
    | RBrace
    | Comma
    | Dash
    | Dot
    | Caret
    | Dollar

  /** Operators that combine two operands: alternation, the comma of a
      repetition bound and the dash of a range. */
  predicate IsBinaryOperator(t: Token): (b: bool)
    ensures b ==> IsOperator(t)
  {
    t.VBar? || t.Comma? || t.Dash?
  }

  /** Quantifiers written after the operand they apply to. */
  predicate IsUnaryPostfix(t: Token): (b: bool)
    ensures b ==> IsOperator(t)
  {
    t.KleeneStar? || t.KleenePlus? || t.Question?
  }

  /** Operators written before their operand. */
  predicate IsUnaryPrefix(t: Token): (b: bool)
    ensures b ==> IsOperator(t)
  {
    t.Caret?
  }

  /** A token that carries no payload: one of the fifteen single-character
      operators. */
  predicate IsOperator(t: Token) {
    !(t.Program? || t.Literal? || t.Backslash?)
  }

  /** The three token classes never overlap, and each lies among the
      payload-free operators. */
  lemma TokenClassesDisjoint(t: Token)
    ensures !(IsBinaryOperator(t) && IsUnaryPostfix(t))
    ensures !(IsBinaryOperator(t) && IsUnaryPrefix(t))
    ensures !(IsUnaryPostfix(t) && IsUnaryPrefix(t))
    ensures IsBinaryOperator(t) || IsUnaryPostfix(t) || IsUnaryPrefix(t) ==> IsOperator(t)
  {
  }
}
