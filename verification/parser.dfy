/** The partial parser of src/parser.rs: a state machine over the token
    sequence, a cursor into it and the tree built so far. A literal token
    appends a leaf to the root, a postfix quantifier wraps the root's last
    child, `(` is a stub that succeeds without consuming anything, and every
    other token is rejected. */
module Parser {
  import opened Results
  import opened Tokens

  /** `ASTNode`: an operator token and the nodes it owns. The source's `op`
      is an `Option<Token>`, but every node the parser builds carries a
      token, so the option is dropped; the never-assigned `parent` link is
      dropped too. */
  datatype Node = Node(op: Token, children: seq<Node>)

  datatype ParseError =
    | NoTokens                        // `parse_next` past the last token
    | UnexpectedToken(token: Token)   // a token `parse_next` has no rule for
    | ExpectedLiteral(token: Token)   // `parse_literal` given a non-literal
    | ExpectedPostfix(token: Token)   // `parse_unary_postfix` given a non-quantifier
    | NoCurrentNode                   // a quantifier before any root exists
    | NoChildForPostfix               // a quantifier with nothing to apply to

  /** `Parser`: the tokens, the index of the next token to parse, and the
      root being built (absent until `parse` creates it). */
  datatype State = State(tokens: seq<Token>, idx: nat, current: Option<Node>)

  /** `Parser::new`: at the first token, with no root yet. */
  function NewParser(tokens: seq<Token>): (p: State)
    ensures p.tokens == tokens && p.idx == 0 && p.current.None?
  {
    State(tokens, 0, None)
  }

  /** `ASTNode::new`: a node with no children. */
  function NewNode(op: Token): (n: Node)
    ensures n.op == op
    ensures PopChild(n) == (n, None)
  {
    Node(op, [])
  }

  /** `add_child`: `c` becomes the last child; the op and every earlier child
      stay as they were. */
  function AddChild(n: Node, c: Node): (r: Node)
    ensures r.op == n.op
    ensures |r.children| == |n.children| + 1
    ensures r.children[..|n.children|] == n.children
    ensures r.children[|n.children|] == c
  {
    Node(n.op, n.children + [c])
  }

  /** `pop_child`: removes and returns the last child, or returns None and
      leaves the node as it was when it has no children. */
  function PopChild(n: Node): (r: (Node, Option<Node>))
    ensures r.0.op == n.op
    ensures |n.children| == 0 ==> r.0 == n && r.1.None?
    ensures |n.children| > 0 ==> r.1 == Some(n.children[|n.children| - 1])
    ensures |n.children| > 0 ==> r.0.children == n.children[..|n.children| - 1]
  {
    if |n.children| == 0 then (n, None)
    else (Node(n.op, n.children[..|n.children| - 1]), Some(n.children[|n.children| - 1]))
  }

  /** `pop_child` undoes `add_child`, and `add_child` puts back what
      `pop_child` took: the two are inverse on nodes with children. */
  lemma PopChildUndoesAddChild(n: Node, c: Node)
    ensures PopChild(AddChild(n, c)) == (n, Some(c))
    ensures |n.children| > 0 ==> AddChild(PopChild(n).0, PopChild(n).1.value) == n
  {
    assert (n.children + [c])[..|n.children|] == n.children;
    if |n.children| > 0 {
      assert n.children[..|n.children| - 1] + [n.children[|n.children| - 1]] == n.children;
    }
  }

  /** `parse_parens`: a stub that reports success and changes nothing. */
  function ParseParens(p: State): (r: Result<State, ParseError>)
    ensures r.Ok? && r.value.tokens == p.tokens
    ensures r.Ok? && r.value.idx == p.idx && r.value.current == p.current
  {
    Ok(p)
  }

  /** `parse_literal`: a literal token becomes a new last leaf of the root
      (when there is a root) and the cursor moves past it. */
  function ParseLiteral(p: State, t: Token): (r: Result<State, ParseError>)
    ensures r.Ok? <==> t.Literal?
    ensures r.Err? ==> r.error == ExpectedLiteral(t)
    ensures r.Ok? ==> r.value.tokens == p.tokens && r.value.idx == p.idx + 1
    ensures r.Ok? ==> r.value.current.Some? == p.current.Some?
    ensures r.Ok? && p.current.Some? ==>
      var before, after := p.current.value, r.value.current.value;
      && after.op == before.op
      && |after.children| == |before.children| + 1
      && after.children[..|before.children|] == before.children
      && after.children[|before.children|] == Node(t, [])
  {
    if t.Literal? then
      var current := if p.current.Some? then Some(AddChild(p.current.value, NewNode(t))) else None;
      Ok(State(p.tokens, p.idx + 1, current))
    else
      Err(ExpectedLiteral(t))
  }

  /** `parse_unary_postfix`: a quantifier takes the root's last child `c` and
      puts back, in its place, a node labelled with the quantifier whose only
      child is `c`. */
  function ParseUnaryPostfix(p: State, t: Token): (r: Result<State, ParseError>)
    ensures !IsUnaryPostfix(t) ==> r == Err(ExpectedPostfix(t))
    ensures IsUnaryPostfix(t) && p.current.None? ==> r == Err(NoCurrentNode)
    ensures IsUnaryPostfix(t) && p.current.Some? && |p.current.value.children| == 0 ==> r == Err(NoChildForPostfix)
    ensures IsUnaryPostfix(t) && p.current.Some? && |p.current.value.children| > 0 ==> r.Ok?
    ensures r.Ok? ==> IsUnaryPostfix(t) && p.current.Some? && r.value.current.Some?
    ensures r.Ok? ==> r.value.tokens == p.tokens && r.value.idx == p.idx + 1
    ensures r.Ok? ==>
      var before, after := p.current.value, r.value.current.value;
      var n := |before.children|;
      && n > 0
      && after.op == before.op
      && |after.children| == n
      && after.children[..n - 1] == before.children[..n - 1]
      && after.children[n - 1] == Node(t, [before.children[n - 1]])
  {
    if !IsUnaryPostfix(t) then Err(ExpectedPostfix(t))
    else
      match p.current
      case None => Err(NoCurrentNode)
      case Some(node) =>
        var (rest, last) := PopChild(node);
        if last.None? then Err(NoChildForPostfix)
        else
          var wrapped := AddChild(NewNode(t), last.value);
          Ok(State(p.tokens, p.idx + 1, Some(AddChild(rest, wrapped))))
  }

  /** `parse_next`: dispatch on the token under the cursor. A successful step
      either moves the cursor by exactly one or, on `(`, changes nothing. */
  function Step(p: State): (r: Result<State, ParseError>)
    ensures p.idx >= |p.tokens| ==> r == Err(NoTokens)
    ensures r.Ok? ==> r.value.tokens == p.tokens
    ensures r.Ok? ==> p.idx < |p.tokens|
    ensures r.Ok? ==> r.value.idx == p.idx + 1 || (r.value == p && p.tokens[p.idx] == LParen)
    ensures r.Ok? && p.current.Some? ==> r.value.current.Some? && r.value.current.value.op == p.current.value.op
  {
    if p.idx < |p.tokens| then
      var t := p.tokens[p.idx];
      if t.Literal? then ParseLiteral(p, t)
      else if IsUnaryPostfix(t) then ParseUnaryPostfix(p, t)
      else if t == LParen then ParseParens(p)
      else Err(UnexpectedToken(t))
    else
      Err(NoTokens)
  }

  /** How the loop of `parse` ends: it runs out of tokens, a step fails (the
      state is the one before the failing step, which no failing step
      changes), or it never ends. */
  datatype Outcome =
    | Done(final: State)
    | Failed(error: ParseError, at: State)
    | Diverges

  /** The loop of `parse`: step while the cursor is before the end. Since a
      step is a function of the state, a step that returns the state it was
      given repeats forever; that is reported as `Diverges`. */
  function Run(p: State): (o: Outcome)
    ensures o.Done? ==> o.final.idx >= |p.tokens| && o.final.tokens == p.tokens
    ensures o.Done? && p.idx <= |p.tokens| ==> o.final.idx == |p.tokens|
    ensures o.Done? && p.current.Some? ==> o.final.current.Some? && o.final.current.value.op == p.current.value.op
    ensures o.Failed? ==> o.at.idx < |o.at.tokens| && o.at.tokens == p.tokens && Step(o.at) == Err(o.error)
    decreases |p.tokens| - p.idx
  {
    if p.idx >= |p.tokens| then Done(p)
    else
      match Step(p)
      case Err(e) => Failed(e, p)
      case Ok(q) => if q == p then Diverges else Run(q)
  }

  /** `parse`: make a fresh `Program` root, then run the loop. */
  function Parse(p: State): (o: Outcome)
    ensures o.Done? && p.idx <= |p.tokens| ==> o.final.idx == |p.tokens|
    ensures o.Done? ==> o.final.current.Some? && o.final.current.value.op == Program
  {
    Run(p.(current := Some(NewNode(Program))))
  }

  /** A fresh parser over `tokens`, parsed. */
  function ParseTokens(tokens: seq<Token>): Outcome {
    Parse(NewParser(tokens))
  }
}
