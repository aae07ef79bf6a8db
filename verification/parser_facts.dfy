/** What the parser does to a whole token sequence. It succeeds exactly on
    sequences of literals and quantifiers that do not start with a
    quantifier; it loops forever exactly when it reaches `(` first; and
    otherwise it fails at the first token it cannot take. On success the root
    has one child per literal token, and reading the tree back in postorder
    gives the tokens again. */
module ParserFacts {
  import opened Results
  import opened Tokens
  import opened Parser

  /** `parse_next` by token: a literal is taken, a quantifier is taken when
      the root has a child and otherwise fails, `(` leaves the state as it
      is, and any other token fails with the cursor still on it. */
  lemma StepCases(p: State)
    requires p.idx < |p.tokens|
    ensures var t := p.tokens[p.idx];
      && (t.Literal? ==> Step(p).Ok? && Step(p).value.idx == p.idx + 1)
      && (t.Literal? && p.current.Some? ==>
            Step(p).value.current == Some(Node(p.current.value.op, p.current.value.children + [Node(t, [])])))
      && (IsUnaryPostfix(t) && p.current.Some? && |p.current.value.children| > 0 ==>
            var cs := p.current.value.children;
            Step(p) == Ok(State(p.tokens, p.idx + 1, Some(Node(p.current.value.op, cs[..|cs| - 1] + [Node(t, [cs[|cs| - 1]])])))))
      && (IsUnaryPostfix(t) && p.current.Some? && |p.current.value.children| == 0 ==> Step(p) == Err(NoChildForPostfix))
      && (IsUnaryPostfix(t) && p.current.None? ==> Step(p) == Err(NoCurrentNode))
      && (t == LParen ==> Step(p) == Ok(p))
      && (!t.Literal? && !IsUnaryPostfix(t) && t != LParen ==> Step(p) == Err(UnexpectedToken(t)))
  {
    var t := p.tokens[p.idx];
    if t.Literal? && p.current.Some? {
      var n := p.current.value;
      var after := Step(p).value.current.value;
      assert after.children == n.children + [Node(t, [])];
    }
    if IsUnaryPostfix(t) && p.current.Some? && |p.current.value.children| > 0 {
      var cs := p.current.value.children;
      var after := Step(p).value.current.value;
      assert after.children == cs[..|cs| - 1] + [Node(t, [cs[|cs| - 1]])];
    }
  }

  /** The sequences `parse` accepts: literals and quantifiers only, and a
      quantifier never comes first (so it always has a child to wrap). */
  ghost predicate Accepted(ts: seq<Token>) {
    && (forall i :: 0 <= i < |ts| ==> ts[i].Literal? || IsUnaryPostfix(ts[i]))
    && (|ts| > 0 ==> ts[0].Literal?)
  }

  /** How many tokens of `ts` are literals. */
  function CountLiterals(ts: seq<Token>): nat {
    if |ts| == 0 then 0
    else CountLiterals(ts[..|ts| - 1]) + (if ts[|ts| - 1].Literal? then 1 else 0)
  }

  /** The trees `parse` builds under the root: a literal leaf, wrapped in any
      number of quantifier nodes of one child each. */
  ghost predicate Shaped(n: Node)
    decreases n
  {
    || (n.op.Literal? && |n.children| == 0)
    || (IsUnaryPostfix(n.op) && |n.children| == 1 && Shaped(n.children[0]))
  }

  /** The tokens of a tree in postorder: children first, then the node. */
  function Postorder(n: Node): seq<Token>
    decreases n, 1
  {
    PostorderAll(n.children) + [n.op]
  }

  /** The postorder of a forest, tree after tree. */
  function PostorderAll(ns: seq<Node>): seq<Token>
    decreases ns, 0
  {
    if |ns| == 0 then []
    else PostorderAll(ns[..|ns| - 1]) + Postorder(ns[|ns| - 1])
  }

  /** What the loop of `parse` keeps true on inputs it has not yet rejected:
      the scanned prefix is accepted, and the root's children are shaped
      trees, one per literal, whose postorder is that prefix. */
  ghost predicate Inv(p: State) {
    && p.idx <= |p.tokens|
    && p.current.Some?
    && p.current.value.op == Program
    && (forall i :: 0 <= i < |p.current.value.children| ==> Shaped(p.current.value.children[i]))
    && PostorderAll(p.current.value.children) == p.tokens[..p.idx]
    && Accepted(p.tokens[..p.idx])
    && |p.current.value.children| == CountLiterals(p.tokens[..p.idx])
  }

  /** An accepted non-empty sequence contains a literal. */
  lemma {:induction false} CountLiteralsPositive(ts: seq<Token>)
    requires Accepted(ts) && |ts| > 0
    ensures CountLiterals(ts) > 0
    decreases |ts|
  {
    if |ts| > 1 {
      var init := ts[..|ts| - 1];
      assert init[0] == ts[0];
      CountLiteralsPositive(init);
    }
  }

  /** Prefixes of accepted sequences are accepted. */
  lemma AcceptedPrefix(ts: seq<Token>, j: nat, k: nat)
    requires j <= k <= |ts| && Accepted(ts[..k])
    ensures Accepted(ts[..j])
  {
    assert forall i :: 0 <= i < j ==> ts[..j][i] == ts[..k][i];
  }

  lemma PostorderLeaf(t: Token)
    ensures Postorder(Node(t, [])) == [t]
  {
    assert PostorderAll([]) == [];
  }

  lemma PostorderAllSnoc(ns: seq<Node>, n: Node)
    ensures PostorderAll(ns + [n]) == PostorderAll(ns) + Postorder(n)
  {
    assert (ns + [n])[..|ns|] == ns;
  }

  lemma PostorderWrap(t: Token, c: Node)
    ensures Postorder(Node(t, [c])) == Postorder(c) + [t]
  {
    PostorderAllSnoc([], c);
    assert [] + [c] == [c];
  }

  /** The accepted prefix grows by one token. */
  lemma AcceptedSnoc(ts: seq<Token>, k: nat)
    requires k < |ts| && Accepted(ts[..k])
    requires ts[k].Literal? || (IsUnaryPostfix(ts[k]) && k > 0)
    ensures Accepted(ts[..k + 1])
    ensures CountLiterals(ts[..k + 1]) == CountLiterals(ts[..k]) + (if ts[k].Literal? then 1 else 0)
  {
    assert ts[..k + 1][..k] == ts[..k];
    assert forall i :: 0 <= i < k ==> ts[..k + 1][i] == ts[..k][i];
  }

  /** From a loop state, a literal token is taken and the invariant kept. */
  lemma LiteralStepKeepsInv(p: State)
    requires Inv(p) && p.idx < |p.tokens| && p.tokens[p.idx].Literal?
    ensures Step(p).Ok? && Inv(Step(p).value) && Step(p).value.idx == p.idx + 1
  {
    var t := p.tokens[p.idx];
    var q := Step(p).value;
    var cs := p.current.value.children;
    assert q.current.value.children == cs + [Node(t, [])];
    PostorderAllSnoc(cs, Node(t, []));
    PostorderLeaf(t);
    assert p.tokens[..p.idx + 1] == p.tokens[..p.idx] + [t];
    AcceptedSnoc(p.tokens, p.idx);
  }

  /** Wrapping the last tree of a shaped forest in a quantifier node keeps
      the forest shaped and appends the quantifier to its postorder. */
  lemma WrapLastTree(cs: seq<Node>, t: Token)
    requires |cs| > 0 && IsUnaryPostfix(t)
    requires forall i :: 0 <= i < |cs| ==> Shaped(cs[i])
    ensures var cs' := cs[..|cs| - 1] + [Node(t, [cs[|cs| - 1]])];
      && (forall i :: 0 <= i < |cs'| ==> Shaped(cs'[i]))
      && PostorderAll(cs') == PostorderAll(cs) + [t]
  {
    var n := |cs|;
    var init, c := cs[..n - 1], cs[n - 1];
    var cs' := init + [Node(t, [c])];
    assert cs == init + [c];
    PostorderAllSnoc(init, c);
    PostorderAllSnoc(init, Node(t, [c]));
    PostorderWrap(t, c);
    forall i | 0 <= i < |cs'| ensures Shaped(cs'[i]) {
      if i < n - 1 {
        assert cs'[i] == cs[i];
      }
    }
  }

  /** From a loop state whose root has a child, a quantifier is taken and the
      invariant kept. */
  lemma PostfixStepKeepsInv(p: State)
    requires Inv(p) && p.idx < |p.tokens| && IsUnaryPostfix(p.tokens[p.idx])
    requires |p.current.value.children| > 0
    ensures Step(p).Ok? && Inv(Step(p).value) && Step(p).value.idx == p.idx + 1
  {
    var t := p.tokens[p.idx];
    var cs := p.current.value.children;
    var cs' := cs[..|cs| - 1] + [Node(t, [cs[|cs| - 1]])];
    assert Step(p) == Ok(State(p.tokens, p.idx + 1, Some(Node(Program, cs'))));
    WrapLastTree(cs, t);
    assert p.tokens[..p.idx + 1] == p.tokens[..p.idx] + [t];
    AcceptedSnoc(p.tokens, p.idx);
  }

  /** From a loop state whose root has no child, a quantifier fails, and no
      sequence through it is accepted. */
  lemma PostfixWithoutChildFails(p: State)
    requires Inv(p) && p.idx < |p.tokens| && IsUnaryPostfix(p.tokens[p.idx])
    requires |p.current.value.children| == 0
    ensures Step(p) == Err(NoChildForPostfix)
    ensures p.idx == 0
  {
  }

  /** A token that is neither a literal nor a quantifier stops every accepted
      prefix at it. */
  lemma NotAcceptedPast(ts: seq<Token>, j: nat, k: nat)
    requires j < k <= |ts|
    requires !ts[j].Literal? && !IsUnaryPostfix(ts[j])
    ensures !Accepted(ts[..k])
  {
    assert ts[..k][j] == ts[j];
  }

  /** Everything `Run` does from a state, as a statement about its tokens. */
  ghost predicate RunMatchesTokens(p: State) {
    var ts := p.tokens;
    && (Run(p).Done? <==> Accepted(ts))
    && (Run(p).Done? ==> Inv(Run(p).final) && Run(p).final.idx == |ts|)
    && (Run(p) == Diverges <==> exists k :: 0 <= k < |ts| && ts[k] == LParen && Accepted(ts[..k]))
    && (Run(p).Failed? ==>
          var k := Run(p).at.idx;
          && p.idx <= k < |ts|
          && Accepted(ts[..k])
          && !Accepted(ts[..k + 1])
          && ts[k] != LParen
          && Run(p).error == (if IsUnaryPostfix(ts[k]) then NoChildForPostfix else UnexpectedToken(ts[k])))
  }

  /** No `(` lies inside an accepted prefix. */
  lemma NoLParenInAccepted(ts: seq<Token>, k: nat, m: nat)
    requires k < m <= |ts| && Accepted(ts[..m])
    ensures ts[k] != LParen
  {
    assert ts[..m][k] == ts[k];
  }

  lemma RunAtEnd(p: State)
    requires Inv(p) && p.idx == |p.tokens|
    ensures RunMatchesTokens(p)
  {
    var ts := p.tokens;
    assert ts[..p.idx] == ts;
    forall k | 0 <= k < |ts| && Accepted(ts[..k]) ensures ts[k] != LParen {
      NoLParenInAccepted(ts, k, |ts|);
    }
  }

  lemma {:induction false} RunAfterTakenToken(p: State)
    requires Inv(p) && p.idx < |p.tokens|
    requires p.tokens[p.idx].Literal? || (IsUnaryPostfix(p.tokens[p.idx]) && |p.current.value.children| > 0)
    ensures RunMatchesTokens(p)
    decreases |p.tokens| - p.idx, 0
  {
    var ts := p.tokens;
    if ts[p.idx].Literal? {
      LiteralStepKeepsInv(p);
    } else {
      PostfixStepKeepsInv(p);
    }
    var q := Step(p).value;
    RunFromInvStep(q);
    assert Run(p) == Run(q);
    RunMatchesAfterStep(p, q);
  }

  /** `RunMatchesTokens` carries back over a step that took one token. */
  lemma RunMatchesAfterStep(p: State, q: State)
    requires q.tokens == p.tokens && q.idx == p.idx + 1 && Run(p) == Run(q)
    requires RunMatchesTokens(q)
    ensures RunMatchesTokens(p)
  {
  }

  lemma RunAtRejectedToken(p: State)
    requires Inv(p) && p.idx < |p.tokens|
    requires !p.tokens[p.idx].Literal?
    requires !(IsUnaryPostfix(p.tokens[p.idx]) && |p.current.value.children| > 0)
    ensures RunMatchesTokens(p)
  {
    var ts := p.tokens;
    var t := ts[p.idx];
    if IsUnaryPostfix(t) {
      PostfixWithoutChildFails(p);
    }
    forall k | p.idx < k <= |ts| ensures !Accepted(ts[..k]) {
      if IsUnaryPostfix(t) {
        assert ts[..k][0] == t;
      } else {
        NotAcceptedPast(ts, p.idx, k);
      }
    }
    assert ts[..|ts|] == ts;
    forall k | 0 <= k < p.idx && Accepted(ts[..k]) ensures ts[k] != LParen {
      NoLParenInAccepted(ts, k, p.idx);
    }
  }

  lemma {:induction false} RunFromInvStep(p: State)
    requires Inv(p)
    ensures RunMatchesTokens(p)
    decreases |p.tokens| - p.idx, 1
  {
    if p.idx == |p.tokens| {
      RunAtEnd(p);
    } else if p.tokens[p.idx].Literal? || (IsUnaryPostfix(p.tokens[p.idx]) && |p.current.value.children| > 0) {
      RunAfterTakenToken(p);
    } else {
      RunAtRejectedToken(p);
    }
  }

  /** `parse` on a fresh parser over `ts`: it succeeds exactly on accepted
      sequences, with one root child per literal and the tokens as the
      tree's postorder; it runs forever exactly when it reaches `(` after an
      accepted prefix; and otherwise it fails at the first token that ends
      the accepted prefix, a quantifier with nothing to wrap or a token it
      has no rule for. */
  lemma ParseOutcome(ts: seq<Token>)
    ensures ParseTokens(ts).Done? <==> Accepted(ts)
    ensures ParseTokens(ts).Done? ==>
      var q := ParseTokens(ts).final;
      var root := q.current.value;
      && q.idx == |ts|
      && root.op == Program
      && |root.children| == CountLiterals(ts)
      && (forall i :: 0 <= i < |root.children| ==> Shaped(root.children[i]))
      && PostorderAll(root.children) == ts
    ensures ParseTokens(ts) == Diverges <==>
      exists k :: 0 <= k < |ts| && ts[k] == LParen && Accepted(ts[..k])
    ensures ParseTokens(ts).Failed? ==>
      var k := ParseTokens(ts).at.idx;
      && k < |ts|
      && Accepted(ts[..k])
      && !Accepted(ts[..k + 1])
      && ts[k] != LParen
      && ParseTokens(ts).error == (if IsUnaryPostfix(ts[k]) then NoChildForPostfix else UnexpectedToken(ts[k]))
  {
    var p := NewParser(ts).(current := Some(NewNode(Program)));
    assert ts[..0] == [];
    assert PostorderAll([]) == [];
    RunFromInvStep(p);
    assert ts[..|ts|] == ts;
  }

  /** The postorder of a shaped tree is its literal followed only by
      quantifiers. */
  lemma {:induction false} ShapedPostorder(n: Node)
    requires Shaped(n)
    ensures |Postorder(n)| > 0 && Postorder(n)[0].Literal?
    ensures forall i :: 0 < i < |Postorder(n)| ==> IsUnaryPostfix(Postorder(n)[i])
    decreases n
  {
    if |n.children| == 0 {
      PostorderLeaf(n.op);
    } else {
      var c := n.children[0];
      assert n == Node(n.op, [c]);
      ShapedPostorder(c);
      PostorderWrap(n.op, c);
    }
  }

  /** The postorder of a forest of shaped trees is accepted, and has one
      literal per tree. */
  lemma {:induction false} ShapedForestAccepted(f: seq<Node>)
    requires forall i :: 0 <= i < |f| ==> Shaped(f[i])
    ensures Accepted(PostorderAll(f))
    decreases |f|
  {
    if |f| > 0 {
      var init, last := f[..|f| - 1], f[|f| - 1];
      ShapedForestAccepted(init);
      ShapedPostorder(last);
      var x: seq<Token>, y: seq<Token> := PostorderAll(init), Postorder(last);
      assert PostorderAll(f) == x + y;
      forall i | 0 <= i < |x + y| ensures (x + y)[i].Literal? || IsUnaryPostfix((x + y)[i]) {
        if i >= |x| {
          assert (x + y)[i] == y[i - |x|];
        }
      }
    }
  }

  /** A shaped tree is determined by its postorder. */
  lemma {:induction false} PostorderInjective(a: Node, b: Node)
    requires Shaped(a) && Shaped(b) && Postorder(a) == Postorder(b)
    ensures a == b
    decreases a
  {
    var pa, pb := Postorder(a), Postorder(b);
    assert a.op == pa[|pa| - 1] && b.op == pb[|pb| - 1];
    if |a.children| == 0 {
      PostorderLeaf(a.op);
    } else {
      var c := a.children[0];
      assert a == Node(a.op, [c]);
      ShapedPostorder(c);
      PostorderWrap(a.op, c);
      if |b.children| == 0 {
        PostorderLeaf(b.op);
      } else {
        var d := b.children[0];
        assert b == Node(b.op, [d]);
        PostorderWrap(b.op, d);
        assert Postorder(c) == pa[..|pa| - 1] == Postorder(d);
        PostorderInjective(c, d);
      }
    }
  }

  /** After a prefix `x`, the postorder of a shaped tree puts its only
      literal at position `|x|`. */
  lemma LastLiteralPosition(x: seq<Token>, a: Node)
    requires Shaped(a)
    ensures var z := x + Postorder(a);
      && |x| < |z| && z[|x|].Literal?
      && forall i :: |x| < i < |z| ==> !z[i].Literal?
  {
    ShapedPostorder(a);
    var z := x + Postorder(a);
    forall i | |x| < i < |z| ensures !z[i].Literal? {
      assert z[i] == Postorder(a)[i - |x|];
    }
  }

  /** Two sequences ending in shaped-tree postorders that agree overall
      split at the same place. */
  lemma LastTreeSplit(x: seq<Token>, a: Node, y: seq<Token>, b: Node)
    requires Shaped(a) && Shaped(b)
    requires x + Postorder(a) == y + Postorder(b)
    ensures |x| == |y|
  {
    LastLiteralPosition(x, a);
    LastLiteralPosition(y, b);
  }

  /** A forest of shaped trees is determined by its postorder. */
  lemma {:induction false} PostorderAllInjective(f: seq<Node>, g: seq<Node>)
    requires forall i :: 0 <= i < |f| ==> Shaped(f[i])
    requires forall i :: 0 <= i < |g| ==> Shaped(g[i])
    requires PostorderAll(f) == PostorderAll(g)
    ensures f == g
    decreases |f|
  {
    if |f| > 0 && |g| > 0 {
      var f', a := f[..|f| - 1], f[|f| - 1];
      var g', b := g[..|g| - 1], g[|g| - 1];
      var x, y := PostorderAll(f'), PostorderAll(g');
      LastTreeSplit(x, a, y, b);
      var z := x + Postorder(a);
      assert z == y + Postorder(b);
      assert Postorder(a) == z[|x|..] == Postorder(b);
      assert x == z[..|x|] == y;
      PostorderInjective(a, b);
      PostorderAllInjective(f', g');
      assert f == f' + [a] && g == g' + [b];
    }
  }

  /** Every forest of shaped trees is what `parse` builds from its postorder:
      the parse tree is the only shaped tree that reads back as the tokens. */
  lemma ParsePostorder(f: seq<Node>)
    requires forall i :: 0 <= i < |f| ==> Shaped(f[i])
    ensures var ts := PostorderAll(f);
      ParseTokens(ts) == Done(State(ts, |ts|, Some(Node(Program, f))))
  {
    var ts := PostorderAll(f);
    ShapedForestAccepted(f);
    ParseOutcome(ts);
    var q := ParseTokens(ts).final;
    PostorderAllInjective(q.current.value.children, f);
  }
}
