/**
 * Three places where the visitor as written does not do what its predicates mean, each
 * with the input that shows it, and the corrected behaviour with its property proved.
 */
module Findings {
  import opened Outcomes
  import opened Values
  import opened Expressions
  import opened Filters
  import opened Translation
  import opened Traversal
  import opened Semantics
  import opened Correspondence

  /** The state an And/Or node's operands are visited in: the node added, its insertion point pushed. */
  function OperandState(st: State, c: Connective): (r: State)
    requires Valid(st) && |st.stack| > 0
    ensures Valid(r) && |r.stack| > 0
  {
    assert TargetIn(Top(st), |st.nodes|);
    var st2 := AddFilter(NewNode(st, c), Ref(|st.nodes|));
    st2.(stack := st2.stack + [AppendTo(|st.nodes|)])
  }

  /** An And/Or node is visited by visiting its operands in OperandState and popping the top entry. */
  lemma ConnectiveVisited(ctx: Context, rev: Revision, e: Expr, st: State, done: State)
    requires e.Binary? && IsConnective(e.op)
    requires Valid(st) && |st.stack| > 0
    requires TraverseBoth(ctx, rev, e, OperandState(st, ConnectiveOf(e.op))) == Success(done)
    ensures |done.stack| > 0
    ensures Traverse(ctx, rev, e, st) == Success(done.(stack := done.stack[..|done.stack| - 1]))
  {
    var n := |st.nodes|;
    assert TargetIn(Top(st), n);
    var st2 := AddFilter(NewNode(st, ConnectiveOf(e.op)), Ref(n));
    assert OperandState(st, ConnectiveOf(e.op)) == st2.(stack := st2.stack + [AppendTo(n)]);
    var popped := done.(stack := done.stack[..|done.stack| - 1]);
    assert TraverseInScope(ctx, rev, e, AppendTo(n), st2) == Success(popped);
    assert TraverseConnective(ctx, rev, e, st) == Success(popped);
  }

  /** At the start, the first And/Or node is node 0, added as the result, with its insertion point pushed. */
  lemma FirstNodeState(c: Connective)
    ensures OperandState(Initial(), c) == State([Root, AppendTo(0)], [Node(c, [])], Ref(0))
  {
    assert [Root] + [AppendTo(0)] == [Root, AppendTo(0)];
  }

  /** `!x.A && x.B`, with A and B bool properties of the entity. */
  function NegatedThenPlain(a: string, b: string): Expr {
    Binary(AndAlso, Unary(Not, Member(Parameter, a, BoolType)), Member(Parameter, b, BoolType))
  }

  /**
   * As written, the negating insertion point `!` pushes is not popped when its operand is
   * done, so the sibling visited after it is sent through it too: `!x.A && x.B` compiles
   * to And(Not(A = true), Not(B = true)).
   */
  lemma NegationLeaksAsWritten(ctx: Context, a: string, b: string)
    ensures var ta := Term(ctx.fieldName(Member(Parameter, a, BoolType)), BoolValue(true));
      var tb := Term(ctx.fieldName(Member(Parameter, b, BoolType)), BoolValue(true));
      Parse(ctx, AsWritten, NegatedThenPlain(a, b)) == Success(AndFilter([NotFilter(ta), NotFilter(tb)]))
  {
    var ta := Term(ctx.fieldName(Member(Parameter, a, BoolType)), BoolValue(true));
    var tb := Term(ctx.fieldName(Member(Parameter, b, BoolType)), BoolValue(true));
    var e := NegatedThenPlain(a, b);
    var st5 := State([Root, AppendTo(0), WrapNot(AppendTo(0))], [Node(AndNode, [NotOf(Leaf(ta)), NotOf(Leaf(tb))])], Ref(0));
    FirstNodeState(AndNode);
    LeakingOperands(ctx, a, b);
    ConnectiveVisited(ctx, AsWritten, e, Initial(), st5);
    var st6 := State([Root, AppendTo(0)], st5.nodes, Ref(0));
    assert st5.stack[..|st5.stack| - 1] == [Root, AppendTo(0)];
    var kids := st6.nodes[0].children;
    assert Resolve(st6.nodes, kids[0]) == NotFilter(ta);
    assert Resolve(st6.nodes, kids[1]) == NotFilter(tb);
    assert seq(|kids|, k requires 0 <= k < |kids| => Resolve(st6.nodes, kids[k])) == [NotFilter(ta), NotFilter(tb)];
  }

  /** The two operands of `!x.A && x.B`, visited as written into node 0: both arrive negated. */
  lemma LeakingOperands(ctx: Context, a: string, b: string)
    ensures var ta := Term(ctx.fieldName(Member(Parameter, a, BoolType)), BoolValue(true));
      var tb := Term(ctx.fieldName(Member(Parameter, b, BoolType)), BoolValue(true));
      TraverseBoth(ctx, AsWritten, NegatedThenPlain(a, b), State([Root, AppendTo(0)], [Node(AndNode, [])], Ref(0)))
        == Success(State([Root, AppendTo(0), WrapNot(AppendTo(0))], [Node(AndNode, [NotOf(Leaf(ta)), NotOf(Leaf(tb))])], Ref(0)))
  {
    var ta := Term(ctx.fieldName(Member(Parameter, a, BoolType)), BoolValue(true));
    var tb := Term(ctx.fieldName(Member(Parameter, b, BoolType)), BoolValue(true));
    var st3 := State([Root, AppendTo(0)], [Node(AndNode, [])], Ref(0));
    var st4 := State([Root, AppendTo(0), WrapNot(AppendTo(0))], [Node(AndNode, [NotOf(Leaf(ta))])], Ref(0));
    assert st3.stack + [WrapNot(AppendTo(0))] == st4.stack;
    assert [] + [NotOf(Leaf(ta))] == [NotOf(Leaf(ta))];
    assert st3.nodes[0 := Node(AndNode, [NotOf(Leaf(ta))])] == st4.nodes;
    NegatedThenDelivered(ctx, a, st3, st4);
    var st5 := State(st4.stack, [Node(AndNode, [NotOf(Leaf(ta)), NotOf(Leaf(tb))])], Ref(0));
    assert [NotOf(Leaf(ta))] + [NotOf(Leaf(tb))] == [NotOf(Leaf(ta)), NotOf(Leaf(tb))];
    assert st4.nodes[0 := Node(AndNode, [NotOf(Leaf(ta)), NotOf(Leaf(tb))])] == st5.nodes;
    SiblingDelivered(ctx, b, st4, st5);
  }

  /** NegatedOperandAsWritten at a concrete state whose node n is given. */
  lemma NegatedThenDelivered(ctx: Context, a: string, st: State, st4: State)
    requires Valid(st) && |st.stack| > 0 && Top(st).AppendTo?
    requires var n := Top(st).node;
      var ta := Term(ctx.fieldName(Member(Parameter, a, BoolType)), BoolValue(true));
      st4 == State(st.stack + [WrapNot(Top(st))], st.nodes[n := Node(st.nodes[n].connective, st.nodes[n].children + [NotOf(Leaf(ta))])], st.result)
    ensures Traverse(ctx, AsWritten, Unary(Not, Member(Parameter, a, BoolType)), st) == Success(st4)
  {
    NegatedOperandAsWritten(ctx, a, st);
  }

  /** BoolMemberDelivered under one negating insertion point, at a concrete state. */
  lemma SiblingDelivered(ctx: Context, b: string, st: State, st5: State)
    requires Valid(st) && |st.stack| > 0 && Top(st).WrapNot? && Top(st).under.AppendTo? && Top(st).under.node < |st.nodes|
    requires var n := Top(st).under.node;
      var tb := Term(ctx.fieldName(Member(Parameter, b, BoolType)), BoolValue(true));
      st5 == st.(nodes := st.nodes[n := Node(st.nodes[n].connective, st.nodes[n].children + [NotOf(Leaf(tb))])])
    ensures Traverse(ctx, AsWritten, Member(Parameter, b, BoolType), st) == Success(st5)
  {
    var tb := Term(ctx.fieldName(Member(Parameter, b, BoolType)), BoolValue(true));
    assert Base(Top(st)) == Top(st).under;
    assert Wrapped(Top(st), Leaf(tb)) == NotOf(Leaf(tb));
    BoolMemberDelivered(ctx, AsWritten, b, st);
  }

  /**
   * As written, `!x.A` visited at the insertion point of And/Or node n: Not(A = true) is
   * appended to n and the negating insertion point stays on top of the stack.
   */
  lemma NegatedOperandAsWritten(ctx: Context, a: string, st: State)
    requires Valid(st) && |st.stack| > 0 && Top(st).AppendTo?
    ensures var ta := Term(ctx.fieldName(Member(Parameter, a, BoolType)), BoolValue(true));
      var n := Top(st).node;
      Traverse(ctx, AsWritten, Unary(Not, Member(Parameter, a, BoolType)), st)
        == Success(State(st.stack + [WrapNot(Top(st))],
                         st.nodes[n := Node(st.nodes[n].connective, st.nodes[n].children + [NotOf(Leaf(ta))])],
                         st.result))
  {
    assert TargetIn(Top(st), |st.nodes|);
    var pushed := st.(stack := st.stack + [WrapNot(Top(st))]);
    BoolMemberDelivered(ctx, AsWritten, a, pushed);
  }

  /**
   * A bool member visited while the top of the stack leads to And/Or node n: its term is
   * appended to n, negated once for every negating insertion point on the way.
   */
  lemma BoolMemberDelivered(ctx: Context, rev: Revision, b: string, st: State)
    requires Valid(st) && |st.stack| > 0 && Base(Top(st)).AppendTo?
    ensures var tb := Term(ctx.fieldName(Member(Parameter, b, BoolType)), BoolValue(true));
      var n := Base(Top(st)).node;
      Traverse(ctx, rev, Member(Parameter, b, BoolType), st)
        == Success(st.(nodes := st.nodes[n := Node(st.nodes[n].connective, st.nodes[n].children + [Wrapped(Top(st), Leaf(tb))])]))
  {
    var tb := Term(ctx.fieldName(Member(Parameter, b, BoolType)), BoolValue(true));
    assert TargetIn(Top(st), |st.nodes|);
    DeliverEffect(st, Top(st), Leaf(tb));
  }

  /** `(!x.A && x.B) || x.C`, with A, B and C bool properties of the entity. */
  function NegatedInsideOr(a: string, b: string, c: string): Expr {
    Binary(OrElse, NegatedThenPlain(a, b), Member(Parameter, c, BoolType))
  }

  /**
   * As written, the Pop that ends the And's scope removes the leaked negating insertion
   * point instead of the And's own, so the Or's second operand is appended to the And:
   * `(!x.A && x.B) || x.C` compiles to Or(And(Not(A = true), Not(B = true), C = true)).
   */
  lemma SiblingMisroutedAsWritten(ctx: Context, a: string, b: string, c: string)
    ensures var ta := Term(ctx.fieldName(Member(Parameter, a, BoolType)), BoolValue(true));
      var tb := Term(ctx.fieldName(Member(Parameter, b, BoolType)), BoolValue(true));
      var tc := Term(ctx.fieldName(Member(Parameter, c, BoolType)), BoolValue(true));
      Parse(ctx, AsWritten, NegatedInsideOr(a, b, c))
        == Success(OrFilter([AndFilter([NotFilter(ta), NotFilter(tb), tc])]))
  {
    var ta := Term(ctx.fieldName(Member(Parameter, a, BoolType)), BoolValue(true));
    var tb := Term(ctx.fieldName(Member(Parameter, b, BoolType)), BoolValue(true));
    var tc := Term(ctx.fieldName(Member(Parameter, c, BoolType)), BoolValue(true));
    var e := NegatedInsideOr(a, b, c);
    FirstNodeState(OrNode);
    OrOperandsAsWritten(ctx, a, b, c);
    var nodes := [Node(OrNode, [Ref(1)]), Node(AndNode, [NotOf(Leaf(ta)), NotOf(Leaf(tb)), Leaf(tc)])];
    var st5 := State([Root, AppendTo(0), AppendTo(1)], nodes, Ref(0));
    ConnectiveVisited(ctx, AsWritten, e, Initial(), st5);
    assert st5.stack[..|st5.stack| - 1] == [Root, AppendTo(0)];
    MisroutedResolves(nodes, ta, tb, tc);
  }

  /** As written, both operands of the Or: the And's filters, then `x.C` into the And as well. */
  lemma OrOperandsAsWritten(ctx: Context, a: string, b: string, c: string)
    ensures var ta := Term(ctx.fieldName(Member(Parameter, a, BoolType)), BoolValue(true));
      var tb := Term(ctx.fieldName(Member(Parameter, b, BoolType)), BoolValue(true));
      var tc := Term(ctx.fieldName(Member(Parameter, c, BoolType)), BoolValue(true));
      var inOr := State([Root, AppendTo(0)], [Node(OrNode, [])], Ref(0));
      && Valid(inOr)
      && TraverseBoth(ctx, AsWritten, NegatedInsideOr(a, b, c), inOr)
           == Success(State([Root, AppendTo(0), AppendTo(1)],
                            [Node(OrNode, [Ref(1)]), Node(AndNode, [NotOf(Leaf(ta)), NotOf(Leaf(tb)), Leaf(tc)])], Ref(0)))
  {
    var ta := Term(ctx.fieldName(Member(Parameter, a, BoolType)), BoolValue(true));
    var tb := Term(ctx.fieldName(Member(Parameter, b, BoolType)), BoolValue(true));
    var tc := Term(ctx.fieldName(Member(Parameter, c, BoolType)), BoolValue(true));
    var inOr := State([Root, AppendTo(0)], [Node(OrNode, [])], Ref(0));
    assert Valid(inOr) by {
      assert TargetIn(inOr.stack[1], |inOr.nodes|);
    }
    InnerAndAsWritten(ctx, a, b);
    var afterAnd := State([Root, AppendTo(0), AppendTo(1)],
                          [Node(OrNode, [Ref(1)]), Node(AndNode, [NotOf(Leaf(ta)), NotOf(Leaf(tb))])], Ref(0));
    BoolMemberDelivered(ctx, AsWritten, c, afterAnd);
    assert Base(Top(afterAnd)) == AppendTo(1);
    assert Wrapped(AppendTo(1), Leaf(tc)) == Leaf(tc);
    assert [NotOf(Leaf(ta)), NotOf(Leaf(tb))] + [Leaf(tc)] == [NotOf(Leaf(ta)), NotOf(Leaf(tb)), Leaf(tc)];
    assert afterAnd.nodes[1 := Node(AndNode, [NotOf(Leaf(ta)), NotOf(Leaf(tb)), Leaf(tc)])]
      == [Node(OrNode, [Ref(1)]), Node(AndNode, [NotOf(Leaf(ta)), NotOf(Leaf(tb)), Leaf(tc)])];
  }

  /** The arena the misrouted visit leaves behind means Or(And(Not(A), Not(B), C)). */
  lemma MisroutedResolves(nodes: seq<Node>, ta: Filter, tb: Filter, tc: Filter)
    requires nodes == [Node(OrNode, [Ref(1)]), Node(AndNode, [NotOf(Leaf(ta)), NotOf(Leaf(tb)), Leaf(tc)])]
    ensures WellFormed(nodes) && SlotIn(Ref(0), 0, |nodes|)
    ensures Resolve(nodes, Ref(0)) == OrFilter([AndFilter([NotFilter(ta), NotFilter(tb), tc])])
  {
    forall i, k | 0 <= i < |nodes| && 0 <= k < |nodes[i].children|
      ensures SlotIn(nodes[i].children[k], i + 1, |nodes|)
    {
      if i == 1 {
        assert k < 3;
      }
    }
    var kids := nodes[1].children;
    assert Resolve(nodes, kids[0]) == NotFilter(ta);
    assert Resolve(nodes, kids[1]) == NotFilter(tb);
    assert Resolve(nodes, kids[2]) == tc;
    assert seq(|kids|, k requires 0 <= k < |kids| => Resolve(nodes, kids[k])) == [NotFilter(ta), NotFilter(tb), tc];
    var top := nodes[0].children;
    assert Resolve(nodes, top[0]) == AndFilter([NotFilter(ta), NotFilter(tb), tc]);
    assert seq(|top|, k requires 0 <= k < |top| => Resolve(nodes, top[k])) == [AndFilter([NotFilter(ta), NotFilter(tb), tc])];
  }

  /**
   * As written, the And inside the Or: node 1 is added to the Or, both of its operands
   * arrive negated, and the Pop leaves node 1's insertion point on top of the stack.
   */
  lemma InnerAndAsWritten(ctx: Context, a: string, b: string)
    ensures var ta := Term(ctx.fieldName(Member(Parameter, a, BoolType)), BoolValue(true));
      var tb := Term(ctx.fieldName(Member(Parameter, b, BoolType)), BoolValue(true));
      Traverse(ctx, AsWritten, NegatedThenPlain(a, b), State([Root, AppendTo(0)], [Node(OrNode, [])], Ref(0)))
        == Success(State([Root, AppendTo(0), AppendTo(1)],
                         [Node(OrNode, [Ref(1)]), Node(AndNode, [NotOf(Leaf(ta)), NotOf(Leaf(tb))])], Ref(0)))
  {
    var ta := Term(ctx.fieldName(Member(Parameter, a, BoolType)), BoolValue(true));
    var tb := Term(ctx.fieldName(Member(Parameter, b, BoolType)), BoolValue(true));
    var e := NegatedThenPlain(a, b);
    var st := State([Root, AppendTo(0)], [Node(OrNode, [])], Ref(0));
    AndAddedToOr(st);
    AndOperandsAsWritten(ctx, a, b);
    var st5 := State([Root, AppendTo(0), AppendTo(1), WrapNot(AppendTo(1))],
                     [Node(OrNode, [Ref(1)]), Node(AndNode, [NotOf(Leaf(ta)), NotOf(Leaf(tb))])], Ref(0));
    ConnectiveVisited(ctx, AsWritten, e, st, st5);
    assert st5.stack[..|st5.stack| - 1] == [Root, AppendTo(0), AppendTo(1)];
  }

  /** Node 1, the And, is added and referenced from the Or's list. */
  lemma AndAddedToOr(st: State)
    requires st == State([Root, AppendTo(0)], [Node(OrNode, [])], Ref(0))
    ensures Valid(st)
    ensures |st.stack| > 0
    ensures OperandState(st, AndNode)
      == State([Root, AppendTo(0), AppendTo(1)], [Node(OrNode, [Ref(1)]), Node(AndNode, [])], Ref(0))
  {
    assert Valid(st) by {
      assert TargetIn(st.stack[1], |st.nodes|);
    }
    var st1 := NewNode(st, AndNode);
    assert st1.nodes == [Node(OrNode, []), Node(AndNode, [])];
    assert Top(st1) == AppendTo(0);
    DeliverEffect(st1, AppendTo(0), Ref(1));
    assert [] + [Ref(1)] == [Ref(1)];
    assert st1.nodes[0 := Node(OrNode, [Ref(1)])] == [Node(OrNode, [Ref(1)]), Node(AndNode, [])];
    assert [Root, AppendTo(0)] + [AppendTo(1)] == [Root, AppendTo(0), AppendTo(1)];
  }

  /** As written, the operands of the And inside the Or both arrive negated at node 1. */
  lemma AndOperandsAsWritten(ctx: Context, a: string, b: string)
    ensures var ta := Term(ctx.fieldName(Member(Parameter, a, BoolType)), BoolValue(true));
      var tb := Term(ctx.fieldName(Member(Parameter, b, BoolType)), BoolValue(true));
      var st3 := State([Root, AppendTo(0), AppendTo(1)], [Node(OrNode, [Ref(1)]), Node(AndNode, [])], Ref(0));
      && Valid(st3)
      && TraverseBoth(ctx, AsWritten, NegatedThenPlain(a, b), st3)
           == Success(State([Root, AppendTo(0), AppendTo(1), WrapNot(AppendTo(1))],
                            [Node(OrNode, [Ref(1)]), Node(AndNode, [NotOf(Leaf(ta)), NotOf(Leaf(tb))])], Ref(0)))
  {
    var ta := Term(ctx.fieldName(Member(Parameter, a, BoolType)), BoolValue(true));
    var tb := Term(ctx.fieldName(Member(Parameter, b, BoolType)), BoolValue(true));
    var st3 := State([Root, AppendTo(0), AppendTo(1)], [Node(OrNode, [Ref(1)]), Node(AndNode, [])], Ref(0));
    assert Valid(st3) by {
      assert TargetIn(st3.stack[1], |st3.nodes|) && TargetIn(st3.stack[2], |st3.nodes|);
      assert SlotIn(st3.nodes[0].children[0], 1, |st3.nodes|);
    }
    var st4 := State([Root, AppendTo(0), AppendTo(1), WrapNot(AppendTo(1))],
                     [Node(OrNode, [Ref(1)]), Node(AndNode, [NotOf(Leaf(ta))])], Ref(0));
    assert st3.stack + [WrapNot(AppendTo(1))] == st4.stack;
    assert [] + [NotOf(Leaf(ta))] == [NotOf(Leaf(ta))];
    assert st3.nodes[1 := Node(AndNode, [NotOf(Leaf(ta))])] == st4.nodes;
    NegatedThenDelivered(ctx, a, st3, st4);
    var st5 := State(st4.stack, [Node(OrNode, [Ref(1)]), Node(AndNode, [NotOf(Leaf(ta)), NotOf(Leaf(tb))])], Ref(0));
    assert [NotOf(Leaf(ta))] + [NotOf(Leaf(tb))] == [NotOf(Leaf(ta)), NotOf(Leaf(tb))];
    assert st4.nodes[1 := Node(AndNode, [NotOf(Leaf(ta)), NotOf(Leaf(tb))])] == st5.nodes;
    SiblingDelivered(ctx, b, st4, st5);
  }

  /** Corrected: `(!x.A && x.B) || x.C` compiles to Or(And(Not(A = true), B = true), C = true). */
  lemma SiblingRoutedCorrected(ctx: Context, a: string, b: string, c: string)
    ensures var ta := Term(ctx.fieldName(Member(Parameter, a, BoolType)), BoolValue(true));
      var tb := Term(ctx.fieldName(Member(Parameter, b, BoolType)), BoolValue(true));
      var tc := Term(ctx.fieldName(Member(Parameter, c, BoolType)), BoolValue(true));
      Parse(ctx, Corrected, NegatedInsideOr(a, b, c))
        == Success(OrFilter([AndFilter([NotFilter(ta), tb]), tc]))
  {
    var fa := Member(Parameter, a, BoolType);
    var fb := Member(Parameter, b, BoolType);
    var fc := Member(Parameter, c, BoolType);
    var ta := Term(ctx.fieldName(fa), BoolValue(true));
    var tb := Term(ctx.fieldName(fb), BoolValue(true));
    var tc := Term(ctx.fieldName(fc), BoolValue(true));
    assert Emits(ctx, Corrected, Unary(Not, fa)) == Success(NegateAll([ta]));
    assert NegateAll([ta]) == [NotFilter(ta)];
    assert Emits(ctx, Corrected, fb) == Success([tb]);
    assert [NotFilter(ta)] + [tb] == [NotFilter(ta), tb];
    assert EmitsBoth(ctx, Corrected, NegatedThenPlain(a, b)) == Success([NotFilter(ta), tb]);
    assert Emits(ctx, Corrected, NegatedThenPlain(a, b)) == Success([AndFilter([NotFilter(ta), tb])]);
    assert Emits(ctx, Corrected, fc) == Success([tc]);
    assert [AndFilter([NotFilter(ta), tb])] + [tc] == [AndFilter([NotFilter(ta), tb]), tc];
    assert EmitsBoth(ctx, Corrected, NegatedInsideOr(a, b, c)) == Success([AndFilter([NotFilter(ta), tb]), tc]);
    ParseMatchesCompile(ctx, Corrected, NegatedInsideOr(a, b, c));
  }

  /** Corrected: the negation's scope ends with its operand, so `!x.A && x.B` compiles to And(Not(A = true), B = true). */
  lemma NegationScopedCorrected(ctx: Context, a: string, b: string)
    ensures var ta := Term(ctx.fieldName(Member(Parameter, a, BoolType)), BoolValue(true));
      var tb := Term(ctx.fieldName(Member(Parameter, b, BoolType)), BoolValue(true));
      Parse(ctx, Corrected, NegatedThenPlain(a, b)) == Success(AndFilter([NotFilter(ta), tb]))
  {
    var fa := Member(Parameter, a, BoolType);
    var fb := Member(Parameter, b, BoolType);
    var ta := Term(ctx.fieldName(fa), BoolValue(true));
    var tb := Term(ctx.fieldName(fb), BoolValue(true));
    assert Emits(ctx, Corrected, Unary(Not, fa)) == Success(NegateAll([ta]));
    assert NegateAll([ta]) == [NotFilter(ta)];
    assert Emits(ctx, Corrected, fb) == Success([tb]);
    assert [NotFilter(ta)] + [tb] == [NotFilter(ta), tb];
    assert EmitsBoth(ctx, Corrected, NegatedThenPlain(a, b)) == Success([NotFilter(ta), tb]);
    ParseMatchesCompile(ctx, Corrected, NegatedThenPlain(a, b));
  }

  /**
   * As written, a range comparison with the field on the right is built as if the field
   * were on the left: `42 > x.Id` becomes the range (42, Int32.MaxValue], which admits
   * Id = 43 although 42 > 43 does not hold.
   */
  lemma RangeNotMirroredAsWritten(ctx: Context, owner: Expr, name: string)
    requires TypeOf(owner) == EntityType
    ensures var f := Member(owner, name, OtherType);
      && ComparisonOutcome(ctx, AsWritten, GreaterThan, Constant(Int(42), OtherType), f)
           == Success(Some(Range(ctx.fieldName(f), IntBounds(42, Int32Max), Some(false), None)))
      && AdmitsInt(IntBounds(42, Int32Max), Some(false), None, 43)
      && !IntComparisonHolds(GreaterThan, 42, 43)
  {
  }

  /**
   * Corrected: with the field on the right, `v op x.F` compiles to a range that admits
   * exactly the integers x with `v op x`.
   */
  lemma RangeMirroredCorrected(ctx: Context, owner: Expr, name: string, op: BinaryOp, v: Int32, x: Int32)
    requires TypeOf(owner) == EntityType && NodeTypeIsSizeComparison(op)
    ensures var f := Member(owner, name, OtherType);
      var r := ComparisonOutcome(ctx, Corrected, op, Constant(Int(v), OtherType), f);
      && r.Success? && r.value.Some? && r.value.value.Range? && r.value.value.bounds.IntBounds?
      && (AdmitsInt(r.value.value.bounds, r.value.value.includeLower, r.value.value.includeUpper, x)
          <==> IntComparisonHolds(op, v, x))
  {
    var f := Member(owner, name, OtherType);
    CorrectedIntRange(ctx, op, Operands(ctx.fieldName(f), Constant(Int(v), OtherType), false), v, x);
  }

  /**
   * As written, a static member or static method call on the left of a comparison throws
   * a NullReferenceException (its receiver expression is null and is dereferenced), even
   * when the right side is a field: `DateTime.Now < x.Date` cannot be compiled.
   */
  lemma StaticOperandThrowsAsWritten(ctx: Context, op: BinaryOp, l: Expr, r: Expr)
    requires IsComparison(op) && (l.StaticMember? || l.StaticCall?)
    ensures ComparisonOutcome(ctx, AsWritten, op, l, r) == Failure(NullReference)
  {
  }

  /**
   * Corrected: a static operand is a value like any other closed expression, so
   * `DateTime.Now < x.Date` compiles to the dates after now.
   */
  lemma StaticOperandIsValueCorrected(ctx: Context, op: BinaryOp, s: string, t: StaticType, owner: Expr, name: string, now: Ticks, x: Ticks)
    requires NodeTypeIsSizeComparison(op) && TypeOf(owner) == EntityType
    requires ctx.evaluate(StaticMember(s, t)) == DateTime(now)
    ensures var f := Member(owner, name, OtherType);
      var r := ComparisonOutcome(ctx, Corrected, op, StaticMember(s, t), f);
      && r.Success? && r.value.Some? && r.value.value.Range? && r.value.value.bounds.DateBounds?
      && (AdmitsDate(r.value.value.bounds, r.value.value.includeLower, r.value.value.includeUpper, x)
          <==> DateComparisonHolds(op, now, x))
  {
    var f := Member(owner, name, OtherType);
    CorrectedDateRange(ctx, op, Operands(ctx.fieldName(f), StaticMember(s, t), false), now, x);
  }
}
