/**
 * The traversal WhereVisitor performs, as a function on an explicit state: the stack of
 * insertion points (`addStack`), the And/Or filters built so far, and the root result
 * (`filterToReturn`). And/Or filters are shared mutable objects in the source: one is
 * inserted into its parent before its children are added to it. Here they live in an
 * arena of nodes and are referred to by index, so that children appended later are
 * still seen through the parent.
 */
module Traversal {
  import opened Outcomes
  import opened Values
  import opened Expressions
  import opened Filters
  import opened Translation
  import opened Semantics

  /**
   * An entry of `addStack`: where AddFilter sends a filter. `Root` sets the result,
   * `AppendTo(n)` appends to the children of node `n`, and `WrapNot(t)` is the closure
   * VisitUnary pushes for a negation, which wraps the filter in a NotFilter and sends it on to `t`.
   */
  datatype Target = Root | AppendTo(node: nat) | WrapNot(under: Target)

  /** A filter inserted somewhere: a finished filter, the negation of a slot, or a reference to an And/Or node. */
  datatype Slot = Leaf(filter: Filter) | NotOf(inner: Slot) | Ref(node: nat)

  datatype Connective = AndNode | OrNode

  /** An AndFilter or OrFilter under construction. */
  datatype Node = Node(connective: Connective, children: seq<Slot>)

  datatype State = State(stack: seq<Target>, nodes: seq<Node>, result: Slot)

  /** The node a slot refers to, if any. */
  function RefOf(s: Slot): Option<nat> {
    match s
    case Leaf(_) => None
    case NotOf(inner) => RefOf(inner)
    case Ref(n) => Some(n)
  }

  /** A slot refers to no node, or to a node in [lo, hi). */
  predicate SlotIn(s: Slot, lo: nat, hi: nat) {
    RefOf(s).None? || lo <= RefOf(s).value < hi
  }

  /** The node a slot refers to, or `n` when it refers to none. */
  function Floor(s: Slot, n: nat): nat {
    if RefOf(s).Some? then RefOf(s).value else n
  }

  /** Every node's children refer only to nodes created after it, so the nodes form a forest. */
  predicate WellFormed(nodes: seq<Node>) {
    forall i, k :: 0 <= i < |nodes| && 0 <= k < |nodes[i].children| ==> SlotIn(nodes[i].children[k], i + 1, |nodes|)
  }

  /** The node a target finally delivers to, past the negation wrappers. */
  function Base(t: Target): Target {
    match t
    case WrapNot(under) => Base(under)
    case _ => t
  }

  predicate TargetIn(t: Target, n: nat) {
    Base(t).AppendTo? ==> Base(t).node < n
  }

  /** The least node a slot delivered to `t` may refer to. */
  function Lo(t: Target): nat {
    if Base(t).AppendTo? then Base(t).node + 1 else 0
  }

  ghost predicate Valid(st: State) {
    && WellFormed(st.nodes)
    && SlotIn(st.result, 0, |st.nodes|)
    && forall k :: 0 <= k < |st.stack| ==> TargetIn(st.stack[k], |st.nodes|)
  }

  /** The filter a slot stands for once the traversal is over. */
  function Resolve(nodes: seq<Node>, s: Slot): Filter
    requires WellFormed(nodes) && SlotIn(s, 0, |nodes|)
    decreases |nodes| - Floor(s, |nodes|), s
  {
    match s
    case Leaf(f) => f
    case NotOf(inner) => NotFilter(Resolve(nodes, inner))
    case Ref(n) =>
      var kids := nodes[n].children;
      var fs := seq(|kids|, k requires 0 <= k < |kids| => Resolve(nodes, kids[k]));
      if nodes[n].connective == AndNode then AndFilter(fs) else OrFilter(fs)
  }

  /** The filter `f` becomes on its way through the negation wrappers of `t`. */
  function Negate(t: Target, f: Filter): Filter {
    match t
    case WrapNot(under) => Negate(under, NotFilter(f))
    case _ => f
  }

  function Top(st: State): Target
    requires |st.stack| > 0
  {
    st.stack[|st.stack| - 1]
  }

  /** Send a slot to a target: the effect of invoking one `addStack` entry. */
  function Deliver(st: State, t: Target, s: Slot): (r: State)
    requires Valid(st) && TargetIn(t, |st.nodes|) && SlotIn(s, Lo(t), |st.nodes|)
    ensures Valid(r) && r.stack == st.stack && |r.nodes| == |st.nodes|
  {
    match t
    case Root => st.(result := s)
    case AppendTo(n) =>
      var r := st.(nodes := st.nodes[n := Node(st.nodes[n].connective, st.nodes[n].children + [s])]);
      assert forall i, k :: 0 <= i < |r.nodes| && 0 <= k < |r.nodes[i].children| ==> SlotIn(r.nodes[i].children[k], i + 1, |r.nodes|) by {
        forall i, k | 0 <= i < |r.nodes| && 0 <= k < |r.nodes[i].children|
          ensures SlotIn(r.nodes[i].children[k], i + 1, |r.nodes|)
        {
          if i == n && k == |st.nodes[n].children| {
          } else {
            assert r.nodes[i].children[k] == st.nodes[i].children[k];
          }
        }
      }
      r
    case WrapNot(under) => Deliver(st, under, NotOf(s))
  }

  /** AddFilter: deliver to the target on top of `addStack`. */
  function AddFilter(st: State, s: Slot): State
    requires Valid(st) && |st.stack| > 0 && SlotIn(s, Lo(Top(st)), |st.nodes|)
  {
    Deliver(st, Top(st), s)
  }

  /** The state a ParseFilter call starts from: the root target, no nodes, a null result. */
  function Initial(): (st: State)
    ensures Valid(st) && st.stack == [Root]
  {
    State([Root], [], Leaf(NoFilter))
  }

  /** Add an empty And/Or node; it gets index |st.nodes|. */
  function NewNode(st: State, c: Connective): (r: State)
    requires Valid(st)
    ensures Valid(r) && r.stack == st.stack && r.result == st.result
    ensures r.nodes == st.nodes + [Node(c, [])]
  {
    var r := st.(nodes := st.nodes + [Node(c, [])]);
    assert forall i, k :: 0 <= i < |st.nodes| && 0 <= k < |r.nodes[i].children| ==> r.nodes[i].children[k] == st.nodes[i].children[k];
    r
  }

  function ConnectiveOf(op: BinaryOp): Connective {
    if op.And? || op.AndAlso? then AndNode else OrNode
  }

  /**
   * Visit: dispatch on the node kind and run the matching Visit* method of WhereVisitor
   * on the state, or the exception it throws.
   */
  function Traverse(ctx: Context, rev: Revision, e: Expr, st: State): (r: Result<State, Error>)
    requires Valid(st) && |st.stack| > 0
    ensures r.Success? ==> Valid(r.value) && st.stack <= r.value.stack && |st.nodes| <= |r.value.nodes|
    decreases e, 3
  {
    match e
    case Parameter | InnerParameter(_, _) => Success(st)
    case Constant(_, _) => Success(st)
    case Member(owner, _, t) =>
      if t == BoolType then Success(AddFilter(st, Leaf(BoolMemberFilter(ctx, e))))
      else Traverse(ctx, rev, owner, st)
    case StaticMember(_, t) =>
      if t == BoolType then Success(AddFilter(st, Leaf(BoolMemberFilter(ctx, e))))
      else Success(st)
    case Unary(op, operand) =>
      if op.Not? then
        var pushed := st.(stack := st.stack + [WrapNot(Top(st))]);
        var after :- Traverse(ctx, rev, operand, pushed);
        Success(if rev == Corrected then after.(stack := after.stack[..|after.stack| - 1]) else after)
      else
        Traverse(ctx, rev, operand, st)
    case Binary(op, l, r) =>
      if IsConnective(op) then
        TraverseConnective(ctx, rev, e, st)
      else if IsComparison(op) then
        var outcome :- ComparisonOutcome(ctx, rev, op, l, r);
        if outcome.Some? then Success(AddFilter(st, Leaf(outcome.value)))
        else TraverseBoth(ctx, rev, e, st)
      else
        TraverseBoth(ctx, rev, e, st)
    case TypeBinary(test, tested, s) =>
      var st1 := if test == TypeIs then AddFilter(st, Leaf(TypeHierarchyFilter(ctx, tested, s))) else st;
      Traverse(ctx, rev, tested, st1)
    case StartsWith(receiver, prefix, overload) =>
      var f :- StartsWithFilter(ctx, rev, receiver, prefix, overload);
      var st1 := AddFilter(st, Leaf(f));
      var st2 :- Traverse(ctx, rev, receiver, st1);
      var st3 :- Traverse(ctx, rev, prefix, st2);
      TraverseOverload(ctx, rev, overload, st3)
    case Call(target, _, args, _) =>
      var st1 :- Traverse(ctx, rev, target, st);
      TraverseAll(ctx, rev, args, st1)
    case StaticCall(args, _) => TraverseAll(ctx, rev, args, st)
    case Lambda(body, _) => Traverse(ctx, rev, body, st)
    case Other(children, _) => TraverseAll(ctx, rev, children, st)
  }

  /**
   * An And/Or node: insert a new AndFilter/OrFilter where the node stands, then visit the
   * operands with the new filter as their insertion point.
   */
  function TraverseConnective(ctx: Context, rev: Revision, e: Expr, st: State): (r: Result<State, Error>)
    requires e.Binary? && IsConnective(e.op)
    requires Valid(st) && |st.stack| > 0
    ensures r.Success? ==> Valid(r.value) && st.stack <= r.value.stack && |st.nodes| <= |r.value.nodes|
    decreases e, 2
  {
    var n := |st.nodes|;
    var st1 := NewNode(st, ConnectiveOf(e.op));
    var st2 := AddFilter(st1, Ref(n));
    TraverseInScope(ctx, rev, e, AppendTo(n), st2)
  }

  /** VisitWithFilterInScope: push an insertion point, visit both operands, pop it again. */
  function TraverseInScope(ctx: Context, rev: Revision, e: Expr, t: Target, st: State): (r: Result<State, Error>)
    requires e.Binary?
    requires Valid(st) && |st.stack| > 0 && TargetIn(t, |st.nodes|)
    ensures r.Success? ==> Valid(r.value) && st.stack <= r.value.stack && |st.nodes| <= |r.value.nodes|
    decreases e, 1
  {
    var inner :- TraverseBoth(ctx, rev, e, st.(stack := st.stack + [t]));
    Success(inner.(stack := inner.stack[..|inner.stack| - 1]))
  }

  /** base.VisitBinary: visit both operands in order. */
  function TraverseBoth(ctx: Context, rev: Revision, e: Expr, st: State): (r: Result<State, Error>)
    requires e.Binary?
    requires Valid(st) && |st.stack| > 0
    ensures r.Success? ==> Valid(r.value) && st.stack <= r.value.stack && |st.nodes| <= |r.value.nodes|
    decreases e, 0
  {
    var st1 :- Traverse(ctx, rev, e.left, st);
    Traverse(ctx, rev, e.right, st1)
  }

  /** The extra arguments of a StartsWith overload, visited in order. */
  function TraverseOverload(ctx: Context, rev: Revision, overload: StartsWithOverload, st: State): (r: Result<State, Error>)
    requires Valid(st) && |st.stack| > 0
    ensures r.Success? ==> Valid(r.value) && st.stack <= r.value.stack && |st.nodes| <= |r.value.nodes|
    decreases overload, 0
  {
    match overload
    case Plain => Success(st)
    case WithComparison(c) => Traverse(ctx, rev, c, st)
    case WithIgnoreCase(ignoreCase, culture) =>
      var st1 :- Traverse(ctx, rev, ignoreCase, st);
      Traverse(ctx, rev, culture, st1)
  }

  /** A sequence of children, visited left to right. */
  function TraverseAll(ctx: Context, rev: Revision, es: seq<Expr>, st: State): (r: Result<State, Error>)
    requires Valid(st) && |st.stack| > 0
    ensures r.Success? ==> Valid(r.value) && st.stack <= r.value.stack && |st.nodes| <= |r.value.nodes|
    decreases es, 0
  {
    if es == [] then Success(st)
    else
      var st1 :- TraverseAll(ctx, rev, es[..|es| - 1], st);
      Traverse(ctx, rev, es[|es| - 1], st1)
  }

  /**
   * Stack discipline: a visit that does not throw leaves the stack as it found it under
   * the correction; as written, it leaves one extra entry for every `!` node it reached.
   */
  lemma {:induction false} TraverseHeight(ctx: Context, rev: Revision, e: Expr, st: State)
    requires Valid(st) && |st.stack| > 0
    ensures var r := Traverse(ctx, rev, e, st);
      r.Success? ==> |r.value.stack| == |st.stack| + (if rev == Corrected then 0 else NotsReached(ctx, rev, e))
    decreases e, 2
  {
    match e
    case Parameter | InnerParameter(_, _) =>
    case Constant(_, _) =>
    case Member(owner, _, t) =>
      if t != BoolType {
        TraverseHeight(ctx, rev, owner, st);
      }
    case StaticMember(_, _) =>
    case Unary(op, operand) =>
      if op.Not? {
        TraverseHeight(ctx, rev, operand, st.(stack := st.stack + [WrapNot(Top(st))]));
      } else {
        TraverseHeight(ctx, rev, operand, st);
      }
    case Binary(op, l, r) =>
      if IsConnective(op) {
        ConnectiveHeight(ctx, rev, e, st);
      } else if IsComparison(op) {
        var outcome := ComparisonOutcome(ctx, rev, op, l, r);
        if outcome.Success? && outcome.value.None? {
          BothHeight(ctx, rev, e, st);
        }
      } else {
        BothHeight(ctx, rev, e, st);
      }
    case TypeBinary(test, tested, s) =>
      var st1 := if test == TypeIs then AddFilter(st, Leaf(TypeHierarchyFilter(ctx, tested, s))) else st;
      TraverseHeight(ctx, rev, tested, st1);
    case StartsWith(_, _, _) => StartsWithHeight(ctx, rev, e, st);
    case Call(_, _, _, _) => CallHeight(ctx, rev, e, st);
    case StaticCall(args, _) => AllHeight(ctx, rev, args, st);
    case Lambda(body, _) => TraverseHeight(ctx, rev, body, st);
    case Other(children, _) => AllHeight(ctx, rev, children, st);
  }

  lemma {:induction false} StartsWithHeight(ctx: Context, rev: Revision, e: Expr, st: State)
    requires e.StartsWith?
    requires Valid(st) && |st.stack| > 0
    ensures var r := Traverse(ctx, rev, e, st);
      r.Success? ==> |r.value.stack| == |st.stack| + (if rev == Corrected then 0 else NotsReached(ctx, rev, e))
    decreases e, 1
  {
    var f := StartsWithFilter(ctx, rev, e.receiver, e.prefix, e.overload);
    if f.Success? {
      var st1 := AddFilter(st, Leaf(f.value));
      TraverseHeight(ctx, rev, e.receiver, st1);
      var st2 := Traverse(ctx, rev, e.receiver, st1);
      if st2.Success? {
        TraverseHeight(ctx, rev, e.prefix, st2.value);
        var st3 := Traverse(ctx, rev, e.prefix, st2.value);
        if st3.Success? {
          OverloadHeight(ctx, rev, e.overload, st3.value);
        }
      }
    }
  }

  lemma {:induction false} CallHeight(ctx: Context, rev: Revision, e: Expr, st: State)
    requires e.Call?
    requires Valid(st) && |st.stack| > 0
    ensures var r := Traverse(ctx, rev, e, st);
      r.Success? ==> |r.value.stack| == |st.stack| + (if rev == Corrected then 0 else NotsReached(ctx, rev, e))
    decreases e, 1
  {
    TraverseHeight(ctx, rev, e.target, st);
    var st1 := Traverse(ctx, rev, e.target, st);
    if st1.Success? {
      AllHeight(ctx, rev, e.arguments, st1.value);
    }
  }

  lemma {:induction false} ConnectiveHeight(ctx: Context, rev: Revision, e: Expr, st: State)
    requires e.Binary? && IsConnective(e.op)
    requires Valid(st) && |st.stack| > 0
    ensures var r := TraverseConnective(ctx, rev, e, st);
      r.Success? ==> |r.value.stack| == |st.stack| + (if rev == Corrected then 0 else NotsReached(ctx, rev, e.left) + NotsReached(ctx, rev, e.right))
    decreases e, 1
  {
    var n := |st.nodes|;
    var st2 := AddFilter(NewNode(st, ConnectiveOf(e.op)), Ref(n));
    BothHeight(ctx, rev, e, st2.(stack := st2.stack + [AppendTo(n)]));
  }

  lemma {:induction false} BothHeight(ctx: Context, rev: Revision, e: Expr, st: State)
    requires e.Binary?
    requires Valid(st) && |st.stack| > 0
    ensures var r := TraverseBoth(ctx, rev, e, st);
      r.Success? ==> |r.value.stack| == |st.stack| + (if rev == Corrected then 0 else NotsReached(ctx, rev, e.left) + NotsReached(ctx, rev, e.right))
    decreases e, 0
  {
    TraverseHeight(ctx, rev, e.left, st);
    var st1 := Traverse(ctx, rev, e.left, st);
    if st1.Success? {
      TraverseHeight(ctx, rev, e.right, st1.value);
    }
  }

  lemma {:induction false} OverloadHeight(ctx: Context, rev: Revision, overload: StartsWithOverload, st: State)
    requires Valid(st) && |st.stack| > 0
    ensures var r := TraverseOverload(ctx, rev, overload, st);
      r.Success? ==> |r.value.stack| == |st.stack| + (if rev == Corrected then 0 else OverloadNotsReached(ctx, rev, overload))
    decreases overload, 0
  {
    match overload
    case Plain =>
    case WithComparison(c) => TraverseHeight(ctx, rev, c, st);
    case WithIgnoreCase(ignoreCase, culture) =>
      TraverseHeight(ctx, rev, ignoreCase, st);
      var st1 := Traverse(ctx, rev, ignoreCase, st);
      if st1.Success? {
        TraverseHeight(ctx, rev, culture, st1.value);
      }
  }

  lemma {:induction false} AllHeight(ctx: Context, rev: Revision, es: seq<Expr>, st: State)
    requires Valid(st) && |st.stack| > 0
    ensures var r := TraverseAll(ctx, rev, es, st);
      r.Success? ==> |r.value.stack| == |st.stack| + (if rev == Corrected then 0 else AllNotsReached(ctx, rev, es))
    decreases es, 0
  {
    if es != [] {
      AllHeight(ctx, rev, es[..|es| - 1], st);
      var st1 := TraverseAll(ctx, rev, es[..|es| - 1], st);
      if st1.Success? {
        TraverseHeight(ctx, rev, es[|es| - 1], st1.value);
      }
    }
  }

  /** Once a prefix of the children throws, visiting all of them throws the same exception. */
  lemma {:induction false} TraverseAllPrefixFails(ctx: Context, rev: Revision, es: seq<Expr>, i: nat, st: State)
    requires Valid(st) && |st.stack| > 0 && i <= |es|
    requires TraverseAll(ctx, rev, es[..i], st).Failure?
    ensures TraverseAll(ctx, rev, es, st) == TraverseAll(ctx, rev, es[..i], st)
  {
    if i == |es| {
      assert es[..i] == es;
    } else {
      var init := es[..|es| - 1];
      assert init[..i] == es[..i];
      TraverseAllPrefixFails(ctx, rev, init, i, st);
    }
  }

  /** ParseFilter: traverse from the initial state and return the root filter. */
  function Parse(ctx: Context, rev: Revision, e: Expr): Result<Filter, Error> {
    var st :- Traverse(ctx, rev, e, Initial());
    Success(Resolve(st.nodes, st.result))
  }
}

/**
 * The meaning of a predicate, compositionally: the sequence of filters each node sends
 * to its insertion point, in order, or the exception compiling it throws.
 */
module Semantics {
  import opened Outcomes
  import opened Values
  import opened Expressions
  import opened Filters
  import opened Translation

  /** Every filter of `fs` negated. */
  function NegateAll(fs: seq<Filter>): (r: seq<Filter>)
    ensures |r| == |fs| && forall k :: 0 <= k < |fs| ==> r[k] == NotFilter(fs[k])
  {
    seq(|fs|, k requires 0 <= k < |fs| => NotFilter(fs[k]))
  }

  /** The filters `e` emits, in the order they are added. */
  function Emits(ctx: Context, rev: Revision, e: Expr): Result<seq<Filter>, Error>
    decreases e, 1
  {
    match e
    case Parameter | InnerParameter(_, _) => Success([])
    case Constant(_, _) => Success([])
    case Member(owner, _, t) =>
      if t == BoolType then Success([BoolMemberFilter(ctx, e)]) else Emits(ctx, rev, owner)
    case StaticMember(_, t) =>
      if t == BoolType then Success([BoolMemberFilter(ctx, e)]) else Success([])
    case Unary(op, operand) =>
      if op.Not? then
        var fs :- Emits(ctx, rev, operand);
        Success(NegateAll(fs))
      else
        Emits(ctx, rev, operand)
    case Binary(op, l, r) =>
      if IsConnective(op) then
        var fs :- EmitsBoth(ctx, rev, e);
        Success([if op.And? || op.AndAlso? then AndFilter(fs) else OrFilter(fs)])
      else if IsComparison(op) then
        var outcome :- ComparisonOutcome(ctx, rev, op, l, r);
        if outcome.Some? then Success([outcome.value]) else EmitsBoth(ctx, rev, e)
      else
        EmitsBoth(ctx, rev, e)
    case TypeBinary(test, tested, s) =>
      var fs :- Emits(ctx, rev, tested);
      Success((if test == TypeIs then [TypeHierarchyFilter(ctx, tested, s)] else []) + fs)
    case StartsWith(receiver, prefix, overload) =>
      var f :- StartsWithFilter(ctx, rev, receiver, prefix, overload);
      var a :- Emits(ctx, rev, receiver);
      var b :- Emits(ctx, rev, prefix);
      var c :- EmitsOverload(ctx, rev, overload);
      Success([f] + a + b + c)
    case Call(target, _, args, _) =>
      var a :- Emits(ctx, rev, target);
      var b :- EmitsAll(ctx, rev, args);
      Success(a + b)
    case StaticCall(args, _) => EmitsAll(ctx, rev, args)
    case Lambda(body, _) => Emits(ctx, rev, body)
    case Other(children, _) => EmitsAll(ctx, rev, children)
  }

  function EmitsBoth(ctx: Context, rev: Revision, e: Expr): Result<seq<Filter>, Error>
    requires e.Binary?
    decreases e, 0
  {
    var a :- Emits(ctx, rev, e.left);
    var b :- Emits(ctx, rev, e.right);
    Success(a + b)
  }

  function EmitsOverload(ctx: Context, rev: Revision, overload: StartsWithOverload): Result<seq<Filter>, Error>
    decreases overload, 0
  {
    match overload
    case Plain => Success([])
    case WithComparison(c) => Emits(ctx, rev, c)
    case WithIgnoreCase(ignoreCase, culture) =>
      var a :- Emits(ctx, rev, ignoreCase);
      var b :- Emits(ctx, rev, culture);
      Success(a + b)
  }

  function EmitsAll(ctx: Context, rev: Revision, es: seq<Expr>): Result<seq<Filter>, Error>
    decreases es, 0
  {
    if es == [] then Success([])
    else
      var a :- EmitsAll(ctx, rev, es[..|es| - 1]);
      var b :- Emits(ctx, rev, es[|es| - 1]);
      Success(a + b)
  }

  /**
   * The number of `!` nodes a visit of `e` reaches: a comparison that finds its field
   * returns without visiting its operands, and so does a bool member, so negations
   * below them are not reached.
   */
  function NotsReached(ctx: Context, rev: Revision, e: Expr): nat
    decreases e, 1
  {
    match e
    case Parameter | InnerParameter(_, _) => 0
    case Constant(_, _) => 0
    case Member(owner, _, t) => if t == BoolType then 0 else NotsReached(ctx, rev, owner)
    case StaticMember(_, _) => 0
    case Unary(op, operand) => (if op.Not? then 1 else 0) + NotsReached(ctx, rev, operand)
    case Binary(op, l, r) =>
      var both := NotsReached(ctx, rev, l) + NotsReached(ctx, rev, r);
      if IsComparison(op) then
        var outcome := ComparisonOutcome(ctx, rev, op, l, r);
        if outcome.Success? && outcome.value.Some? then 0 else both
      else
        both
    case TypeBinary(_, tested, _) => NotsReached(ctx, rev, tested)
    case StartsWith(receiver, prefix, overload) =>
      NotsReached(ctx, rev, receiver) + NotsReached(ctx, rev, prefix) + OverloadNotsReached(ctx, rev, overload)
    case Call(target, _, args, _) => NotsReached(ctx, rev, target) + AllNotsReached(ctx, rev, args)
    case StaticCall(args, _) => AllNotsReached(ctx, rev, args)
    case Lambda(body, _) => NotsReached(ctx, rev, body)
    case Other(children, _) => AllNotsReached(ctx, rev, children)
  }

  function OverloadNotsReached(ctx: Context, rev: Revision, overload: StartsWithOverload): nat
    decreases overload, 0
  {
    match overload
    case Plain => 0
    case WithComparison(c) => NotsReached(ctx, rev, c)
    case WithIgnoreCase(ignoreCase, culture) => NotsReached(ctx, rev, ignoreCase) + NotsReached(ctx, rev, culture)
  }

  function AllNotsReached(ctx: Context, rev: Revision, es: seq<Expr>): nat
    decreases es, 0
  {
    if es == [] then 0 else AllNotsReached(ctx, rev, es[..|es| - 1]) + NotsReached(ctx, rev, es[|es| - 1])
  }

  /** A visit reaches at most the `!` nodes the predicate has, and none at all in a negation-free one. */
  lemma {:induction false} NotsReachedBounded(ctx: Context, rev: Revision, e: Expr)
    ensures NotsReached(ctx, rev, e) <= NotCount(e)
    decreases e, 1
  {
    match e
    case Parameter | InnerParameter(_, _) =>
    case Constant(_, _) =>
    case Member(owner, _, _) => NotsReachedBounded(ctx, rev, owner);
    case StaticMember(_, _) =>
    case Unary(_, operand) => NotsReachedBounded(ctx, rev, operand);
    case Binary(_, l, r) => NotsReachedBounded(ctx, rev, l); NotsReachedBounded(ctx, rev, r);
    case TypeBinary(_, tested, _) => NotsReachedBounded(ctx, rev, tested);
    case StartsWith(receiver, prefix, overload) =>
      NotsReachedBounded(ctx, rev, receiver);
      NotsReachedBounded(ctx, rev, prefix);
      OverloadNotsReachedBounded(ctx, rev, overload);
    case Call(target, _, args, _) => NotsReachedBounded(ctx, rev, target); AllNotsReachedBounded(ctx, rev, args);
    case StaticCall(args, _) => AllNotsReachedBounded(ctx, rev, args);
    case Lambda(body, _) => NotsReachedBounded(ctx, rev, body);
    case Other(children, _) => AllNotsReachedBounded(ctx, rev, children);
  }

  lemma {:induction false} OverloadNotsReachedBounded(ctx: Context, rev: Revision, overload: StartsWithOverload)
    ensures OverloadNotsReached(ctx, rev, overload) <= OverloadNotCount(overload)
    decreases overload, 0
  {
    match overload
    case Plain =>
    case WithComparison(c) => NotsReachedBounded(ctx, rev, c);
    case WithIgnoreCase(ignoreCase, culture) => NotsReachedBounded(ctx, rev, ignoreCase); NotsReachedBounded(ctx, rev, culture);
  }

  lemma {:induction false} AllNotsReachedBounded(ctx: Context, rev: Revision, es: seq<Expr>)
    ensures AllNotsReached(ctx, rev, es) <= AllNotCount(es)
    decreases es, 0
  {
    if es != [] {
      AllNotsReachedBounded(ctx, rev, es[..|es| - 1]);
      NotsReachedBounded(ctx, rev, es[|es| - 1]);
    }
  }

  /** The filter of a whole predicate: the last one sent to the root, null when there is none. */
  function Compile(ctx: Context, rev: Revision, e: Expr): Result<Filter, Error> {
    var fs :- Emits(ctx, rev, e);
    Success(if fs == [] then NoFilter else fs[|fs| - 1])
  }
}
