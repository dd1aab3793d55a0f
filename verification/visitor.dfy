/**
 * WhereVisitor<T> itself: a visitor object whose methods push and pop insertion points
 * on `addStack`, append children to And/Or filters in place, and set the root result.
 * Each method is proved to perform exactly the step of the traversal functions.
 */
module Visitor {
  import opened Outcomes
  import opened Values
  import opened Expressions
  import opened Filters
  import opened Translation
  import opened Traversal
  import opened Semantics
  import opened Correspondence

  class WhereVisitor {
    /** The stack of insertion points (`Stack<Action<Filter>>` in the source). */
    var addStack: seq<Target>
    /** The AndFilter and OrFilter objects created so far, with their `Filters` lists. */
    var nodes: seq<Node>
    /** The variable the root insertion point of the current ParseFilter call assigns. */
    var filterToReturn: Slot
    /** The client conventions, null until ParseFilter sets them. */
    var conventions: Option<Context>
    const revision: Revision

    ghost function Snapshot(): State
      reads this
    {
      State(addStack, nodes, filterToReturn)
    }

    ghost predicate Valid()
      reads this
    {
      Traversal.Valid(Snapshot())
    }

    /** A visiting method ended as the traversal `tr` did: same exception, or the same new state. */
    ghost predicate Completes(thrown: Option<Error>, tr: Result<State, Error>)
      reads this
    {
      && (thrown.None? <==> tr.Success?)
      && (tr.Failure? ==> thrown == Some(tr.error))
      && (tr.Success? ==> Snapshot() == tr.value)
    }

    constructor(revision: Revision)
      ensures this.revision == revision && conventions == None
      ensures addStack == [] && nodes == [] && filterToReturn == Leaf(NoFilter)
      ensures Valid()
    {
      this.revision := revision;
      addStack := [];
      nodes := [];
      filterToReturn := Leaf(NoFilter);
      conventions := None;
    }

    /**
     * ParseFilter: push the root insertion point, visit the predicate's body and return
     * what the root received. The root insertion point is left on the stack.
     */
    method ParseFilter(e: Expr, conventions: Context) returns (result: Result<Filter, Error>)
      requires Valid()
      modifies this
      ensures this.conventions == Some(conventions)
      ensures var tr := Traverse(conventions, revision, e, State(old(addStack) + [Root], old(nodes), Leaf(NoFilter)));
        && (tr.Failure? ==> result == Failure(tr.error))
        && (tr.Success? ==> Snapshot() == tr.value && result == Success(Resolve(nodes, filterToReturn)))
      ensures old(addStack) == [] && old(nodes) == [] ==> result == Parse(conventions, revision, e)
      ensures old(addStack) == [] && old(nodes) == [] && (revision == Corrected || NotFree(e)) ==>
        result == Compile(conventions, revision, e)
      ensures revision == Corrected && result.Success? ==> addStack == old(addStack) + [Root]
    {
      this.conventions := Some(conventions);
      filterToReturn := Leaf(NoFilter);
      addStack := addStack + [Root];
      ghost var start := Snapshot();
      var thrown := Visit(e);
      if thrown.Some? {
        result := Failure(thrown.value);
      } else {
        result := Success(Resolve(nodes, filterToReturn));
      }
      if old(addStack) == [] && old(nodes) == [] {
        assert start == Initial();
        if revision == Corrected || NotFree(e) {
          ParseMatchesCompile(conventions, revision, e);
        }
      }
      if revision == Corrected {
        TraverseAgrees(conventions, revision, e, start);
      }
    }

    /** Visit: dispatch on the node kind. */
    method Visit(e: Expr) returns (thrown: Option<Error>)
      requires Valid() && |addStack| > 0 && conventions.Some?
      modifies this
      ensures conventions == old(conventions)
      ensures Completes(thrown, Traverse(conventions.value, revision, e, old(Snapshot())))
      decreases e, 3
    {
      match e
      case Parameter | InnerParameter(_, _) =>
        thrown := None;
      case Constant(_, _) =>
        thrown := None;
      case Member(_, _, _) =>
        thrown := VisitMember(e);
      case StaticMember(_, _) =>
        thrown := VisitMember(e);
      case Unary(_, _) =>
        thrown := VisitUnary(e);
      case Binary(_, _, _) =>
        thrown := VisitBinary(e);
      case TypeBinary(_, _, _) =>
        thrown := VisitTypeBinary(e);
      case StartsWith(_, _, _) =>
        thrown := VisitMethodCall(e);
      case Call(_, _, _, _) =>
        thrown := VisitMethodCall(e);
      case StaticCall(_, _) =>
        thrown := VisitMethodCall(e);
      case Lambda(body, _) =>
        thrown := Visit(body);
      case Other(children, _) =>
        thrown := VisitChildren(children);
    }

    /** VisitMember: a bool member becomes `Term(field, true)`; any other member is descended into. */
    method VisitMember(e: Expr) returns (thrown: Option<Error>)
      requires e.Member? || e.StaticMember?
      requires Valid() && |addStack| > 0 && conventions.Some?
      modifies this
      ensures conventions == old(conventions)
      ensures Completes(thrown, Traverse(conventions.value, revision, e, old(Snapshot())))
      decreases e, 2
    {
      if TypeOf(e) == BoolType {
        AddFilter(Leaf(BoolMemberFilter(conventions.value, e)));
        thrown := None;
      } else if e.Member? {
        thrown := Visit(e.owner);
      } else {
        thrown := None;
      }
    }

    /**
     * VisitUnary: a negation pushes an insertion point that wraps what it receives in a
     * NotFilter and passes it on; as written it is never popped.
     */
    method VisitUnary(e: Expr) returns (thrown: Option<Error>)
      requires e.Unary?
      requires Valid() && |addStack| > 0 && conventions.Some?
      modifies this
      ensures conventions == old(conventions)
      ensures Completes(thrown, Traverse(conventions.value, revision, e, old(Snapshot())))
      decreases e, 2
    {
      if e.unaryOp.Not? {
        var addScope := addStack[|addStack| - 1];
        addStack := addStack + [WrapNot(addScope)];
        thrown := Visit(e.operand);
        if thrown.None? && revision == Corrected {
          addStack := addStack[..|addStack| - 1];
        }
      } else {
        thrown := Visit(e.operand);
      }
    }

    /** VisitTypeBinary: `o is S` adds the type-hierarchy term, then the tested operand is visited. */
    method VisitTypeBinary(e: Expr) returns (thrown: Option<Error>)
      requires e.TypeBinary?
      requires Valid() && |addStack| > 0 && conventions.Some?
      modifies this
      ensures conventions == old(conventions)
      ensures Completes(thrown, Traverse(conventions.value, revision, e, old(Snapshot())))
      decreases e, 2
    {
      if e.test == TypeIs {
        AddFilter(Leaf(TypeHierarchyFilter(conventions.value, e.tested, e.typeOperand)));
      }
      thrown := Visit(e.tested);
    }

    /**
     * VisitBinary: And/Or insert a new node and visit their operands into it; a comparison
     * with a field side adds its filter and stops; anything else visits both operands.
     */
    method VisitBinary(e: Expr) returns (thrown: Option<Error>)
      requires e.Binary?
      requires Valid() && |addStack| > 0 && conventions.Some?
      modifies this
      ensures conventions == old(conventions)
      ensures Completes(thrown, Traverse(conventions.value, revision, e, old(Snapshot())))
      decreases e, 2
    {
      if IsConnective(e.op) {
        var n := |nodes|;
        nodes := nodes + [Node(ConnectiveOf(e.op), [])];
        assert Snapshot() == NewNode(old(Snapshot()), ConnectiveOf(e.op));
        AddFilter(Ref(n));
        thrown := VisitWithFilterInScope(e, AppendTo(n));
      } else if IsComparison(e.op) {
        var outcome := ComparisonOutcome(conventions.value, revision, e.op, e.left, e.right);
        if outcome.Failure? {
          thrown := Some(outcome.error);
        } else if outcome.value.Some? {
          AddFilter(Leaf(outcome.value.value));
          thrown := None;
        } else {
          thrown := VisitOperands(e);
        }
      } else {
        thrown := VisitOperands(e);
      }
    }

    /** VisitWithFilterInScope: push `t`, visit both operands, pop `t` again. */
    method VisitWithFilterInScope(e: Expr, t: Target) returns (thrown: Option<Error>)
      requires e.Binary?
      requires Valid() && |addStack| > 0 && conventions.Some? && TargetIn(t, |nodes|)
      modifies this
      ensures conventions == old(conventions)
      ensures Completes(thrown, TraverseInScope(conventions.value, revision, e, t, old(Snapshot())))
      decreases e, 1
    {
      addStack := addStack + [t];
      thrown := VisitOperands(e);
      if thrown.None? {
        addStack := addStack[..|addStack| - 1];
      }
    }

    /** base.VisitBinary: the left operand, then the right one. */
    method VisitOperands(e: Expr) returns (thrown: Option<Error>)
      requires e.Binary?
      requires Valid() && |addStack| > 0 && conventions.Some?
      modifies this
      ensures conventions == old(conventions)
      ensures Completes(thrown, TraverseBoth(conventions.value, revision, e, old(Snapshot())))
      decreases e, 0
    {
      thrown := Visit(e.left);
      if thrown.None? {
        thrown := Visit(e.right);
      }
    }

    /**
     * VisitMethodCall: a StartsWith call adds its prefix filter first; then, as for every
     * call, the receiver and the arguments are visited.
     */
    method VisitMethodCall(e: Expr) returns (thrown: Option<Error>)
      requires e.StartsWith? || e.Call? || e.StaticCall?
      requires Valid() && |addStack| > 0 && conventions.Some?
      modifies this
      ensures conventions == old(conventions)
      ensures Completes(thrown, Traverse(conventions.value, revision, e, old(Snapshot())))
      decreases e, 2
    {
      match e
      case StartsWith(receiver, prefix, overload) =>
        var f := StartsWithFilter(conventions.value, revision, receiver, prefix, overload);
        if f.Failure? {
          thrown := Some(f.error);
        } else {
          AddFilter(Leaf(f.value));
          thrown := Visit(receiver);
          if thrown.None? {
            thrown := Visit(prefix);
            if thrown.None? {
              thrown := VisitOverloadArguments(overload);
            }
          }
        }
      case Call(target, _, args, _) =>
        thrown := Visit(target);
        if thrown.None? {
          thrown := VisitChildren(args);
        }
      case StaticCall(args, _) =>
        thrown := VisitChildren(args);
    }

    /** The arguments of a StartsWith call after the prefix. */
    method VisitOverloadArguments(overload: StartsWithOverload) returns (thrown: Option<Error>)
      requires Valid() && |addStack| > 0 && conventions.Some?
      modifies this
      ensures conventions == old(conventions)
      ensures Completes(thrown, TraverseOverload(conventions.value, revision, overload, old(Snapshot())))
      decreases overload, 0
    {
      match overload
      case Plain =>
        thrown := None;
      case WithComparison(c) =>
        thrown := Visit(c);
      case WithIgnoreCase(ignoreCase, culture) =>
        thrown := Visit(ignoreCase);
        if thrown.None? {
          thrown := Visit(culture);
        }
    }

    /** Visit a list of children in order, stopping at the first exception. */
    method VisitChildren(es: seq<Expr>) returns (thrown: Option<Error>)
      requires Valid() && |addStack| > 0 && conventions.Some?
      modifies this
      ensures conventions == old(conventions)
      ensures Completes(thrown, TraverseAll(conventions.value, revision, es, old(Snapshot())))
      decreases es, 0
    {
      ghost var st0 := Snapshot();
      var i := 0;
      thrown := None;
      while i < |es|
        invariant 0 <= i <= |es|
        invariant conventions == old(conventions) && thrown == None
        invariant TraverseAll(conventions.value, revision, es[..i], st0) == Success(Snapshot())
        invariant Valid() && |addStack| > 0
      {
        ghost var before := Snapshot();
        assert es[..i + 1][..i] == es[..i];
        thrown := Visit(es[i]);
        if thrown.Some? {
          assert TraverseAll(conventions.value, revision, es[..i + 1], st0) == Failure(thrown.value);
          TraverseAllPrefixFails(conventions.value, revision, es, i + 1, st0);
          return;
        }
        i := i + 1;
      }
      assert es[..i] == es;
    }

    /**
     * AddFilter: invoke the insertion point on top of the stack. Each negation wrapper
     * wraps the filter and invokes the insertion point it captured, until one appends to
     * an And/Or node or sets the root result.
     */
    method AddFilter(s: Slot)
      requires Valid() && |addStack| > 0 && SlotIn(s, Lo(Top(Snapshot())), |nodes|)
      modifies this
      ensures conventions == old(conventions)
      ensures Snapshot() == Traversal.AddFilter(old(Snapshot()), s)
    {
      var t := addStack[|addStack| - 1];
      var slot := s;
      while t.WrapNot?
        invariant TargetIn(t, |nodes|) && SlotIn(slot, Lo(t), |nodes|)
        invariant Deliver(Snapshot(), t, slot) == Traversal.AddFilter(Snapshot(), s)
        decreases t
      {
        slot := NotOf(slot);
        t := t.under;
      }
      match t
      case Root =>
        filterToReturn := slot;
      case AppendTo(n) =>
        nodes := nodes[n := Node(nodes[n].connective, nodes[n].children + [slot])];
    }
  }
}
