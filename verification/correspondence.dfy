/**
 * The traversal agrees with the compositional meaning: visiting a predicate sends
 * exactly the filters `Emits` lists, in order, to the insertion point that was on top
 * of the stack, and leaves the stack as it found it. This holds for the corrected
 * revision, and for the revision as written on predicates without a negation.
 */
module Correspondence {
  import opened Outcomes
  import opened Values
  import opened Expressions
  import opened Filters
  import opened Translation
  import opened Traversal
  import opened Semantics

  /** Each slot of `slots` lies in [lo, |nodes|) and stands for the matching filter of `fs`, negated as `t` demands. */
  ghost predicate Stands(nodes: seq<Node>, lo: nat, slots: seq<Slot>, t: Target, fs: seq<Filter>)
    requires WellFormed(nodes)
  {
    && |slots| == |fs|
    && forall k | 0 <= k < |slots| :: SlotIn(slots[k], lo, |nodes|) && Resolve(nodes, slots[k]) == Negate(t, fs[k])
  }

  /**
   * `st2` is `st` after the filters `fs` were sent, in order, to target `t`: the stack is
   * the same, no node other than t's is changed, t's node received one slot per filter
   * (each standing for that filter negated as t demands), or, at the root, the result is
   * the last of them.
   */
  ghost predicate Appended(st: State, st2: State, t: Target, fs: seq<Filter>)
    requires Valid(st) && TargetIn(t, |st.nodes|)
  {
    && Valid(st2)
    && st2.stack == st.stack
    && |st.nodes| <= |st2.nodes|
    && (forall i | 0 <= i < |st.nodes| && Base(t) != AppendTo(i) :: st2.nodes[i] == st.nodes[i])
    && if Base(t).AppendTo? then
         var b := Base(t).node;
         var before := st.nodes[b].children;
         var after := st2.nodes[b].children;
         && st2.result == st.result
         && st2.nodes[b].connective == st.nodes[b].connective
         && |before| <= |after|
         && after[..|before|] == before
         && Stands(st2.nodes, |st.nodes|, after[|before|..], t, fs)
       else
         && (fs == [] ==> st2.result == st.result)
         && (fs != [] ==> SlotIn(st2.result, |st.nodes|, |st2.nodes|)
                          && Resolve(st2.nodes, st2.result) == Negate(t, fs[|fs| - 1]))
  }

  /** A slot keeps its meaning when nodes it cannot reach change or are added. */
  lemma {:induction false} ResolveFrame(nodes: seq<Node>, nodes2: seq<Node>, lo: nat, s: Slot)
    requires WellFormed(nodes) && WellFormed(nodes2) && |nodes| <= |nodes2|
    requires forall i | lo <= i < |nodes| :: nodes2[i] == nodes[i]
    requires SlotIn(s, lo, |nodes|)
    ensures Resolve(nodes2, s) == Resolve(nodes, s)
    decreases |nodes| - Floor(s, |nodes|), s
  {
    match s
    case Leaf(_) =>
    case NotOf(inner) =>
      ResolveFrame(nodes, nodes2, lo, inner);
    case Ref(n) =>
      var kids := nodes[n].children;
      forall k | 0 <= k < |kids|
        ensures Resolve(nodes2, kids[k]) == Resolve(nodes, kids[k])
      {
        ResolveFrame(nodes, nodes2, lo, kids[k]);
      }
  }

  /** The slot `s` becomes on its way through the negation wrappers of `t`. */
  function Wrapped(t: Target, s: Slot): (w: Slot)
    ensures RefOf(w) == RefOf(s)
  {
    match t
    case WrapNot(under) => Wrapped(under, NotOf(s))
    case _ => s
  }

  lemma {:induction false} ResolveWrapped(nodes: seq<Node>, t: Target, s: Slot)
    requires WellFormed(nodes) && SlotIn(s, 0, |nodes|)
    ensures Resolve(nodes, Wrapped(t, s)) == Negate(t, Resolve(nodes, s))
  {
    match t
    case WrapNot(under) =>
      ResolveWrapped(nodes, under, NotOf(s));
    case _ =>
  }

  /** Delivering to `t` appends the wrapped slot to t's node, or makes it the result. */
  lemma {:induction false} DeliverEffect(st: State, t: Target, s: Slot)
    requires Valid(st) && TargetIn(t, |st.nodes|) && SlotIn(s, Lo(t), |st.nodes|)
    ensures var r := Deliver(st, t, s);
      if Base(t).AppendTo? then
        var b := Base(t).node;
        r.result == st.result && r.nodes == st.nodes[b := Node(st.nodes[b].connective, st.nodes[b].children + [Wrapped(t, s)])]
      else
        r.nodes == st.nodes && r.result == Wrapped(t, s)
  {
    match t
    case WrapNot(under) =>
      DeliverEffect(st, under, NotOf(s));
    case _ =>
  }

  lemma AppendedNothing(st: State, t: Target)
    requires Valid(st) && TargetIn(t, |st.nodes|)
    ensures Appended(st, st, t, [])
  {
  }

  /** A finished filter added at the top of the stack. */
  lemma AddLeaf(st: State, f: Filter)
    requires Valid(st) && |st.stack| > 0
    ensures TargetIn(Top(st), |st.nodes|)
    ensures Appended(st, AddFilter(st, Leaf(f)), Top(st), [f])
  {
    var t := Top(st);
    assert TargetIn(t, |st.nodes|);
    var r := AddFilter(st, Leaf(f));
    DeliverEffect(st, t, Leaf(f));
    ResolveWrapped(r.nodes, t, Leaf(f));
    if Base(t).AppendTo? {
      var b := Base(t).node;
      assert r.nodes[b].children[|st.nodes[b].children|..] == [Wrapped(t, Leaf(f))];
    }
  }

  /** Sending `fs` and then `gs` to the same target sends `fs + gs`. */
  lemma AppendedTrans(s0: State, s1: State, s2: State, t: Target, fs: seq<Filter>, gs: seq<Filter>)
    requires Valid(s0) && TargetIn(t, |s0.nodes|)
    requires Appended(s0, s1, t, fs)
    requires TargetIn(t, |s1.nodes|) && Appended(s1, s2, t, gs)
    ensures Appended(s0, s2, t, fs + gs)
  {
    forall i | |s0.nodes| <= i < |s1.nodes|
      ensures s2.nodes[i] == s1.nodes[i]
    {
      assert Base(t) != AppendTo(i);
    }
    if Base(t).AppendTo? {
      var b := Base(t).node;
      var c0 := s0.nodes[b].children;
      var c1 := s1.nodes[b].children;
      var c2 := s2.nodes[b].children;
      var a1 := c1[|c0|..];
      var a2 := c2[|c1|..];
      assert c1 == c0 + a1;
      assert c2 == c1 + a2;
      assert c2[..|c0|] == c0;
      assert c2[|c0|..] == a1 + a2;
      forall k | 0 <= k < |a1 + a2|
        ensures SlotIn((a1 + a2)[k], |s0.nodes|, |s2.nodes|)
        ensures Resolve(s2.nodes, (a1 + a2)[k]) == Negate(t, (fs + gs)[k])
      {
        if k < |a1| {
          assert SlotIn(a1[k], |s0.nodes|, |s1.nodes|);
          ResolveFrame(s1.nodes, s2.nodes, |s0.nodes|, a1[k]);
        } else {
          assert (a1 + a2)[k] == a2[k - |a1|];
        }
      }
    } else if gs == [] {
      assert fs + gs == fs;
      if fs != [] {
        ResolveFrame(s1.nodes, s2.nodes, |s0.nodes|, s1.result);
      }
    } else if fs != [] {
      assert (fs + gs)[|fs + gs| - 1] == gs[|gs| - 1];
    } else {
      assert fs + gs == gs;
    }
  }

  /** Filters sent through a negation wrapper arrive negated at the target beneath it. */
  lemma UnderNegation(st: State, after: State, fs: seq<Filter>)
    requires Valid(st) && |st.stack| > 0
    requires Valid(st.(stack := st.stack + [WrapNot(Top(st))]))
    requires TargetIn(WrapNot(Top(st)), |st.nodes|)
    requires Appended(st.(stack := st.stack + [WrapNot(Top(st))]), after, WrapNot(Top(st)), fs)
    ensures TargetIn(Top(st), |st.nodes|)
    ensures Appended(st, after.(stack := after.stack[..|after.stack| - 1]), Top(st), NegateAll(fs))
  {
    var t := Top(st);
    var popped := after.(stack := after.stack[..|after.stack| - 1]);
    assert popped.stack == st.stack;
    assert Valid(popped);
    if Base(t).AppendTo? {
      var b := Base(t).node;
      var added := after.nodes[b].children[|st.nodes[b].children|..];
      forall k | 0 <= k < |added|
        ensures Resolve(after.nodes, added[k]) == Negate(t, NegateAll(fs)[k])
      {
        assert Resolve(after.nodes, added[k]) == Negate(WrapNot(t), fs[k]);
      }
    }
  }

  /** The filter an And/Or node stands for once its children are known. */
  function Combine(c: Connective, fs: seq<Filter>): Filter {
    if c == AndNode then AndFilter(fs) else OrFilter(fs)
  }

  /** A node whose children all stand for `fs`, in order, stands for their conjunction or disjunction. */
  lemma ResolveNode(nodes: seq<Node>, n: nat, lo: nat, fs: seq<Filter>)
    requires WellFormed(nodes) && n < |nodes|
    requires Stands(nodes, lo, nodes[n].children, AppendTo(n), fs)
    ensures Resolve(nodes, Ref(n)) == Combine(nodes[n].connective, fs)
  {
    var kids := nodes[n].children;
    var rs := seq(|kids|, k requires 0 <= k < |kids| => Resolve(nodes, kids[k]));
    assert rs == fs by {
      forall k | 0 <= k < |kids|
        ensures rs[k] == fs[k]
      {
        assert Negate(AppendTo(n), fs[k]) == fs[k];
      }
    }
  }

  /**
   * An And/Or node: a fresh node is sent to the current target and made the target of
   * the operands; once the operands have sent `fs` to it, the current target has
   * received exactly the conjunction or disjunction of `fs`.
   */
  lemma ConnectiveStep(st: State, c: Connective, st5: State, fs: seq<Filter>)
    requires Valid(st) && |st.stack| > 0
    requires
      var n := |st.nodes|;
      var st1 := NewNode(st, c);
      var st2 := AddFilter(st1, Ref(n));
      var st3 := st2.(stack := st2.stack + [AppendTo(n)]);
      Valid(st3) && Appended(st3, st5, AppendTo(n), fs)
    ensures TargetIn(Top(st), |st.nodes|)
    ensures Appended(st, st5.(stack := st5.stack[..|st5.stack| - 1]), Top(st), [Combine(c, fs)])
  {
    var t := Top(st);
    assert TargetIn(t, |st.nodes|);
    var n := |st.nodes|;
    var st1 := NewNode(st, c);
    var st2 := AddFilter(st1, Ref(n));
    var st3 := st2.(stack := st2.stack + [AppendTo(n)]);
    var st6 := st5.(stack := st5.stack[..|st5.stack| - 1]);
    DeliverEffect(st1, t, Ref(n));
    var w := Wrapped(t, Ref(n));
    assert st6.stack == st.stack;
    assert Valid(st6);
    assert st3.nodes[n].children == [];
    assert st5.nodes[n].children[0..] == st5.nodes[n].children;
    ResolveNode(st5.nodes, n, n + 1, fs);
    assert st5.nodes[n].connective == c;
    ResolveWrapped(st5.nodes, t, Ref(n));
    assert Resolve(st6.nodes, w) == Negate(t, Combine(c, fs));
    forall i | 0 <= i < |st.nodes| && Base(t) != AppendTo(i)
      ensures st6.nodes[i] == st.nodes[i]
    {
      assert st3.nodes[i] == st.nodes[i];
    }
    if Base(t).AppendTo? {
      var b := Base(t).node;
      assert st6.nodes[b] == st3.nodes[b];
      assert st6.nodes[b].children == st.nodes[b].children + [w];
      assert st6.nodes[b].children[|st.nodes[b].children|..] == [w];
    }
  }

  /**
   * The traversal's outcome `tr` from `st` agrees with the meaning `em`: both succeed or
   * both throw the same exception, and on success `tr` sent exactly `em` to the top target.
   */
  ghost predicate Agrees(st: State, tr: Result<State, Error>, em: Result<seq<Filter>, Error>)
    requires Valid(st) && |st.stack| > 0
  {
    && TargetIn(Top(st), |st.nodes|)
    && (tr.Success? <==> em.Success?)
    && (tr.Failure? ==> tr.error == em.error)
    && (tr.Success? ==> Appended(st, tr.value, Top(st), em.value))
  }

  /**
   * The main correspondence: visiting `e` sends the filters Emits lists to the insertion
   * point on top of the stack, and leaves the stack unchanged. For the revision as
   * written, only on predicates without a negation.
   */
  lemma {:induction false} TraverseAgrees(ctx: Context, rev: Revision, e: Expr, st: State)
    requires Valid(st) && |st.stack| > 0
    requires rev == Corrected || NotFree(e)
    ensures Agrees(st, Traverse(ctx, rev, e, st), Emits(ctx, rev, e))
    decreases e, 3
  {
    assert TargetIn(Top(st), |st.nodes|);
    match e
    case Parameter | InnerParameter(_, _) =>
      AppendedNothing(st, Top(st));
    case Constant(_, _) =>
      AppendedNothing(st, Top(st));
    case Member(owner, _, ty) =>
      if ty == BoolType {
        AddLeaf(st, BoolMemberFilter(ctx, e));
      } else {
        TraverseAgrees(ctx, rev, owner, st);
      }
    case StaticMember(_, ty) =>
      if ty == BoolType {
        AddLeaf(st, BoolMemberFilter(ctx, e));
      } else {
        AppendedNothing(st, Top(st));
      }
    case Unary(op, operand) =>
      if op.Not? {
        NegationAgrees(ctx, rev, e, st);
      } else {
        TraverseAgrees(ctx, rev, operand, st);
      }
    case Binary(op, l, r) =>
      if IsConnective(op) {
        ConnectiveAgrees(ctx, rev, e, st);
      } else if IsComparison(op) {
        ComparisonAgrees(ctx, rev, e, st);
      } else {
        BothAgree(ctx, rev, e, st);
      }
    case TypeBinary(_, _, _) =>
      TypeTestAgrees(ctx, rev, e, st);
    case StartsWith(_, _, _) =>
      StartsWithAgrees(ctx, rev, e, st);
    case Call(_, _, _, _) =>
      CallAgrees(ctx, rev, e, st);
    case StaticCall(args, _) =>
      AllAgree(ctx, rev, args, st);
    case Lambda(body, _) =>
      TraverseAgrees(ctx, rev, body, st);
    case Other(children, _) =>
      AllAgree(ctx, rev, children, st);
  }

  lemma {:induction false} NegationAgrees(ctx: Context, rev: Revision, e: Expr, st: State)
    requires e.Unary? && e.unaryOp.Not?
    requires Valid(st) && |st.stack| > 0
    requires rev == Corrected || NotFree(e)
    ensures Agrees(st, Traverse(ctx, rev, e, st), Emits(ctx, rev, e))
    decreases e, 0
  {
    var t := Top(st);
    assert TargetIn(t, |st.nodes|);
    var pushed := st.(stack := st.stack + [WrapNot(t)]);
    assert Top(pushed) == WrapNot(t);
    TraverseAgrees(ctx, rev, e.operand, pushed);
    var tr := Traverse(ctx, rev, e.operand, pushed);
    if tr.Success? {
      UnderNegation(st, tr.value, Emits(ctx, rev, e.operand).value);
    }
  }

  lemma {:induction false} ComparisonAgrees(ctx: Context, rev: Revision, e: Expr, st: State)
    requires e.Binary? && IsComparison(e.op)
    requires Valid(st) && |st.stack| > 0
    requires rev == Corrected || NotFree(e)
    ensures Agrees(st, Traverse(ctx, rev, e, st), Emits(ctx, rev, e))
    decreases e, 1
  {
    assert TargetIn(Top(st), |st.nodes|);
    var outcome := ComparisonOutcome(ctx, rev, e.op, e.left, e.right);
    if outcome.Success? && outcome.value.Some? {
      AddLeaf(st, outcome.value.value);
    } else if outcome.Success? {
      BothAgree(ctx, rev, e, st);
    }
  }

  lemma {:induction false} TypeTestAgrees(ctx: Context, rev: Revision, e: Expr, st: State)
    requires e.TypeBinary?
    requires Valid(st) && |st.stack| > 0
    requires rev == Corrected || NotFree(e)
    ensures Agrees(st, Traverse(ctx, rev, e, st), Emits(ctx, rev, e))
    decreases e, 0
  {
    var t := Top(st);
    assert TargetIn(t, |st.nodes|);
    if e.test == TypeIs {
      var f := TypeHierarchyFilter(ctx, e.tested, e.typeOperand);
      var st1 := AddFilter(st, Leaf(f));
      AddLeaf(st, f);
      TraverseAgrees(ctx, rev, e.tested, st1);
      var tr := Traverse(ctx, rev, e.tested, st1);
      if tr.Success? {
        AppendedTrans(st, st1, tr.value, t, [f], Emits(ctx, rev, e.tested).value);
      }
    } else {
      TraverseAgrees(ctx, rev, e.tested, st);
      if Emits(ctx, rev, e.tested).Success? {
        assert [] + Emits(ctx, rev, e.tested).value == Emits(ctx, rev, e.tested).value;
      }
    }
  }

  lemma {:induction false} StartsWithAgrees(ctx: Context, rev: Revision, e: Expr, st: State)
    requires e.StartsWith?
    requires Valid(st) && |st.stack| > 0
    requires rev == Corrected || NotFree(e)
    ensures Agrees(st, Traverse(ctx, rev, e, st), Emits(ctx, rev, e))
    decreases e, 2
  {
    assert TargetIn(Top(st), |st.nodes|);
    var fr := StartsWithFilter(ctx, rev, e.receiver, e.prefix, e.overload);
    if fr.Success? {
      AddLeaf(st, fr.value);
      StartsWithArgumentsAgree(ctx, rev, e, st, AddFilter(st, Leaf(fr.value)), [fr.value]);
    }
  }

  /** After the prefix filter: the receiver, then the rest of the arguments. */
  lemma {:induction false} StartsWithArgumentsAgree(ctx: Context, rev: Revision, e: Expr, st: State, st1: State, fs: seq<Filter>)
    requires e.StartsWith?
    requires Valid(st) && |st.stack| > 0 && TargetIn(Top(st), |st.nodes|)
    requires Appended(st, st1, Top(st), fs)
    requires rev == Corrected || NotFree(e)
    ensures |st1.stack| > 0
    ensures
      var tr := (var st2 :- Traverse(ctx, rev, e.receiver, st1);
                 var st3 :- Traverse(ctx, rev, e.prefix, st2);
                 TraverseOverload(ctx, rev, e.overload, st3));
      var em := (var a :- Emits(ctx, rev, e.receiver);
                 var b :- Emits(ctx, rev, e.prefix);
                 var c :- EmitsOverload(ctx, rev, e.overload);
                 Success(fs + a + b + c));
      && (tr.Success? <==> em.Success?)
      && (tr.Failure? ==> tr.error == em.error)
      && (tr.Success? ==> Appended(st, tr.value, Top(st), em.value))
    decreases e, 1
  {
    var t := Top(st);
    assert Top(st1) == t;
    TraverseAgrees(ctx, rev, e.receiver, st1);
    var tr2 := Traverse(ctx, rev, e.receiver, st1);
    if tr2.Success? {
      var a := Emits(ctx, rev, e.receiver).value;
      AppendedTrans(st, st1, tr2.value, t, fs, a);
      PrefixOverloadAgree(ctx, rev, e, st, tr2.value, fs + a);
    }
  }

  /** The prefix argument, then the overload's extra arguments. */
  lemma {:induction false} PrefixOverloadAgree(ctx: Context, rev: Revision, e: Expr, st: State, st2: State, fs: seq<Filter>)
    requires e.StartsWith?
    requires Valid(st) && |st.stack| > 0 && TargetIn(Top(st), |st.nodes|)
    requires Appended(st, st2, Top(st), fs)
    requires rev == Corrected || NotFree(e)
    ensures |st2.stack| > 0
    ensures
      var tr := (var st3 :- Traverse(ctx, rev, e.prefix, st2);
                 TraverseOverload(ctx, rev, e.overload, st3));
      var em := (var b :- Emits(ctx, rev, e.prefix);
                 var c :- EmitsOverload(ctx, rev, e.overload);
                 Success(fs + b + c));
      && (tr.Success? <==> em.Success?)
      && (tr.Failure? ==> tr.error == em.error)
      && (tr.Success? ==> Appended(st, tr.value, Top(st), em.value))
    decreases e, 0
  {
    var t := Top(st);
    assert Top(st2) == t;
    TraverseAgrees(ctx, rev, e.prefix, st2);
    var tr3 := Traverse(ctx, rev, e.prefix, st2);
    if tr3.Success? {
      var b := Emits(ctx, rev, e.prefix).value;
      AppendedTrans(st, st2, tr3.value, t, fs, b);
      OverloadAgrees(ctx, rev, e.overload, tr3.value);
      var tr4 := TraverseOverload(ctx, rev, e.overload, tr3.value);
      if tr4.Success? {
        AppendedTrans(st, tr3.value, tr4.value, t, fs + b, EmitsOverload(ctx, rev, e.overload).value);
      }
    }
  }

  lemma {:induction false} CallAgrees(ctx: Context, rev: Revision, e: Expr, st: State)
    requires e.Call?
    requires Valid(st) && |st.stack| > 0
    requires rev == Corrected || NotFree(e)
    ensures Agrees(st, Traverse(ctx, rev, e, st), Emits(ctx, rev, e))
    decreases e, 0
  {
    assert TargetIn(Top(st), |st.nodes|);
    TraverseAgrees(ctx, rev, e.target, st);
    var tr1 := Traverse(ctx, rev, e.target, st);
    if tr1.Success? {
      AllAgree(ctx, rev, e.arguments, tr1.value);
      var tr2 := TraverseAll(ctx, rev, e.arguments, tr1.value);
      if tr2.Success? {
        AppendedTrans(st, tr1.value, tr2.value, Top(st), Emits(ctx, rev, e.target).value, EmitsAll(ctx, rev, e.arguments).value);
      }
    }
  }

  lemma {:induction false} ConnectiveAgrees(ctx: Context, rev: Revision, e: Expr, st: State)
    requires e.Binary? && IsConnective(e.op)
    requires Valid(st) && |st.stack| > 0
    requires rev == Corrected || NotFree(e)
    ensures Agrees(st, TraverseConnective(ctx, rev, e, st), Emits(ctx, rev, e))
    decreases e, 1
  {
    var n := |st.nodes|;
    var c := ConnectiveOf(e.op);
    var st3 := ScopePushed(st, c);
    var st2 := AddFilter(NewNode(st, c), Ref(n));
    BothAgree(ctx, rev, e, st3);
    var tr := TraverseBoth(ctx, rev, e, st3);
    if tr.Success? {
      var popped := tr.value.(stack := tr.value.stack[..|tr.value.stack| - 1]);
      assert TraverseInScope(ctx, rev, e, AppendTo(n), st2) == Success(popped);
      assert TraverseConnective(ctx, rev, e, st) == Success(popped);
      var fs := EmitsBoth(ctx, rev, e).value;
      assert Emits(ctx, rev, e) == Success([Combine(c, fs)]);
      ConnectiveStep(st, c, tr.value, fs);
    } else {
      assert Emits(ctx, rev, e) == Failure(tr.error);
      assert TraverseInScope(ctx, rev, e, AppendTo(n), st2) == Failure(tr.error);
      assert TraverseConnective(ctx, rev, e, st) == Failure(tr.error);
    }
  }

  /** The state in which a connective's operands are visited: its node added, its insertion point pushed. */
  lemma ScopePushed(st: State, c: Connective) returns (st3: State)
    requires Valid(st) && |st.stack| > 0
    ensures TargetIn(Top(st), |st.nodes|)
    ensures
      var st2 := AddFilter(NewNode(st, c), Ref(|st.nodes|));
      st3 == st2.(stack := st2.stack + [AppendTo(|st.nodes|)])
    ensures Valid(st3) && |st3.stack| > 0 && Top(st3) == AppendTo(|st.nodes|)
  {
    assert TargetIn(Top(st), |st.nodes|);
    var st2 := AddFilter(NewNode(st, c), Ref(|st.nodes|));
    st3 := st2.(stack := st2.stack + [AppendTo(|st.nodes|)]);
  }

  lemma {:induction false} BothAgree(ctx: Context, rev: Revision, e: Expr, st: State)
    requires e.Binary?
    requires Valid(st) && |st.stack| > 0
    requires rev == Corrected || NotFree(e)
    ensures Agrees(st, TraverseBoth(ctx, rev, e, st), EmitsBoth(ctx, rev, e))
    decreases e, 0
  {
    TraverseAgrees(ctx, rev, e.left, st);
    var tr1 := Traverse(ctx, rev, e.left, st);
    if tr1.Success? {
      TraverseAgrees(ctx, rev, e.right, tr1.value);
      var tr2 := Traverse(ctx, rev, e.right, tr1.value);
      if tr2.Success? {
        AppendedTrans(st, tr1.value, tr2.value, Top(st), Emits(ctx, rev, e.left).value, Emits(ctx, rev, e.right).value);
      }
    }
  }

  lemma {:induction false} OverloadAgrees(ctx: Context, rev: Revision, overload: StartsWithOverload, st: State)
    requires Valid(st) && |st.stack| > 0
    requires rev == Corrected || OverloadNotFree(overload)
    ensures Agrees(st, TraverseOverload(ctx, rev, overload, st), EmitsOverload(ctx, rev, overload))
    decreases overload, 0
  {
    assert TargetIn(Top(st), |st.nodes|);
    match overload
    case Plain =>
      AppendedNothing(st, Top(st));
    case WithComparison(c) =>
      TraverseAgrees(ctx, rev, c, st);
    case WithIgnoreCase(ignoreCase, culture) =>
      TraverseAgrees(ctx, rev, ignoreCase, st);
      var tr1 := Traverse(ctx, rev, ignoreCase, st);
      if tr1.Success? {
        TraverseAgrees(ctx, rev, culture, tr1.value);
        var tr2 := Traverse(ctx, rev, culture, tr1.value);
        if tr2.Success? {
          AppendedTrans(st, tr1.value, tr2.value, Top(st), Emits(ctx, rev, ignoreCase).value, Emits(ctx, rev, culture).value);
        }
      }
  }

  lemma {:induction false} AllAgree(ctx: Context, rev: Revision, es: seq<Expr>, st: State)
    requires Valid(st) && |st.stack| > 0
    requires rev == Corrected || AllNotFree(es)
    ensures Agrees(st, TraverseAll(ctx, rev, es, st), EmitsAll(ctx, rev, es))
    decreases es, 0
  {
    assert TargetIn(Top(st), |st.nodes|);
    if es == [] {
      AppendedNothing(st, Top(st));
    } else {
      var init := es[..|es| - 1];
      var last := es[|es| - 1];
      AllAgree(ctx, rev, init, st);
      var tr1 := TraverseAll(ctx, rev, init, st);
      if tr1.Success? {
        TraverseAgrees(ctx, rev, last, tr1.value);
        var tr2 := Traverse(ctx, rev, last, tr1.value);
        if tr2.Success? {
          AppendedTrans(st, tr1.value, tr2.value, Top(st), EmitsAll(ctx, rev, init).value, Emits(ctx, rev, last).value);
        }
      }
    }
  }

  /**
   * ParseFilter yields the last filter the predicate emits at the root (null when it emits
   * none), and throws exactly when compiling the predicate throws.
   */
  lemma ParseMatchesCompile(ctx: Context, rev: Revision, e: Expr)
    requires rev == Corrected || NotFree(e)
    ensures Parse(ctx, rev, e) == Compile(ctx, rev, e)
  {
    TraverseAgrees(ctx, rev, e, Initial());
  }
}
