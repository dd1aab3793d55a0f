/**
 * Whole predicates and the filters they compile to, after the cases the project's own
 * test suite exercises. They hold for both revisions unless stated otherwise.
 */
module Scenarios {
  import opened Outcomes
  import opened Values
  import opened Expressions
  import opened Filters
  import opened Translation
  import opened Traversal
  import opened Semantics
  import opened Correspondence

  /** `x.Id == 42` and `42 == x.Id` both give Term(Id, 42). */
  lemma EqualityScenario(ctx: Context, rev: Revision, name: string, v: Int32)
    ensures var f := Member(Parameter, name, OtherType);
      var c := Constant(Int(v), OtherType);
      && Parse(ctx, rev, Binary(Equal, f, c)) == Success(Term(ctx.fieldName(f), IntValue(v)))
      && Parse(ctx, rev, Binary(Equal, c, f)) == Success(Term(ctx.fieldName(f), IntValue(v)))
  {
    var f := Member(Parameter, name, OtherType);
    var c := Constant(Int(v), OtherType);
    assert NotFree(f) && NotFree(c);
    assert NotFree(Binary(Equal, f, c));
    ParseMatchesCompile(ctx, rev, Binary(Equal, f, c));
    ParseMatchesCompile(ctx, rev, Binary(Equal, c, f));
  }

  /** `x.D == null` gives Not(Exists(D)) and `x.D != null` gives Exists(D). */
  lemma NullScenario(ctx: Context, rev: Revision, name: string)
    ensures var f := Member(Parameter, name, OtherType);
      var c := Constant(Null, OtherType);
      && Parse(ctx, rev, Binary(Equal, f, c)) == Success(NotFilter(Exists(ctx.fieldName(f))))
      && Parse(ctx, rev, Binary(NotEqual, f, c)) == Success(Exists(ctx.fieldName(f)))
  {
    var f := Member(Parameter, name, OtherType);
    var c := Constant(Null, OtherType);
    assert NotFree(f) && NotFree(c);
    ParseMatchesCompile(ctx, rev, Binary(Equal, f, c));
    ParseMatchesCompile(ctx, rev, Binary(NotEqual, f, c));
  }

  /** `x.Id != 42` gives Not(Term(Id, 42)). */
  lemma NotEqualScenario(ctx: Context, rev: Revision, name: string, v: Int32)
    ensures var f := Member(Parameter, name, OtherType);
      Parse(ctx, rev, Binary(NotEqual, f, Constant(Int(v), OtherType)))
        == Success(NotFilter(Term(ctx.fieldName(f), IntValue(v))))
  {
    var f := Member(Parameter, name, OtherType);
    assert NotFree(f) && NotFree(Constant(Int(v), OtherType));
    ParseMatchesCompile(ctx, rev, Binary(NotEqual, f, Constant(Int(v), OtherType)));
  }

  /** A bare bool property `x.Bool` gives Term(Bool, true). */
  lemma BoolMemberScenario(ctx: Context, rev: Revision, name: string)
    ensures Parse(ctx, rev, Member(Parameter, name, BoolType)) == Success(Term(ctx.fieldName(Member(Parameter, name, BoolType)), BoolValue(true)))
  {
    assert NotFree(Parameter);
    ParseMatchesCompile(ctx, rev, Member(Parameter, name, BoolType));
  }

  /** A negation at the root, `!x.Bool`, gives Not(Term(Bool, true)); this holds as written too. */
  lemma NegatedBoolMemberScenario(ctx: Context, rev: Revision, name: string)
    ensures Parse(ctx, rev, Unary(Not, Member(Parameter, name, BoolType)))
      == Success(NotFilter(Term(ctx.fieldName(Member(Parameter, name, BoolType)), BoolValue(true))))
  {
    var f := Member(Parameter, name, BoolType);
    var t := Term(ctx.fieldName(f), BoolValue(true));
    var pushed := State([Root, WrapNot(Root)], [], Leaf(NoFilter));
    assert Initial().stack + [WrapNot(Root)] == pushed.stack;
    DeliverEffect(pushed, WrapNot(Root), Leaf(t));
    var after := State([Root, WrapNot(Root)], [], NotOf(Leaf(t)));
    assert Traverse(ctx, rev, f, pushed) == Success(after);
    var popped := if rev == Corrected then after.(stack := [Root]) else after;
    assert after.stack[..|after.stack| - 1] == [Root];
    assert Traverse(ctx, rev, Unary(Not, f), Initial()) == Success(popped);
    assert Resolve(popped.nodes, popped.result) == NotFilter(t);
  }

  /** `!(x.Bool == false)` gives Not(Term(Bool, false)); a lone negation has no later sibling, so this holds as written too. */
  lemma NegatedComparisonScenario(ctx: Context, rev: Revision, name: string)
    ensures var f := Member(Parameter, name, BoolType);
      Parse(ctx, rev, Unary(Not, Binary(Equal, f, Constant(Bool(false), BoolType))))
        == Success(NotFilter(Term(ctx.fieldName(f), BoolValue(false))))
  {
    var f := Member(Parameter, name, BoolType);
    var c := Constant(Bool(false), BoolType);
    var t := Term(ctx.fieldName(f), BoolValue(false));
    assert ComparisonOutcome(ctx, rev, Equal, f, c) == Success(Some(t));
    var pushed := State([Root, WrapNot(Root)], [], Leaf(NoFilter));
    assert Initial().stack + [WrapNot(Root)] == pushed.stack;
    DeliverEffect(pushed, WrapNot(Root), Leaf(t));
    var after := State([Root, WrapNot(Root)], [], NotOf(Leaf(t)));
    assert Traverse(ctx, rev, Binary(Equal, f, c), pushed) == Success(after);
    var popped := if rev == Corrected then after.(stack := [Root]) else after;
    assert after.stack[..|after.stack| - 1] == [Root];
    assert Traverse(ctx, rev, Unary(Not, Binary(Equal, f, c)), Initial()) == Success(popped);
    assert Resolve(popped.nodes, popped.result) == NotFilter(t);
  }

  /** `(x.A || x.B) && x.C` keeps its grouping: And(Or(A, B), C). */
  lemma GroupingScenario(ctx: Context, rev: Revision, a: string, b: string, c: string)
    ensures var fa := Member(Parameter, a, BoolType);
      var fb := Member(Parameter, b, BoolType);
      var fc := Member(Parameter, c, BoolType);
      var ta := Term(ctx.fieldName(fa), BoolValue(true));
      var tb := Term(ctx.fieldName(fb), BoolValue(true));
      var tc := Term(ctx.fieldName(fc), BoolValue(true));
      Parse(ctx, rev, Binary(AndAlso, Binary(OrElse, fa, fb), fc)) == Success(AndFilter([OrFilter([ta, tb]), tc]))
  {
    var fa := Member(Parameter, a, BoolType);
    var fb := Member(Parameter, b, BoolType);
    var fc := Member(Parameter, c, BoolType);
    var ta := Term(ctx.fieldName(fa), BoolValue(true));
    var tb := Term(ctx.fieldName(fb), BoolValue(true));
    var tc := Term(ctx.fieldName(fc), BoolValue(true));
    assert NotFree(fa) && NotFree(fb) && NotFree(fc);
    assert NotFree(Binary(OrElse, fa, fb));
    assert Emits(ctx, rev, fa) == Success([ta]);
    assert Emits(ctx, rev, fb) == Success([tb]);
    assert Emits(ctx, rev, fc) == Success([tc]);
    assert [ta] + [tb] == [ta, tb];
    assert EmitsBoth(ctx, rev, Binary(OrElse, fa, fb)) == Success([ta, tb]);
    assert Emits(ctx, rev, Binary(OrElse, fa, fb)) == Success([OrFilter([ta, tb])]);
    assert [OrFilter([ta, tb])] + [tc] == [OrFilter([ta, tb]), tc];
    assert EmitsBoth(ctx, rev, Binary(AndAlso, Binary(OrElse, fa, fb), fc)) == Success([OrFilter([ta, tb]), tc]);
    ParseMatchesCompile(ctx, rev, Binary(AndAlso, Binary(OrElse, fa, fb), fc));
  }

  /** `x.Id > v` gives the range (v, Int32.MaxValue]; `x.Id <= v` gives [Int32.MinValue, v]. */
  lemma RangeScenario(ctx: Context, rev: Revision, name: string, v: Int32)
    ensures var f := Member(Parameter, name, OtherType);
      var c := Constant(Int(v), OtherType);
      && Parse(ctx, rev, Binary(GreaterThan, f, c)) == Success(Range(ctx.fieldName(f), IntBounds(v, Int32Max), Some(false), None))
      && Parse(ctx, rev, Binary(LessThanOrEqual, f, c)) == Success(Range(ctx.fieldName(f), IntBounds(Int32Min, v), None, Some(true)))
  {
    var f := Member(Parameter, name, OtherType);
    var c := Constant(Int(v), OtherType);
    assert NotFree(f) && NotFree(c);
    ParseMatchesCompile(ctx, rev, Binary(GreaterThan, f, c));
    ParseMatchesCompile(ctx, rev, Binary(LessThanOrEqual, f, c));
  }

  /** `x is S` at the root gives a term on the type-hierarchy property. */
  lemma TypeIsScenario(ctx: Context, rev: Revision, s: TypeHandle)
    requires ctx.fieldName(Parameter) == ""
    ensures Parse(ctx, rev, TypeBinary(TypeIs, Parameter, s))
      == Success(Term(ctx.typeHierarchyProperty, TextValue(ctx.hierarchyTypeName(s))))
  {
    var t := Term(ctx.typeHierarchyProperty, TextValue(ctx.hierarchyTypeName(s)));
    assert TypeHierarchyFilter(ctx, Parameter, s) == t;
    assert [t] + [] == [t];
    assert Emits(ctx, rev, TypeBinary(TypeIs, Parameter, s)) == Success([t]);
    assert NotFree(Parameter);
    ParseMatchesCompile(ctx, rev, TypeBinary(TypeIs, Parameter, s));
  }

  /** `x.GetType() == typeof(S)` at the root gives Term($type, "FullName, Assembly"). */
  lemma GetTypeScenario(ctx: Context, rev: Revision, s: TypeHandle)
    requires ctx.fieldName(Parameter) == ""
    ensures var call := Call(Parameter, GetTypeMethod, [], OtherType);
      Parse(ctx, rev, Binary(Equal, call, Constant(Type(s), OtherType)))
        == Success(Term(TypeSuffix, TextValue(ctx.typeFullName(s) + ", " + ctx.assemblyName(s))))
  {
    var call := Call(Parameter, GetTypeMethod, [], OtherType);
    var c := Constant(Type(s), OtherType);
    var t := Term(TypeSuffix, TextValue(ctx.typeFullName(s) + ", " + ctx.assemblyName(s)));
    GetTypeComparison(ctx, rev, s);
    assert Emits(ctx, rev, Binary(Equal, call, c)) == Success([t]);
    assert AllNotFree([]);
    assert NotFree(call) && NotFree(c);
    ParseMatchesCompile(ctx, rev, Binary(Equal, call, c));
  }

  /** The comparison inside GetTypeScenario: the `$type` field and the type's name. */
  lemma GetTypeComparison(ctx: Context, rev: Revision, s: TypeHandle)
    requires ctx.fieldName(Parameter) == ""
    ensures ComparisonOutcome(ctx, rev, Equal, Call(Parameter, GetTypeMethod, [], OtherType), Constant(Type(s), OtherType))
      == Success(Some(Term(TypeSuffix, TextValue(ctx.typeFullName(s) + ", " + ctx.assemblyName(s)))))
  {
    var call := Call(Parameter, GetTypeMethod, [], OtherType);
    var c := Constant(Type(s), OtherType);
    GetTypeFieldName(ctx, rev, Parameter, [], OtherType);
    var ops := Operands(TypeSuffix, c, true);
    assert ResolveOperands(ctx, rev, call, c) == Success(Some(ops));
    assert Evaluate(ctx, c) == Success(Type(s));
    assert ComparisonFilter(ctx, rev, Equal, ops) == Success(CreateTermFilter(ctx, TypeSuffix, Type(s)));
  }

  /** `x.Name.ToLower() == s` compares the lowercase-indexed field. */
  lemma ToLowerScenario(ctx: Context, rev: Revision, name: string, s: string)
    ensures var f := Member(Parameter, name, StringType);
      Parse(ctx, rev, Binary(Equal, Call(f, ToLowerMethod, [], StringType), Constant(Str(s), StringType)))
        == Success(Term(ctx.fieldNameForLowercase(f), TextValue(s)))
  {
    var f := Member(Parameter, name, StringType);
    var call := Call(f, ToLowerMethod, [], StringType);
    var c := Constant(Str(s), StringType);
    assert NotFree(f);
    assert AllNotFree([]);
    assert NotFree(call);
    assert NotFree(c);
    assert NotFree(Binary(Equal, call, c));
    ParseMatchesCompile(ctx, rev, Binary(Equal, call, c));
  }

  /** `x.Name.StartsWith(s, StringComparison.OrdinalIgnoreCase)` gives a lowercase prefix on the lowercase-indexed field. */
  lemma StartsWithScenario(ctx: Context, rev: Revision, name: string, s: string)
    ensures var f := Member(Parameter, name, StringType);
      var mode := Constant(Enum(Comparison(OrdinalIgnoreCase)), EnumType);
      Parse(ctx, rev, StartsWith(f, Constant(Str(s), StringType), WithComparison(mode)))
        == Success(Prefix(Some(ctx.fieldNameForLowercase(f)), Some(ctx.lowerInvariant(s))))
  {
    var f := Member(Parameter, name, StringType);
    var mode := Constant(Enum(Comparison(OrdinalIgnoreCase)), EnumType);
    var e := StartsWith(f, Constant(Str(s), StringType), WithComparison(mode));
    var p := Prefix(Some(ctx.fieldNameForLowercase(f)), Some(ctx.lowerInvariant(s)));
    StartsWithComparisonMode(ctx, rev, Parameter, name, s, OrdinalIgnoreCase);
    assert StartsWithFilter(ctx, rev, f, Constant(Str(s), StringType), WithComparison(mode)) == Success(p);
    assert Emits(ctx, rev, f) == Success([]);
    assert EmitsOverload(ctx, rev, WithComparison(mode)) == Success([]);
    assert [p] + [] + [] + [] == [p];
    assert Emits(ctx, rev, e) == Success([p]);
    assert NotFree(f) && NotFree(mode) && OverloadNotFree(WithComparison(mode));
    ParseMatchesCompile(ctx, rev, e);
  }
}
