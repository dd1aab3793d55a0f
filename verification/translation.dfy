/**
 * The pure case analysis of WhereVisitor<T>: field-name resolution, value conversion,
 * and the Term, Exists, Range and Prefix filters built for one node.
 */
module Translation {
  import opened Outcomes
  import opened Values
  import opened Expressions
  import opened Filters

  /** The exceptions the visitor lets escape. */
  datatype Error =
    | NullReference     // dereferencing a null Expression, or lowercasing a null argument
    | InvalidCast       // unboxing an argument to string, bool or StringComparison
    | UnboundParameter  // compiling a value side that mentions a lambda parameter it does not bind

  /**
   * Which behaviour the visitor follows: the source as written, or the source with the
   * three corrections described under Findings (a negation scope that ends with its
   * operand, mirrored range operators when the field is on the right, and static
   * operands treated as values).
   */
  datatype Revision = AsWritten | Corrected

  /**
   * What the visitor calls but does not define: the client's FieldNameConvention,
   * TypeHierarchyInterceptor, the naming of System.Type values, culture-invariant
   * lowercasing, and the run-time evaluation of a closed expression.
   */
  datatype Context = Context(
    fieldName: Expr -> string,              // FieldNameConvention.GetFieldName
    fieldNameForLowercase: Expr -> string,  // FieldNameConvention.GetFieldNameForLowercase
    typeHierarchyProperty: string,          // TypeHierarchyInterceptor.TypeHierarchyJsonPropertyName
    hierarchyTypeName: TypeHandle -> string,// TypeHierarchyInterceptor.GetTypeName
    typeFullName: TypeHandle -> string,     // Type.ToString()
    assemblyName: TypeHandle -> string,     // Type.Assembly.GetName().Name
    lowerInvariant: string -> string,       // string.ToLowerInvariant()
    evaluate: Expr -> Value)                // compiling and invoking a closed expression

  /** The suffix that marks the run-time type of a document or of a nested object. */
  const TypeSuffix := "$type"

  // ---------------------------------------------------------------------------
  // Evaluation of value sides
  // ---------------------------------------------------------------------------

  /**
   * EvaluateExpression: wrap `e` in a parameterless lambda, compile it and invoke it.
   * A constant evaluates to itself; compiling an expression that mentions a lambda
   * parameter bound outside it (x, or that of an enclosing nested lambda) throws.
   */
  function Evaluate(ctx: Context, e: Expr): (r: Result<Value, Error>)
    ensures r.Failure? <==> MentionsParameter(e)
    ensures r.Failure? ==> r.error == UnboundParameter
    ensures e.Constant? ==> r == Success(e.value)
  {
    if MentionsParameter(e) then Failure(UnboundParameter)
    else if e.Constant? then Success(e.value)
    else Success(ctx.evaluate(e))
  }

  /**
   * In `x => x.Items.Any(c => x.Id == c.ParentId)`, the value side `c.ParentId` uses the
   * parameter of the nested lambda around the comparison, so evaluating it on its own throws.
   */
  lemma InnerParameterValueThrows(ctx: Context, rev: Revision, id: string, parentId: string, t: StaticType)
    ensures ComparisonOutcome(ctx, rev, Equal, Member(Parameter, id, OtherType), Member(InnerParameter(0, t), parentId, OtherType))
      == Failure(UnboundParameter)
  {
    var x := Member(Parameter, id, OtherType);
    var c := Member(InnerParameter(0, t), parentId, OtherType);
    assert MentionsParameter(c);
    assert ResolveOperands(ctx, rev, x, c) == Success(Some(Operands(ctx.fieldName(x), c, true)));
  }

  /**
   * In `x => x.Count == list.Count(c => ...)`, the value side holds a whole nested lambda
   * that binds its own parameter, so it is closed: it is evaluated, not rejected.
   */
  lemma NestedLambdaValueEvaluates(ctx: Context, rev: Revision, count: string, list: Expr, body: Expr, t: StaticType)
    requires !MentionsParameter(list) && !FreeBeyond(body, 1)
    ensures var f := Member(Parameter, count, OtherType);
      var v := StaticCall([list, Lambda(body, t)], OtherType);
      && ComparisonOutcome(ctx, rev, Equal, f, v).Success?
      && (ctx.evaluate(v) != Null ==>
            ComparisonOutcome(ctx, rev, Equal, f, v) == Success(Some(CreateTermFilter(ctx, ctx.fieldName(f), ctx.evaluate(v)))))
  {
    var f := Member(Parameter, count, OtherType);
    var v := StaticCall([list, Lambda(body, t)], OtherType);
    assert !FreeBeyond(Lambda(body, t), 0);
    assert [list][..0] == [] && !AnyFreeBeyond([list], 0);
    assert [list, Lambda(body, t)][..1] == [list];
    assert !AnyFreeBeyond([list, Lambda(body, t)], 0);
    assert ResolveOperands(ctx, rev, f, v) == Success(Some(Operands(ctx.fieldName(f), v, true)));
  }

  // ---------------------------------------------------------------------------
  // Field names
  // ---------------------------------------------------------------------------

  /** GetFieldName: the convention's name for `e`, or its lowercase-indexed variant. */
  function GetFieldName(ctx: Context, e: Expr, lowercase: bool): string {
    if lowercase then ctx.fieldNameForLowercase(e) else ctx.fieldName(e)
  }

  /** `prefix + "." + name`, where the separator is only added after a non-empty prefix. */
  function Qualified(prefix: string, name: string): (r: string)
    ensures |r| == (if prefix == "" then 0 else |prefix| + 1) + |name|
    ensures r[|r| - |name|..] == name
    ensures prefix != "" ==> r[..|prefix|] == prefix && r[|prefix|] == '.'
  {
    (if prefix == "" then "" else prefix + ".") + name
  }

  /** The prefix a qualified name was built from: the inverse of Qualified for a fixed name. */
  function QualifierOf(q: string, name: string): string
    requires |name| <= |q|
  {
    if |q| == |name| then "" else q[..|q| - |name| - 1]
  }

  /** Qualified is injective: the prefix can always be recovered from the qualified name. */
  lemma QualifiedRoundTrip(prefix: string, name: string)
    ensures |name| <= |Qualified(prefix, name)|
    ensures QualifierOf(Qualified(prefix, name), name) == prefix
  {
    var q := Qualified(prefix, name);
    if prefix != "" {
      assert q == prefix + "." + name;
      assert q[..|q| - |name| - 1] == prefix;
    }
  }

  /**
   * GetFilterableFieldName: the field name `e` stands for, `None` (null) when `e` is
   * not a field reference. As written, a static member or static method call throws,
   * because its null receiver is dereferenced.
   */
  function FilterableFieldName(ctx: Context, rev: Revision, e: Expr, lowercase: bool): (r: Result<Option<string>, Error>)
    ensures r.Failure? <==> rev == AsWritten && (e.StaticMember? || e.StaticCall?)
    ensures r.Failure? ==> r.error == NullReference
    ensures r.Success? && r.value.Some? <==>
      || (e.Member? && TypeOf(e.owner) == EntityType)
      || (e.Unary? && e.unaryOp.Convert? && TypeOf(e.operand) == EnumType)
      || (e.Call? && e.callee == GetTypeMethod)
      || (e.Call? && TypeOf(e.target) == StringType && (e.callee == ToLowerMethod || e.callee == ToLowerInvariantMethod))
  {
    match e
    case Member(owner, _, _) =>
      Success(if TypeOf(owner) == EntityType then Some(GetFieldName(ctx, e, lowercase)) else None)
    case StaticMember(_, _) =>
      if rev == AsWritten then Failure(NullReference) else Success(None)
    case Unary(op, operand) =>
      Success(if op.Convert? && TypeOf(operand) == EnumType then Some(GetFieldName(ctx, e, false)) else None)
    case Call(target, callee, _, _) =>
      if callee == GetTypeMethod then
        Success(Some(Qualified(GetFieldName(ctx, target, lowercase), TypeSuffix)))
      else if TypeOf(target) == StringType && (callee == ToLowerMethod || callee == ToLowerInvariantMethod) then
        Success(Some(GetFieldName(ctx, target, true)))
      else
        Success(None)
    case StaticCall(_, _) =>
      if rev == AsWritten then Failure(NullReference) else Success(None)
    case _ => Success(None)
  }

  /** The field name of a resolved member: the convention's name, or its lowercase variant exactly when asked for. */
  lemma MemberFieldName(ctx: Context, rev: Revision, owner: Expr, name: string, t: StaticType, lowercase: bool)
    requires TypeOf(owner) == EntityType
    ensures var e := Member(owner, name, t);
      FilterableFieldName(ctx, rev, e, lowercase)
        == Success(Some(if lowercase then ctx.fieldNameForLowercase(e) else ctx.fieldName(e)))
  {
  }

  /** `o.GetType()` names the `$type` field under o's path, or `$type` itself at the root. */
  lemma GetTypeFieldName(ctx: Context, rev: Revision, o: Expr, args: seq<Expr>, t: StaticType)
    ensures var path := ctx.fieldName(o);
      FilterableFieldName(ctx, rev, Call(o, GetTypeMethod, args, t), false)
        == Success(Some(if path == "" then TypeSuffix else path + "." + TypeSuffix))
  {
  }

  /** A conversion of an enum-typed expression names the conversion node's field; the lowercase request is ignored. */
  lemma EnumConvertFieldName(ctx: Context, rev: Revision, operand: Expr, t: StaticType, lowercase: bool)
    requires TypeOf(operand) == EnumType
    ensures var e := Unary(Convert(t), operand);
      FilterableFieldName(ctx, rev, e, lowercase) == Success(Some(ctx.fieldName(e)))
  {
  }

  /**
   * `s.ToLower()` or `s.ToLowerInvariant()` on any string-typed receiver names the
   * receiver's lowercase-indexed field, whether or not lowercase was asked for.
   */
  lemma LowercaseCallFieldName(ctx: Context, rev: Revision, receiver: Expr, callee: MethodName, args: seq<Expr>, t: StaticType, lowercase: bool)
    requires TypeOf(receiver) == StringType && (callee == ToLowerMethod || callee == ToLowerInvariantMethod)
    ensures FilterableFieldName(ctx, rev, Call(receiver, callee, args, t), lowercase)
      == Success(Some(ctx.fieldNameForLowercase(receiver)))
  {
  }

  // ---------------------------------------------------------------------------
  // Term values
  // ---------------------------------------------------------------------------

  /**
   * The FieldFilterValue built from an evaluated value: strings, integers, doubles,
   * booleans, dates and enum members are carried over, a Type becomes
   * "FullName, AssemblyName", and any other value becomes a null FieldFilterValue.
   */
  function TermValueOf(ctx: Context, v: Value): (tv: TermValue)
    ensures tv.NullValue? <==> v.Null? || v.OtherObject?
    ensures v.Type? ==> tv == TextValue(ctx.typeFullName(v.handle) + ", " + ctx.assemblyName(v.handle))
  {
    match v
    case Str(s) => TextValue(s)
    case Int(i) => IntValue(i)
    case Double(d) => DoubleValue(d)
    case Bool(b) => BoolValue(b)
    case DateTime(t) => DateTimeValue(t)
    case Enum(m) => EnumValue(m)
    case Type(h) => TextValue(ctx.typeFullName(h) + ", " + ctx.assemblyName(h))
    case Null => NullValue
    case OtherObject(_) => NullValue
  }

  /** The value a term value was converted from, for the kinds that are carried over unchanged. */
  function ValueOfTerm(tv: TermValue): Value {
    match tv
    case TextValue(s) => Str(s)
    case IntValue(i) => Int(i)
    case DoubleValue(d) => Double(d)
    case BoolValue(b) => Bool(b)
    case DateTimeValue(t) => DateTime(t)
    case EnumValue(m) => Enum(m)
    case NullValue => Null
  }

  /** Values of the carried-over kinds survive conversion into a term value unchanged. */
  lemma TermValueRoundTrip(ctx: Context, v: Value)
    requires !v.Type? && !v.OtherObject?
    ensures ValueOfTerm(TermValueOf(ctx, v)) == v
  {
  }

  /** CreateTermFilter(string, object). */
  function CreateTermFilter(ctx: Context, field: string, v: Value): (f: Filter)
    ensures f.Term? && f.field == field
    ensures f.value.NullValue? <==> v.Null? || v.OtherObject?
    ensures !v.Type? && !v.OtherObject? ==> ValueOfTerm(f.value) == v
    ensures v.Type? ==> f.value == TextValue(ctx.typeFullName(v.handle) + ", " + ctx.assemblyName(v.handle))
  {
    Term(field, TermValueOf(ctx, v))
  }

  /** CreateTermFilter(string, Expression): evaluate, then convert. */
  function CreateTermFilterFromExpression(ctx: Context, field: string, e: Expr): (r: Result<Filter, Error>)
    ensures r.Success? <==> !MentionsParameter(e)
    ensures r.Success? ==> r.value == Term(field, TermValueOf(ctx, Evaluate(ctx, e).value))
  {
    var v :- Evaluate(ctx, e);
    Success(CreateTermFilter(ctx, field, v))
  }

  /** The filter VisitMember emits for a bool-typed member: `Term(field, true)`. */
  function BoolMemberFilter(ctx: Context, e: Expr): (f: Filter)
    ensures f == Term(ctx.fieldName(e), BoolValue(true))
  {
    CreateTermFilterFromExpression(ctx, ctx.fieldName(e), Constant(Bool(true), BoolType)).value
  }

  /** The filter VisitTypeBinary emits for `tested is S`: the type-hierarchy field under tested's path. */
  function TypeHierarchyFilter(ctx: Context, tested: Expr, s: TypeHandle): (f: Filter)
    ensures f.Term? && f.value == TextValue(ctx.hierarchyTypeName(s))
    ensures ctx.fieldName(tested) == "" ==> f.field == ctx.typeHierarchyProperty
    ensures ctx.fieldName(tested) != "" ==> f.field == ctx.fieldName(tested) + "." + ctx.typeHierarchyProperty
  {
    Term(Qualified(ctx.fieldName(tested), ctx.typeHierarchyProperty), TextValue(ctx.hierarchyTypeName(s)))
  }

  // ---------------------------------------------------------------------------
  // Ranges
  // ---------------------------------------------------------------------------

  /** NodeTypeIsSizeComparison. */
  predicate NodeTypeIsSizeComparison(op: BinaryOp) {
    op.LessThan? || op.LessThanOrEqual? || op.GreaterThan? || op.GreaterThanOrEqual?
  }

  /**
   * CreateGreaterThanFilter on the evaluated value: an integer or date lower bound up to
   * the type's maximum, with IncludeLower set; null for any other kind of value.
   */
  function CreateGreaterThanFilter(field: string, v: Value, includeLower: bool): (f: Filter)
    ensures f.NoFilter? <==> !(v.Int? || v.DateTime?)
    ensures f.Range? ==> f.rangeField == field && f.includeLower == Some(includeLower) && f.includeUpper == None
  {
    match v
    case Int(i) => Range(field, IntBounds(i, Int32Max), Some(includeLower), None)
    case DateTime(t) => Range(field, DateBounds(t, DateTimeMax), Some(includeLower), None)
    case _ => NoFilter
  }

  /** CreateLessThanFilter on the evaluated value: the mirror image with the type's minimum and IncludeUpper. */
  function CreateLessThanFilter(field: string, v: Value, includeUpper: bool): (f: Filter)
    ensures f.NoFilter? <==> !(v.Int? || v.DateTime?)
    ensures f.Range? ==> f.rangeField == field && f.includeUpper == Some(includeUpper) && f.includeLower == None
  {
    match v
    case Int(i) => Range(field, IntBounds(Int32Min, i), None, Some(includeUpper))
    case DateTime(t) => Range(field, DateBounds(DateTimeMin, t), None, Some(includeUpper))
    case _ => NoFilter
  }

  /** Whether the comparison `a op b` holds between two integers. */
  predicate IntComparisonHolds(op: BinaryOp, a: Int32, b: Int32)
    requires NodeTypeIsSizeComparison(op)
  {
    match op
    case LessThan => a < b
    case LessThanOrEqual => a <= b
    case GreaterThan => a > b
    case GreaterThanOrEqual => a >= b
  }

  /** Whether the comparison `a op b` holds between two instants. */
  predicate DateComparisonHolds(op: BinaryOp, a: Ticks, b: Ticks)
    requires NodeTypeIsSizeComparison(op)
  {
    match op
    case LessThan => a < b
    case LessThanOrEqual => a <= b
    case GreaterThan => a > b
    case GreaterThanOrEqual => a >= b
  }

  /** The range for `field op value` with the field on the left. */
  function SizeFilter(op: BinaryOp, field: string, v: Value): Filter
    requires NodeTypeIsSizeComparison(op)
  {
    match op
    case GreaterThan => CreateGreaterThanFilter(field, v, false)
    case GreaterThanOrEqual => CreateGreaterThanFilter(field, v, true)
    case LessThan => CreateLessThanFilter(field, v, false)
    case LessThanOrEqual => CreateLessThanFilter(field, v, true)
  }

  /**
   * The Int32.MaxValue / Int32.MinValue sentinels lose nothing: the range built for
   * `field op v` admits exactly the integers x with `x op v`.
   */
  lemma IntRangeMeaning(op: BinaryOp, field: string, v: Int32, x: Int32)
    requires NodeTypeIsSizeComparison(op)
    ensures var f := SizeFilter(op, field, Int(v));
      f.Range? && f.bounds.IntBounds? && f.rangeField == field
      && (AdmitsInt(f.bounds, f.includeLower, f.includeUpper, x) <==> IntComparisonHolds(op, x, v))
  {
  }

  /** The same for DateTime.MinValue / DateTime.MaxValue. */
  lemma DateRangeMeaning(op: BinaryOp, field: string, v: Ticks, x: Ticks)
    requires NodeTypeIsSizeComparison(op)
    ensures var f := SizeFilter(op, field, DateTime(v));
      f.Range? && f.bounds.DateBounds? && f.rangeField == field
      && (AdmitsDate(f.bounds, f.includeLower, f.includeUpper, x) <==> DateComparisonHolds(op, x, v))
  {
  }

  // ---------------------------------------------------------------------------
  // Comparisons
  // ---------------------------------------------------------------------------

  /** The two sides of a comparison once the field side is known. */
  datatype Operands = Operands(field: string, valueSide: Expr, fieldOnLeft: bool)

  /**
   * Which side of a comparison is the field: the left operand is tried first, the right
   * one only when the left is not a field reference; `None` when neither is.
   */
  function ResolveOperands(ctx: Context, rev: Revision, l: Expr, r: Expr): (res: Result<Option<Operands>, Error>)
    ensures res.Success? && res.value.Some? ==>
      var ops := res.value.value;
      && FilterableFieldName(ctx, rev, if ops.fieldOnLeft then l else r, false) == Success(Some(ops.field))
      && ops.valueSide == (if ops.fieldOnLeft then r else l)
      && (!ops.fieldOnLeft ==> FilterableFieldName(ctx, rev, l, false) == Success(None))
    ensures res.Success? && res.value.None? ==>
      FilterableFieldName(ctx, rev, l, false) == Success(None) && FilterableFieldName(ctx, rev, r, false) == Success(None)
    ensures res.Failure? <==>
      || FilterableFieldName(ctx, rev, l, false).Failure?
      || (FilterableFieldName(ctx, rev, l, false) == Success(None) && FilterableFieldName(ctx, rev, r, false).Failure?)
  {
    var left :- FilterableFieldName(ctx, rev, l, false);
    if left.Some? then
      Success(Some(Operands(left.value, r, true)))
    else
      var right :- FilterableFieldName(ctx, rev, r, false);
      Success(if right.Some? then Some(Operands(right.value, l, false)) else None)
  }

  /** The operator seen from the other side: `v < f` is `f > v`. */
  function Mirror(op: BinaryOp): (m: BinaryOp)
    ensures NodeTypeIsSizeComparison(op) ==> NodeTypeIsSizeComparison(m)
  {
    match op
    case LessThan => GreaterThan
    case LessThanOrEqual => GreaterThanOrEqual
    case GreaterThan => LessThan
    case GreaterThanOrEqual => LessThanOrEqual
    case _ => op
  }

  /**
   * The filter one comparison compiles to once its field side is known. As written the
   * operator is applied with the field on the left whichever side it came from; the
   * corrected revision mirrors it when the field is on the right.
   */
  function ComparisonFilter(ctx: Context, rev: Revision, op: BinaryOp, ops: Operands): (r: Result<Filter, Error>)
    requires IsComparison(op)
    ensures r.Failure? <==> MentionsParameter(ops.valueSide)
  {
    var v :- Evaluate(ctx, ops.valueSide);
    match op
    case Equal =>
      Success(if v != Null then CreateTermFilter(ctx, ops.field, v) else NotFilter(Exists(ops.field)))
    case NotEqual =>
      if v != Null then
        Success(NotFilter(CreateTermFilterFromExpression(ctx, ops.field, ops.valueSide).value))
      else
        Success(Exists(ops.field))
    case _ =>
      Success(SizeFilter(if rev == Corrected && !ops.fieldOnLeft then Mirror(op) else op, ops.field, v))
  }

  /**
   * The outcome of a comparison node: the filter it emits, `None` when neither side is a
   * field (the visitor then descends into both operands), or the exception it throws.
   */
  function ComparisonOutcome(ctx: Context, rev: Revision, op: BinaryOp, l: Expr, r: Expr): Result<Option<Filter>, Error>
    requires IsComparison(op)
  {
    var resolved :- ResolveOperands(ctx, rev, l, r);
    if resolved.None? then Success(None)
    else
      var f :- ComparisonFilter(ctx, rev, op, resolved.value);
      Success(Some(f))
  }

  /** Mirroring an operator swaps the roles of its operands. */
  lemma MirrorSwaps(op: BinaryOp, a: Int32, b: Int32, c: Ticks, d: Ticks)
    requires NodeTypeIsSizeComparison(op)
    ensures IntComparisonHolds(Mirror(op), a, b) <==> IntComparisonHolds(op, b, a)
    ensures DateComparisonHolds(Mirror(op), c, d) <==> DateComparisonHolds(op, d, c)
  {
  }

  /**
   * Corrected: the range built for an integer comparison admits exactly the field values
   * that satisfy the comparison as written in the predicate, whichever side the field is on.
   */
  lemma CorrectedIntRange(ctx: Context, op: BinaryOp, ops: Operands, v: Int32, x: Int32)
    requires NodeTypeIsSizeComparison(op)
    requires Evaluate(ctx, ops.valueSide) == Success(Int(v))
    ensures var r := ComparisonFilter(ctx, Corrected, op, ops);
      && r.Success? && r.value.Range? && r.value.bounds.IntBounds? && r.value.rangeField == ops.field
      && (AdmitsInt(r.value.bounds, r.value.includeLower, r.value.includeUpper, x)
          <==> if ops.fieldOnLeft then IntComparisonHolds(op, x, v) else IntComparisonHolds(op, v, x))
  {
    var effective := if ops.fieldOnLeft then op else Mirror(op);
    IntRangeMeaning(effective, ops.field, v, x);
    MirrorSwaps(op, x, v, 0, 0);
  }

  /** Corrected: the same for dates. */
  lemma CorrectedDateRange(ctx: Context, op: BinaryOp, ops: Operands, v: Ticks, x: Ticks)
    requires NodeTypeIsSizeComparison(op)
    requires Evaluate(ctx, ops.valueSide) == Success(DateTime(v))
    ensures var r := ComparisonFilter(ctx, Corrected, op, ops);
      && r.Success? && r.value.Range? && r.value.bounds.DateBounds? && r.value.rangeField == ops.field
      && (AdmitsDate(r.value.bounds, r.value.includeLower, r.value.includeUpper, x)
          <==> if ops.fieldOnLeft then DateComparisonHolds(op, x, v) else DateComparisonHolds(op, v, x))
  {
    var effective := if ops.fieldOnLeft then op else Mirror(op);
    DateRangeMeaning(effective, ops.field, v, x);
    MirrorSwaps(op, 0, 0, x, v);
  }

  /** As written: the range is built as if the field were on the left, whichever side it is on. */
  lemma AsWrittenRangeIgnoresSide(ctx: Context, op: BinaryOp, ops: Operands, v: Value)
    requires NodeTypeIsSizeComparison(op)
    requires Evaluate(ctx, ops.valueSide) == Success(v)
    ensures ComparisonFilter(ctx, AsWritten, op, ops) == Success(SizeFilter(op, ops.field, v))
  {
  }

  /** `field == v` with a non-null v gives Term(field, v) whichever side the field is written on. */
  lemma EqualityEitherSide(ctx: Context, rev: Revision, field: Expr, value: Expr)
    requires FilterableFieldName(ctx, rev, field, false).Success? && FilterableFieldName(ctx, rev, field, false).value.Some?
    requires FilterableFieldName(ctx, rev, value, false) == Success(None)
    requires !MentionsParameter(value)
    requires Evaluate(ctx, value).value != Null
    ensures var name := FilterableFieldName(ctx, rev, field, false).value.value;
      && ComparisonOutcome(ctx, rev, Equal, field, value) == Success(Some(Term(name, TermValueOf(ctx, Evaluate(ctx, value).value))))
      && ComparisonOutcome(ctx, rev, Equal, value, field) == ComparisonOutcome(ctx, rev, Equal, field, value)
  {
  }

  /** Null on the value side: `==` gives NotFilter(Exists(field)) and `!=` gives Exists(field). */
  lemma NullComparisons(ctx: Context, rev: Revision, ops: Operands)
    requires Evaluate(ctx, ops.valueSide) == Success(Null)
    ensures ComparisonFilter(ctx, rev, Equal, ops) == Success(NotFilter(Exists(ops.field)))
    ensures ComparisonFilter(ctx, rev, NotEqual, ops) == Success(Exists(ops.field))
  {
  }

  /** `!=` with a non-null value negates exactly the term `==` would emit. */
  lemma NotEqualNegatesTerm(ctx: Context, rev: Revision, ops: Operands)
    requires Evaluate(ctx, ops.valueSide).Success? && Evaluate(ctx, ops.valueSide).value != Null
    ensures ComparisonFilter(ctx, rev, NotEqual, ops).Success?
    ensures ComparisonFilter(ctx, rev, NotEqual, ops).value == NotFilter(ComparisonFilter(ctx, rev, Equal, ops).value)
  {
  }

  // ---------------------------------------------------------------------------
  // string.StartsWith
  // ---------------------------------------------------------------------------

  /** The `(string)` cast of an evaluated argument. */
  function StringArgument(v: Value): Result<Option<string>, Error> {
    match v
    case Null => Success(None)
    case Str(s) => Success(Some(s))
    case _ => Failure(InvalidCast)
  }

  /** The `(StringComparison)` unboxing of an evaluated argument. */
  function ComparisonArgument(v: Value): Result<StringComparison, Error> {
    match v
    case Enum(Comparison(m)) => Success(m)
    case Null => Failure(NullReference)
    case _ => Failure(InvalidCast)
  }

  /** The `(bool)` unboxing of an evaluated argument. */
  function BoolArgument(v: Value): Result<bool, Error> {
    match v
    case Bool(b) => Success(b)
    case Null => Failure(NullReference)
    case _ => Failure(InvalidCast)
  }

  /** The three comparison modes that make StartsWith case-insensitive. */
  predicate IgnoresCase(m: StringComparison) {
    m == OrdinalIgnoreCase || m == CurrentCultureIgnoreCase || m == InvariantCultureIgnoreCase
  }

  /**
   * The prefix filter of the two qualified overloads: a case-insensitive match uses the
   * lowercase-indexed field and the invariant-lowercased argument.
   */
  function QualifiedPrefixFilter(ctx: Context, rev: Revision, receiver: Expr, arg: Option<string>, ignoreCase: bool): Result<Filter, Error> {
    if ignoreCase then
      var field :- FilterableFieldName(ctx, rev, receiver, true);
      if arg.None? then Failure(NullReference)
      else Success(Prefix(field, Some(ctx.lowerInvariant(arg.value))))
    else
      var field :- FilterableFieldName(ctx, rev, receiver, false);
      Success(Prefix(field, arg))
  }

  /** The filter VisitMethodCall emits for one of the three string.StartsWith overloads. */
  function StartsWithFilter(ctx: Context, rev: Revision, receiver: Expr, prefix: Expr, overload: StartsWithOverload): (r: Result<Filter, Error>)
    ensures r.Success? ==> r.value.Prefix?
  {
    match overload
    case Plain =>
      var field :- FilterableFieldName(ctx, rev, receiver, false);
      var v :- Evaluate(ctx, prefix);
      var arg :- StringArgument(v);
      Success(Prefix(field, arg))
    case WithComparison(comparison) =>
      var v :- Evaluate(ctx, prefix);
      var arg :- StringArgument(v);
      var c :- Evaluate(ctx, comparison);
      var mode :- ComparisonArgument(c);
      QualifiedPrefixFilter(ctx, rev, receiver, arg, IgnoresCase(mode))
    case WithIgnoreCase(ignoreCase, _) =>
      var v :- Evaluate(ctx, prefix);
      var arg :- StringArgument(v);
      var b :- Evaluate(ctx, ignoreCase);
      var ignore :- BoolArgument(b);
      QualifiedPrefixFilter(ctx, rev, receiver, arg, ignore)
  }

  /** `f.StartsWith(s)` on a field f gives Prefix(field, s), with the field's ordinary name. */
  lemma StartsWithPlain(ctx: Context, rev: Revision, owner: Expr, name: string, s: string)
    requires TypeOf(owner) == EntityType
    ensures var f := Member(owner, name, StringType);
      StartsWithFilter(ctx, rev, f, Constant(Str(s), StringType), Plain) == Success(Prefix(Some(ctx.fieldName(f)), Some(s)))
  {
  }

  /**
   * `f.StartsWith(s, mode)` on a field f: the ignore-case modes give
   * Prefix(lowercase field, lowerInvariant(s)), every other mode Prefix(field, s).
   */
  lemma StartsWithComparisonMode(ctx: Context, rev: Revision, owner: Expr, name: string, s: string, mode: StringComparison)
    requires TypeOf(owner) == EntityType
    ensures var f := Member(owner, name, StringType);
      StartsWithFilter(ctx, rev, f, Constant(Str(s), StringType), WithComparison(Constant(Enum(Comparison(mode)), EnumType)))
        == Success(if IgnoresCase(mode) then Prefix(Some(ctx.fieldNameForLowercase(f)), Some(ctx.lowerInvariant(s)))
                   else Prefix(Some(ctx.fieldName(f)), Some(s)))
  {
  }

  /** `f.StartsWith(s, ignoreCase, culture)` on a field f: the same split on the bool flag. */
  lemma StartsWithIgnoreCaseFlag(ctx: Context, rev: Revision, owner: Expr, name: string, s: string, ignore: bool, culture: Expr)
    requires TypeOf(owner) == EntityType
    ensures var f := Member(owner, name, StringType);
      StartsWithFilter(ctx, rev, f, Constant(Str(s), StringType), WithIgnoreCase(Constant(Bool(ignore), BoolType), culture))
        == Success(if ignore then Prefix(Some(ctx.fieldNameForLowercase(f)), Some(ctx.lowerInvariant(s)))
                   else Prefix(Some(ctx.fieldName(f)), Some(s)))
  {
  }
}
