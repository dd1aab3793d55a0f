/**
 * The body of a predicate `x => ...` over the entity type T, as a tree of
 * System.Linq.Expressions nodes. Only the distinctions WhereVisitor makes are kept.
 */
module Expressions {
  import opened Values

  /** The static types WhereVisitor tests: T itself, string, bool, enum types, everything else. */
  datatype StaticType = EntityType | StringType | BoolType | EnumType | OtherType

  /** ExpressionType of a binary node; `OtherBinary` is any operator the visitor only descends through (Add, Coalesce, ...). */
  datatype BinaryOp =
    | Equal
    | NotEqual
    | LessThan
    | LessThanOrEqual
    | GreaterThan
    | GreaterThanOrEqual
    | And
    | AndAlso
    | Or
    | OrElse
    | OtherBinary(resultType: StaticType)

  /** ExpressionType of a unary node; `OtherUnary` is any other unary node (Negate, Quote, ArrayLength, ...). */
  datatype UnaryOp = Not | Convert(targetType: StaticType) | OtherUnary(resultType: StaticType)

  /** ExpressionType of a type-binary node: `e is S` or an exact type test. */
  datatype TypeTest = TypeIs | TypeEqual

  /** The name of an instance method that is not one of the three string.StartsWith overloads. */
  datatype MethodName = GetTypeMethod | ToLowerMethod | ToLowerInvariantMethod | OtherMethod

  /** Which of the three string.StartsWith overloads is called, with its extra arguments. */
  datatype StartsWithOverload =
    | Plain
    | WithComparison(comparison: Expr)
    | WithIgnoreCase(ignoreCase: Expr, culture: Expr)

  /**
   * An expression node.
   * - `Parameter` is the predicate's own parameter `x`, of type T.
   * - `Lambda(body, t)` is a lambda nested inside the predicate, binding one parameter
   *   (`c => ...` in `x.Items.Any(c => ...)`); `InnerParameter(i, t)` is the parameter of the
   *   i-th nested `Lambda` enclosing it, counting outwards from 0 (a de Bruijn index).
   * - `Member(owner, ...)` is an instance property or field access `owner.name`;
   *   `StaticMember` has no owner (its MemberExpression.Expression is null).
   *   A captured outer variable is a Member of a closure Constant.
   * - `Call` is any instance method call other than string.StartsWith, `StaticCall` a static one.
   * - `Other` is any other node kind, visited only through its children in order
   *   (conditionals, `new`, ...).
   */
  datatype Expr =
    | Parameter
    | InnerParameter(index: nat, parameterType: StaticType)
    | Constant(value: Value, constantType: StaticType)
    | Member(owner: Expr, name: string, memberType: StaticType)
    | StaticMember(name: string, memberType: StaticType)
    | Unary(unaryOp: UnaryOp, operand: Expr)
    | Binary(op: BinaryOp, left: Expr, right: Expr)
    | TypeBinary(test: TypeTest, tested: Expr, typeOperand: TypeHandle)
    | StartsWith(receiver: Expr, prefix: Expr, overload: StartsWithOverload)
    | Call(target: Expr, callee: MethodName, arguments: seq<Expr>, callType: StaticType)
    | StaticCall(staticArguments: seq<Expr>, staticCallType: StaticType)
    | Lambda(body: Expr, lambdaType: StaticType)
    | Other(children: seq<Expr>, otherType: StaticType)

  /** The static type of a node (its `Type` property). */
  function TypeOf(e: Expr): StaticType {
    match e
    case Parameter => EntityType
    case InnerParameter(_, t) => t
    case Constant(_, t) => t
    case Member(_, _, t) => t
    case StaticMember(_, t) => t
    case Unary(op, operand) =>
      (match op
       case Not => TypeOf(operand)
       case Convert(t) => t
       case OtherUnary(t) => t)
    case Binary(op, _, _) => if op.OtherBinary? then op.resultType else BoolType
    case TypeBinary(_, _, _) => BoolType
    case StartsWith(_, _, _) => BoolType
    case Call(_, _, _, t) => t
    case StaticCall(_, t) => t
    case Lambda(_, t) => t
    case Other(_, t) => t
  }

  /** The six comparison operators WhereVisitor translates into Term, Exists and Range filters. */
  predicate IsComparison(op: BinaryOp) {
    op.Equal? || op.NotEqual? || op.LessThan? || op.LessThanOrEqual? || op.GreaterThan? || op.GreaterThanOrEqual?
  }

  /** The logical operators WhereVisitor translates into AndFilter and OrFilter. */
  predicate IsConnective(op: BinaryOp) {
    op.And? || op.AndAlso? || op.Or? || op.OrElse?
  }

  /**
   * True when `e` mentions a lambda parameter that no lambda inside `e` binds: `x`, or the
   * parameter of a nested lambda enclosing `e`. Such an `e` is not a closed value expression.
   */
  predicate MentionsParameter(e: Expr) {
    FreeBeyond(e, 0)
  }

  /** True when `e`, standing under `bound` nested lambdas of its own, mentions a parameter none of them binds. */
  predicate FreeBeyond(e: Expr, bound: nat) {
    match e
    case Parameter => true
    case InnerParameter(i, _) => i >= bound
    case Constant(_, _) => false
    case Member(owner, _, _) => FreeBeyond(owner, bound)
    case StaticMember(_, _) => false
    case Unary(_, operand) => FreeBeyond(operand, bound)
    case Binary(_, l, r) => FreeBeyond(l, bound) || FreeBeyond(r, bound)
    case TypeBinary(_, t, _) => FreeBeyond(t, bound)
    case StartsWith(recv, p, ov) => FreeBeyond(recv, bound) || FreeBeyond(p, bound) || OverloadFreeBeyond(ov, bound)
    case Call(t, _, args, _) => FreeBeyond(t, bound) || AnyFreeBeyond(args, bound)
    case StaticCall(args, _) => AnyFreeBeyond(args, bound)
    case Lambda(body, _) => FreeBeyond(body, bound + 1)
    case Other(children, _) => AnyFreeBeyond(children, bound)
  }

  predicate OverloadFreeBeyond(ov: StartsWithOverload, bound: nat) {
    match ov
    case Plain => false
    case WithComparison(c) => FreeBeyond(c, bound)
    case WithIgnoreCase(ic, culture) => FreeBeyond(ic, bound) || FreeBeyond(culture, bound)
  }

  predicate AnyFreeBeyond(es: seq<Expr>, bound: nat) {
    if es == [] then false else AnyFreeBeyond(es[..|es| - 1], bound) || FreeBeyond(es[|es| - 1], bound)
  }

  /** True when no logical-negation node occurs anywhere in `e`. */
  predicate NotFree(e: Expr) {
    match e
    case Parameter | InnerParameter(_, _) => true
    case Constant(_, _) => true
    case Member(owner, _, _) => NotFree(owner)
    case StaticMember(_, _) => true
    case Unary(op, operand) => !op.Not? && NotFree(operand)
    case Binary(_, l, r) => NotFree(l) && NotFree(r)
    case TypeBinary(_, t, _) => NotFree(t)
    case StartsWith(recv, p, ov) => NotFree(recv) && NotFree(p) && OverloadNotFree(ov)
    case Call(t, _, args, _) => NotFree(t) && AllNotFree(args)
    case StaticCall(args, _) => AllNotFree(args)
    case Lambda(body, _) => NotFree(body)
    case Other(children, _) => AllNotFree(children)
  }

  predicate OverloadNotFree(ov: StartsWithOverload) {
    match ov
    case Plain => true
    case WithComparison(c) => NotFree(c)
    case WithIgnoreCase(ic, culture) => NotFree(ic) && NotFree(culture)
  }

  predicate AllNotFree(es: seq<Expr>) {
    if es == [] then true else AllNotFree(es[..|es| - 1]) && NotFree(es[|es| - 1])
  }

  /** The number of `!` nodes in `e`. */
  function NotCount(e: Expr): nat {
    match e
    case Parameter | InnerParameter(_, _) => 0
    case Constant(_, _) => 0
    case Member(owner, _, _) => NotCount(owner)
    case StaticMember(_, _) => 0
    case Unary(op, operand) => (if op.Not? then 1 else 0) + NotCount(operand)
    case Binary(_, l, r) => NotCount(l) + NotCount(r)
    case TypeBinary(_, t, _) => NotCount(t)
    case StartsWith(recv, p, ov) => NotCount(recv) + NotCount(p) + OverloadNotCount(ov)
    case Call(t, _, args, _) => NotCount(t) + AllNotCount(args)
    case StaticCall(args, _) => AllNotCount(args)
    case Lambda(body, _) => NotCount(body)
    case Other(children, _) => AllNotCount(children)
  }

  function OverloadNotCount(ov: StartsWithOverload): nat {
    match ov
    case Plain => 0
    case WithComparison(c) => NotCount(c)
    case WithIgnoreCase(ic, culture) => NotCount(ic) + NotCount(culture)
  }

  function AllNotCount(es: seq<Expr>): nat {
    if es == [] then 0 else AllNotCount(es[..|es| - 1]) + NotCount(es[|es| - 1])
  }

  /** An expression is negation-free exactly when it has no `!` node. */
  lemma {:induction false} NotFreeCount(e: Expr)
    ensures NotFree(e) <==> NotCount(e) == 0
  {
    match e
    case Parameter | InnerParameter(_, _) =>
    case Constant(_, _) =>
    case Member(owner, _, _) => NotFreeCount(owner);
    case StaticMember(_, _) =>
    case Unary(_, operand) => NotFreeCount(operand);
    case Binary(_, l, r) => NotFreeCount(l); NotFreeCount(r);
    case TypeBinary(_, t, _) => NotFreeCount(t);
    case StartsWith(recv, p, ov) => NotFreeCount(recv); NotFreeCount(p); OverloadNotFreeCount(ov);
    case Call(t, _, args, _) => NotFreeCount(t); AllNotFreeCount(args);
    case StaticCall(args, _) => AllNotFreeCount(args);
    case Lambda(body, _) => NotFreeCount(body);
    case Other(children, _) => AllNotFreeCount(children);
  }

  lemma {:induction false} OverloadNotFreeCount(ov: StartsWithOverload)
    ensures OverloadNotFree(ov) <==> OverloadNotCount(ov) == 0
  {
    match ov
    case Plain =>
    case WithComparison(c) => NotFreeCount(c);
    case WithIgnoreCase(ic, culture) => NotFreeCount(ic); NotFreeCount(culture);
  }

  lemma {:induction false} AllNotFreeCount(es: seq<Expr>)
    ensures AllNotFree(es) <==> AllNotCount(es) == 0
  {
    if es != [] {
      AllNotFreeCount(es[..|es| - 1]);
      NotFreeCount(es[|es| - 1]);
    }
  }
}
