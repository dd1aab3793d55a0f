# WhereVisitor: a verified model of Where2Find's predicate-to-filter compiler

Where2Find turns a LINQ predicate over an indexed type `T` (an expression tree such as
`x => (x.Id == 42 || x.Name == "Hello") && x.Date > d`) into a search filter tree: term,
range, prefix and exists filters under And, Or and Not filters. This is done by
`WhereVisitor<T>`, an `ExpressionVisitor` subclass. While it walks the tree, it keeps a
stack of insertion points (`addStack`, a stack of `Action<Filter>` closures):

- the root insertion point assigns the result;
- an And or Or node adds a new `AndFilter` or `OrFilter` in place, then makes "append to
  its `Filters` list" the insertion point while its operands are visited;
- a negation pushes a closure that wraps what it receives in a `NotFilter` before
  passing it on.

The project models this in Dafny in the following modules.

- `Values`, `Expressions` and `Filters` hold the data. `Values` covers the runtime values
  a closed sub-expression evaluates to, with `int` as a 32-bit `Int32` and `DateTime` as
  ticks. `Expressions` covers the node kinds the visitor distinguishes. `Filters` covers
  the filter tree, with the meaning of a range filter on integers and on dates.
- `Translation` holds the visitor's pure helpers:
  - `GetFilterableFieldName` and `GetFieldName`;
  - both `CreateTermFilter` overloads and `EvaluateExpression`;
  - `NodeTypeIsSizeComparison`, `CreateGreaterThanFilter` and `CreateLessThanFilter`;
  - the comparison branch of `VisitBinary`;
  - the three `StartsWith` overloads of `VisitMethodCall`.

  The conventions object the caller passes in and the runtime services the visitor calls
  are a `Context` value of total functions:
  - the field name convention and its lowercase variant;
  - the type-hierarchy property and type names;
  - `Type.ToString()` and assembly names;
  - `ToLowerInvariant`;
  - the evaluation of a closed expression.
- `Traversal` is the visit as a function on an explicit state. Its parts are:
  - the insertion-point stack, as a sequence of targets: the root, "append to node n", or
    "negate, then pass to t";
  - the And and Or filters created so far, as an arena of nodes whose children are leaves,
    negations or references to later nodes;
  - the root result.

  `Resolve` reads a filter tree back out of the arena.
- `Semantics` gives an independent, compositional meaning to a predicate: `Emits` lists
  the filters each sub-expression sends to its insertion point, and `Compile` takes the
  last one that reaches the root.
- `Correspondence` proves that the stack-and-arena traversal computes exactly `Compile`.
  This holds for the corrected visitor on every predicate, and for the visitor as written
  on every predicate without a `!` node.
- `Visitor` is the class `WhereVisitor` itself. Its fields `addStack`, `nodes` and
  `filterToReturn` are updated in place by methods named after the source's own. Each
  method is proved to leave exactly the state the traversal function computes. `AddFilter`
  walks the chain of negation wrappers with a loop.
- `Findings` exhibits three defects of the code as written, each with its input, and proves
  the intended property of the corrected behaviour. The unpopped negation has two
  consequences, a negated sibling and a misrouted operand, each in its own row below.
- `Scenarios` restates the project's own unit tests as lemmas over all field names and
  values.

The visitor carries a `Revision`. `AsWritten` follows the source's branches, constants and
exceptions, within the limits listed under "Left out". `Corrected` differs only at the three
defects below:
- the negation's insertion point is popped after its operand;
- a range comparison with the field on the right uses the mirrored operator;
- a static member or static call as a comparison operand is evaluated as a value rather
  than dereferenced.

## Model

| member | source | states |
|---|---|---|
| Translation.Evaluate | Where2Find/WhereVisitor.cs:272-277 | evaluating a value expression fails exactly when it mentions a lambda parameter that no lambda inside it binds (the predicate's own, or that of an enclosing nested lambda), since it then cannot be compiled as a lambda of no parameters; a value holding a whole nested lambda, such as `list.Count(c => c > 0)`, is evaluated; a constant evaluates to its own value |
| Translation.InnerParameterValueThrows | Where2Find/WhereVisitor.cs:272-277 | `x.Id == c.ParentId` inside a nested lambda over c throws: the value side cannot be evaluated on its own |
| Translation.NestedLambdaValueEvaluates | Where2Find/WhereVisitor.cs:265-277 | `x.Count == list.Count(c => …)`, where the nested lambda binds every parameter it uses, does not throw: the value side is evaluated, and a non-null value gives the term filter on x.Count |
| Translation.Qualified | Where2Find/WhereVisitor.cs:223-229 | a non-empty path prefix is followed by a '.' and then the name; an empty prefix gives the name alone; the result ends with the name |
| Translation.QualifiedRoundTrip | Where2Find/WhereVisitor.cs:223-229 | the prefix can be recovered from the qualified name: joining is injective in the prefix |
| Translation.FilterableFieldName | Where2Find/WhereVisitor.cs:204-241 | as written, it throws NullReferenceException exactly on a static member or static call (its receiver expression is null); it yields a field name exactly for a member of the queried type, an enum conversion, a GetType() call, or ToLower/ToLowerInvariant on a string; otherwise it yields null |
| Translation.MemberFieldName | Where2Find/WhereVisitor.cs:206-213 | a member of the queried type is filterable under the convention's field name, or under its lowercase name when asked |
| Translation.GetTypeFieldName | Where2Find/WhereVisitor.cs:221-230 | `o.GetType()` is the field `path.$type`, or `$type` alone when o's path is empty |
| Translation.EnumConvertFieldName | Where2Find/WhereVisitor.cs:215-219 | a conversion of an enum-typed expression names the conversion node's field under the ordinary convention, even when the lowercase name was asked for |
| Translation.LowercaseCallFieldName | Where2Find/WhereVisitor.cs:232-238 | `s.ToLower()` or `s.ToLowerInvariant()` on any string-typed receiver names the receiver's lowercase-indexed field, whatever was asked for |
| Translation.TermValueOf | Where2Find/WhereVisitor.cs:279-315 | null and values of unlisted types give an empty term value; a Type gives "FullName, AssemblyName" |
| Translation.TermValueRoundTrip | Where2Find/WhereVisitor.cs:279-315 | for string, int, double, bool, DateTime and enum values, the term value carries the value unchanged: it can be read back |
| Translation.CreateTermFilter | Where2Find/WhereVisitor.cs:279-315 | the result is a term filter on the given field; its value is empty exactly for null and for values of unlisted types; string, int, double, bool, DateTime and enum values can be read back from it unchanged; a Type gives "FullName, AssemblyName" |
| Translation.CreateTermFilterFromExpression | Where2Find/WhereVisitor.cs:265-270 | it succeeds exactly when the value expression does not mention a lambda parameter that no lambda inside it binds, and then gives the term on the field of the evaluated, converted value |
| Translation.BoolMemberFilter | Where2Find/WhereVisitor.cs:86-90 | a bool member becomes the term (field, true) |
| Translation.TypeHierarchyFilter | Where2Find/WhereVisitor.cs:97-107 | `o is S` becomes a term on the type-hierarchy property, qualified by o's field path when that path is non-empty, with S's hierarchy type name as value |
| Translation.CreateGreaterThanFilter | Where2Find/WhereVisitor.cs:326-346 | null unless the value is an int or a DateTime; otherwise a range on the field with IncludeLower set to the flag and IncludeUpper unset |
| Translation.CreateLessThanFilter | Where2Find/WhereVisitor.cs:348-369 | null unless the value is an int or a DateTime; otherwise a range on the field with IncludeUpper set to the flag and IncludeLower unset |
| Translation.IntRangeMeaning | Where2Find/WhereVisitor.cs:326-369 | the range built for `x.F op v` on integers admits exactly the x with `x op v`; the Int32.MinValue and Int32.MaxValue sentinels cut nothing off |
| Translation.DateRangeMeaning | Where2Find/WhereVisitor.cs:326-369 | the same for DateTime, with DateTime.MinValue and DateTime.MaxValue as sentinels |
| Translation.ResolveOperands | Where2Find/WhereVisitor.cs:138-150 | the left operand is tried as the field first and the right one only if the left is not a field; no field on either side means no filter; failure is exactly a throw from either lookup |
| Translation.Mirror | Where2Find/WhereVisitor.cs:180-195 | the mirror of a size comparison is a size comparison |
| Translation.MirrorSwaps | Where2Find/WhereVisitor.cs:180-195 | `a (mirror op) b` holds exactly when `b op a` holds, for ints and for dates |
| Translation.ComparisonFilter | Where2Find/WhereVisitor.cs:150-197 | it fails exactly when the value side mentions a lambda parameter that no lambda inside it binds (the predicate's own, or that of an enclosing nested lambda); `==` gives a term filter, or Not(Exists) for null; `!=` gives Not of the term filter, or Exists for null; a size comparison gives a range, built from the mirrored operator under the correction when the field is on the right |
| Translation.CorrectedIntRange | Where2Find/WhereVisitor.cs:180-195 | corrected: the range admits an int x exactly when the comparison as written holds of x, whichever side the field is on |
| Translation.CorrectedDateRange | Where2Find/WhereVisitor.cs:180-195 | the same for dates |
| Translation.AsWrittenRangeIgnoresSide | Where2Find/WhereVisitor.cs:180-195 | as written, the range depends only on the operator and the value, not on which side the field stands |
| Translation.EqualityEitherSide | Where2Find/WhereVisitor.cs:138-165 | `field == v` and `v == field` compile to the same term filter |
| Translation.NullComparisons | Where2Find/WhereVisitor.cs:155-177 | `== null` gives Not(Exists(field)) and `!= null` gives Exists(field) |
| Translation.NotEqualNegatesTerm | Where2Find/WhereVisitor.cs:153-177 | for a non-null value, the `!=` filter is the negation of the `==` filter |
| Translation.StartsWithFilter | Where2Find/WhereVisitor.cs:33-70 | every StartsWith overload that does not throw yields a prefix filter |
| Translation.StartsWithPlain | Where2Find/WhereVisitor.cs:33-38 | `f.StartsWith(s)` on a field f gives Prefix(field, s) with the field's ordinary name |
| Translation.StartsWithComparisonMode | Where2Find/WhereVisitor.cs:39-54 | with a StringComparison, the three IgnoreCase modes give Prefix(lowercase field, ToLowerInvariant(s)) and the other modes give Prefix(field, s) |
| Translation.StartsWithIgnoreCaseFlag | Where2Find/WhereVisitor.cs:55-70 | with (bool, CultureInfo), true gives Prefix(lowercase field, ToLowerInvariant(s)) and false gives Prefix(field, s) |
| Traversal.Deliver | Where2Find/WhereVisitor.cs:260-263 | invoking an insertion point keeps the arena well-formed and changes neither the stack nor the number of And/Or filters |
| Traversal.Initial | Where2Find/WhereVisitor.cs:17-21 | the state ParseFilter starts from is well-formed and its stack is exactly the root insertion point |
| Traversal.NewNode | Where2Find/WhereVisitor.cs:125-126 | a new And/Or filter is added empty and changes nothing else |
| Traversal.Traverse | Where2Find/WhereVisitor.cs:26-202 | a visit that does not throw keeps the state well-formed, only pushes onto the stack, and never removes an And/Or filter |
| Traversal.TraverseConnective | Where2Find/WhereVisitor.cs:114-134 | the same for an And or Or node |
| Traversal.TraverseInScope | Where2Find/WhereVisitor.cs:252-258 | the same for a visit with a pushed insertion point, after which the top entry is popped: the pushed point itself under the correction, but as written, after an operand holding `!`, the leaked negating wrapper, so that the pushed point stays below it |
| Traversal.TraverseBoth | Where2Find/WhereVisitor.cs:201 | the same for visiting both operands, left first |
| Traversal.TraverseOverload | Where2Find/WhereVisitor.cs:71 | the same for the remaining StartsWith arguments |
| Traversal.TraverseAll | Where2Find/WhereVisitor.cs:71 | the same for a list of children visited in order |
| Traversal.TraverseHeight | Where2Find/WhereVisitor.cs:74-82 | a visit that does not throw leaves the stack height unchanged under the correction; as written, it adds one entry for every `!` node it reaches, because the negating wrapper is not popped when its operand is done |
| Traversal.ConnectiveHeight | Where2Find/WhereVisitor.cs:252-258 | the same for an And/Or node: it pushes one insertion point and pops one entry, so the height grows only by the `!` nodes its operands reach (as written, the entry popped is then a leaked wrapper, not the pushed point) |
| Traversal.StartsWithHeight | Where2Find/WhereVisitor.cs:31-72 | the same for a StartsWith call |
| Traversal.CallHeight | Where2Find/WhereVisitor.cs:71 | the same for any other method call |
| Traversal.BothHeight | Where2Find/WhereVisitor.cs:201 | the same for both operands of a binary node |
| Traversal.OverloadHeight | Where2Find/WhereVisitor.cs:71 | the same for the remaining StartsWith arguments |
| Traversal.AllHeight | Where2Find/WhereVisitor.cs:71 | the same for a list of children |
| Semantics.NotsReachedBounded | Where2Find/WhereVisitor.cs:74-82 | a visit reaches at most as many `!` nodes as the predicate has; a comparison that finds its field (lines 197-198) and a bool member (lines 86-90) return without visiting below them |
| Semantics.OverloadNotsReachedBounded | Where2Find/WhereVisitor.cs:74-82 | the same for StartsWith arguments |
| Semantics.AllNotsReachedBounded | Where2Find/WhereVisitor.cs:74-82 | the same for a list of children |
| Expressions.NotFreeCount | Where2Find/WhereVisitor.cs:74-82 | a predicate is negation-free exactly when it has no `!` node, so by the two lemmas above the visit as written keeps the stack height on it |
| Expressions.OverloadNotFreeCount | Where2Find/WhereVisitor.cs:74-82 | the same for StartsWith arguments |
| Expressions.AllNotFreeCount | Where2Find/WhereVisitor.cs:74-82 | the same for a list of children |
| Traversal.TraverseAllPrefixFails | Where2Find/WhereVisitor.cs:71 | once a child throws, visiting any longer list of children throws too |
| Correspondence.ResolveFrame | Where2Find/WhereVisitor.cs:127 | appending to And/Or filters a filter cannot reach does not change what it means |
| Correspondence.Wrapped | Where2Find/WhereVisitor.cs:76-77 | wrapping in negations does not change which And/Or filter a slot refers to |
| Correspondence.ResolveWrapped | Where2Find/WhereVisitor.cs:76-77 | a slot delivered through the wrappers of a target means the filter negated as that target demands |
| Correspondence.DeliverEffect | Where2Find/WhereVisitor.cs:260-263 | AddFilter appends the wrapped filter to the target's And/Or list, or assigns it to the result at the root, and changes nothing else |
| Correspondence.AppendedNothing | Where2Find/WhereVisitor.cs:260-263 | a visit that adds nothing appends nothing |
| Correspondence.AddLeaf | Where2Find/WhereVisitor.cs:260-263 | adding a finished filter sends exactly that filter to the top insertion point |
| Correspondence.AppendedTrans | Where2Find/WhereVisitor.cs:260-263 | sending fs and then gs to the same insertion point sends fs + gs |
| Correspondence.UnderNegation | Where2Find/WhereVisitor.cs:74-82 | filters sent through a pushed negation wrapper arrive negated, one for one and in order, at the insertion point beneath it once the wrapper is popped |
| Correspondence.ResolveNode | Where2Find/WhereVisitor.cs:125-133 | an And/Or filter whose list holds fs means And(fs) or Or(fs) |
| Correspondence.ConnectiveStep | Where2Find/WhereVisitor.cs:125-133 | adding an And/Or filter and then filling its list with fs sends And(fs) or Or(fs) to the enclosing insertion point |
| Correspondence.TraverseAgrees | Where2Find/WhereVisitor.cs:26-202 | the visit of any node throws exactly when Emits fails, with the same exception; otherwise it sends exactly the filters Emits lists to the current insertion point; this holds for the corrected visitor, and as written for negation-free predicates |
| Correspondence.NegationAgrees | Where2Find/WhereVisitor.cs:74-82 | the same for a `!` node: its operand's filters arrive negated |
| Correspondence.ComparisonAgrees | Where2Find/WhereVisitor.cs:136-201 | the same for a comparison node: one filter, or its operands' filters when neither side is a field |
| Correspondence.TypeTestAgrees | Where2Find/WhereVisitor.cs:95-110 | the same for `is` and type-equality nodes |
| Correspondence.StartsWithAgrees | Where2Find/WhereVisitor.cs:31-72 | the same for StartsWith calls: the prefix filter, then the receiver's and arguments' filters |
| Correspondence.StartsWithArgumentsAgree | Where2Find/WhereVisitor.cs:71 | after the prefix filter, the receiver and the remaining arguments are visited in order and their filters follow it |
| Correspondence.PrefixOverloadAgree | Where2Find/WhereVisitor.cs:71 | the prefix argument, then the overload's extra arguments, in that order |
| Correspondence.CallAgrees | Where2Find/WhereVisitor.cs:71 | the same for any other method call |
| Correspondence.ConnectiveAgrees | Where2Find/WhereVisitor.cs:114-134 | the same for And and Or nodes: a single And(fs) or Or(fs) of the operands' filters |
| Correspondence.ScopePushed | Where2Find/WhereVisitor.cs:125-133 | the operands of an And/Or node are visited with the new node's insertion point on top of the stack |
| Correspondence.BothAgree | Where2Find/WhereVisitor.cs:201 | the same for both operands of a binary node, left then right |
| Correspondence.OverloadAgrees | Where2Find/WhereVisitor.cs:71 | the same for the remaining StartsWith arguments |
| Correspondence.AllAgree | Where2Find/WhereVisitor.cs:71 | the same for a list of children |
| Correspondence.ParseMatchesCompile | Where2Find/WhereVisitor.cs:17-24 | ParseFilter returns exactly the last filter that reaches the root, or null, or throws what compiling throws; for the corrected visitor on every predicate, and as written on every predicate without `!` |
| Visitor.WhereVisitor.constructor | Where2Find/WhereVisitor.cs:14-16 | a new visitor has an empty stack, no And/Or filters and no conventions |
| Visitor.WhereVisitor.ParseFilter | Where2Find/WhereVisitor.cs:17-24 | it sets the conventions, pushes the root insertion point and visits; it throws or returns as the traversal does; on a fresh visitor the result is Parse and, where the correspondence holds, Compile; the corrected visitor leaves exactly the root insertion point pushed |
| Visitor.WhereVisitor.Visit | Where2Find/WhereVisitor.cs:26-29 | dispatching on the node kind leaves exactly the state the traversal computes, or throws its exception |
| Visitor.WhereVisitor.VisitMember | Where2Find/WhereVisitor.cs:84-93 | a bool member adds its term; any other member visits its owner; the new state is the traversal's |
| Visitor.WhereVisitor.VisitUnary | Where2Find/WhereVisitor.cs:74-82 | `!` pushes a negating wrapper of the top insertion point (popped again only under the correction), then visits the operand; the new state is the traversal's |
| Visitor.WhereVisitor.VisitTypeBinary | Where2Find/WhereVisitor.cs:95-110 | `is` adds the type-hierarchy term before the operand is visited; the new state is the traversal's |
| Visitor.WhereVisitor.VisitBinary | Where2Find/WhereVisitor.cs:112-202 | And/Or add a new filter and visit the operands into it; a comparison with a field adds one filter; otherwise both operands are visited; the new state is the traversal's |
| Visitor.WhereVisitor.VisitWithFilterInScope | Where2Find/WhereVisitor.cs:252-258 | push the insertion point, visit, pop: the new state is the traversal's |
| Visitor.WhereVisitor.VisitOperands | Where2Find/WhereVisitor.cs:201 | the left operand, then the right one |
| Visitor.WhereVisitor.VisitMethodCall | Where2Find/WhereVisitor.cs:31-72 | a StartsWith overload adds its prefix filter, then the receiver and arguments are visited; the new state is the traversal's |
| Visitor.WhereVisitor.VisitOverloadArguments | Where2Find/WhereVisitor.cs:71 | the StartsWith arguments after the prefix, in order |
| Visitor.WhereVisitor.VisitChildren | Where2Find/WhereVisitor.cs:71 | children visited in order with a loop, stopping at the first exception; the new state is the traversal's |
| Visitor.WhereVisitor.AddFilter | Where2Find/WhereVisitor.cs:260-263 | the loop over the negation wrappers delivers the filter exactly as invoking the top closure does |
| Findings.NegationLeaksAsWritten | Where2Find/WhereVisitor.cs:74-82 | as written, `!x.A && x.B` compiles to And(Not(A = true), Not(B = true)) |
| Findings.NegatedOperandAsWritten | Where2Find/WhereVisitor.cs:74-82 | as written, `!x.A` visited under an append-to-node insertion point appends Not(A = true) to that node and leaves its negating wrapper on top of the stack |
| Findings.BoolMemberDelivered | Where2Find/WhereVisitor.cs:86-90 | a bool member visited under an insertion point that is, or wraps, "append to node n" appends Term(B, true) to node n, negated once per wrapper, and leaves the stack unchanged |
| Findings.NegatedThenDelivered | Where2Find/WhereVisitor.cs:74-82 | the same at a given state: as written, `!x.A` under the append point of node n gives exactly that state with Not(A = true) appended to node n and the negating wrapper pushed |
| Findings.SiblingDelivered | Where2Find/WhereVisitor.cs:74-82 | as written, a bool member `x.B` visited under a negating wrapper of node n's append point, as the sibling after `!x.A` is, gives exactly that state with Not(B = true) appended to node n |
| Findings.FirstNodeState | Where2Find/WhereVisitor.cs:125-133 | the first And/Or filter of a visit is node 0, the root result refers to it, and its append point is pushed above the root |
| Findings.ConnectiveVisited | Where2Find/WhereVisitor.cs:252-258 | an And/Or node's visit ends by removing the top entry of the stack its operands left |
| Findings.LeakingOperands | Where2Find/WhereVisitor.cs:74-82 | as written, both operands of `!x.A && x.B` reach the And filter negated |
| Findings.SiblingMisroutedAsWritten | Where2Find/WhereVisitor.cs:252-258 | as written, the Or of `!x.A && x.B` and `x.C` compiles to Or(And(Not(A = true), Not(B = true), C = true)): the And's pop removes the leaked wrapper, so x.C is appended to the And instead of the Or |
| Findings.OrOperandsAsWritten | Where2Find/WhereVisitor.cs:125-133 | as written, the Or's operands, visited from a fresh Or filter, leave the And's append point on top of the stack, above the Or's, and x.C appended to the And |
| Findings.AndAddedToOr | Where2Find/WhereVisitor.cs:125-133 | the inner And is created as node 1, appended to the Or (node 0), and its append point is pushed |
| Findings.AndOperandsAsWritten | Where2Find/WhereVisitor.cs:74-90 | as written, the And's operands append Not(A = true) and Not(B = true) to it and leave the wrapper on top |
| Findings.InnerAndAsWritten | Where2Find/WhereVisitor.cs:252-258 | as written, the inner And's visit pops the wrapper, leaving its own append point on the stack |
| Findings.MisroutedResolves | Where2Find/WhereVisitor.cs:125-133 | the arena left by the misrouted visit is well-formed and reads back as Or(And(Not A, Not B, C)) |
| Findings.SiblingRoutedCorrected | Where2Find/WhereVisitor.cs:74-82 | corrected, the Or of `!x.A && x.B` and `x.C` compiles to Or(And(Not(A = true), B = true), C = true) |
| Findings.NegationScopedCorrected | Where2Find/WhereVisitor.cs:74-82 | corrected, `!x.A && x.B` compiles to And(Not(A = true), B = true) |
| Findings.RangeNotMirroredAsWritten | Where2Find/WhereVisitor.cs:180-183 | as written, `42 > x.Id` compiles to the range (42, Int32.MaxValue], which admits 43 |
| Findings.RangeMirroredCorrected | Where2Find/WhereVisitor.cs:180-195 | corrected, `v op x.F` compiles to a range admitting exactly the x with `v op x` |
| Findings.StaticOperandThrowsAsWritten | Where2Find/WhereVisitor.cs:206-209 | as written, a static member or static call on the left of a comparison throws NullReferenceException |
| Findings.StaticOperandIsValueCorrected | Where2Find/WhereVisitor.cs:206-209 | corrected, `DateTime.Now op x.Date` compiles to a date range admitting exactly the x with `now op x` |
| Scenarios.EqualityScenario | Tests/Tests.cs:23-47 | `x.Id == 42` and `42 == x.Id` give Term(Id, 42) |
| Scenarios.NullScenario | Tests/Tests.cs:127-150 | `x.D == null` gives Not(Exists(D)); `x.D != null` gives Exists(D) |
| Scenarios.NotEqualScenario | Tests/Tests.cs:259-270 | `x.Id != 42` gives Not(Term(Id, 42)) |
| Scenarios.BoolMemberScenario | Tests/Tests.cs:170-181 | `x.Bool` gives Term(Bool, true) |
| Scenarios.NegatedBoolMemberScenario | Tests/Tests.cs:198-211 | `!x.Bool` gives Not(Term(Bool, true)), as written too |
| Scenarios.NegatedComparisonScenario | Tests/Tests.cs:229-242 | `!(x.Bool == false)` gives Not(Term(Bool, false)), as written too |
| Scenarios.GroupingScenario | Tests/Tests.cs:336-348 | `(a \|\| b) && c` gives And(Or(a, b), c) |
| Scenarios.RangeScenario | Tests/Tests.cs:366-404 | `x.Id > v` gives (v, Int32.MaxValue] with IncludeLower false; `x.Id <= v` gives [Int32.MinValue, v] with IncludeUpper true |
| Scenarios.TypeIsScenario | Tests/Tests.cs:438-448 | `x is S` gives a term on the type-hierarchy property |
| Scenarios.GetTypeScenario | Tests/Tests.cs:465-476 | `x.GetType() == typeof(S)` gives Term($type, "FullName, Assembly") |
| Scenarios.GetTypeComparison | Where2Find/WhereVisitor.cs:221-230 | the comparison `x.GetType() == typeof(S)` resolves the field `$type` on the left and gives the term of the evaluated type |
| Scenarios.ToLowerScenario | Tests/Tests.cs:507-518 | `x.Name.ToLower() == s` is a term on the lowercase field |
| Scenarios.StartsWithScenario | Tests/Tests.cs:635-646 | StartsWith with OrdinalIgnoreCase gives a lowercase prefix on the lowercase field |

## Left out

- `SearchExtensions` (the `Where`/`Filter` extension methods that create a visitor and pass
  the search client's conventions) is not part of this model.
- The client conventions, `TypeHierarchyInterceptor`, `Type.ToString()`, assembly names and
  `ToLowerInvariant` are uninterpreted functions of a `Context`. A convention returning null
  is not distinguished from a returned name.
- Translation.Evaluate: `EvaluateExpression` compiles and invokes a lambda. The model treats
  the evaluation of an expression that binds every lambda parameter it mentions as a total
  function of the context. The only exception it models is the one for an expression that
  mentions a lambda parameter bound outside it: the predicate's own, or that of an enclosing
  nested lambda. Exceptions thrown by user code inside the evaluated
  expression are not modelled.
- Method identity (`MethodInfo` equality with the `string.StartsWith` overloads, and the
  method names "GetType", "ToLower", "ToLowerInvariant") is reduced to constructors of the
  expression type. A static call carries no method name, so the "GetType" check on it is
  not modelled: it takes the null-receiver path.
- Doubles are carried as their 64-bit pattern. Floating-point arithmetic is not modelled.
- The empty inspection of `x < a && x > b` (lines 116-124) has no effect and is omitted.
- `Visit` only forwards to the base visitor. The base `ExpressionVisitor` is modelled only as
  the order in which it visits children: left operand then right, receiver then arguments,
  operand of a unary node.
- Lambda and quote wrappers around the predicate body are not modelled. The visitor starts
  at the body. A nested lambda is a `Lambda` node over its body with one parameter; its
  parameter is an `InnerParameter` leaf carrying the number of lambdas between it and its
  binder. A nested lambda's parameter list, beyond its count of one, is not modelled.
- The conversion lambda a `BinaryExpression` may carry, which `base.VisitBinary` also
  visits, is not modelled.
- `RangeFilter` leaves IncludeLower or IncludeUpper unset on the open end. `AdmitsInt` and
  `AdmitsDate` read an unset flag as inclusive, which is what makes the sentinels cut
  nothing off.
- Visitor.WhereVisitor.Visit: after an exception the visitor's fields are left unspecified,
  as the source leaves its stack and half-filled And/Or filters.
- Correspondence.TraverseAgrees: as written, it is stated only for negation-free
  predicates. With a `!` node, the un-popped wrapper changes the meaning of later siblings
  (the first finding).
- Visitor.WhereVisitor.ParseFilter: the conventions are an `Option` that ParseFilter sets,
  rather than a nullable reference that every visiting method would dereference.

## Findings

| source | as written | input that shows it | evidently intended | confidence | as-written member | corrected member |
|---|---|---|---|---|---|---|
| Where2Find/WhereVisitor.cs:74-82 | the negating insertion point pushed for `!` is not popped when its operand is done, so the sibling visited next is negated as well | `x => !x.A && x.B` gives And(Not(A = true), Not(B = true)) | the negation applies to its operand only: And(Not(A = true), B = true) | not executed | Findings.NegationLeaksAsWritten | Findings.NegationScopedCorrected |
| Where2Find/WhereVisitor.cs:252-258 | after an operand holding `!`, the And/Or node's Pop removes the leaked negating wrapper instead of its own append point, which stays on the stack, so a later operand of an enclosing Or is appended to the inner And | the Or of `!x.A && x.B` and `x.C` gives Or(And(Not(A = true), Not(B = true), C = true)) | each And/Or collects only its own operands: Or(And(Not(A = true), B = true), C = true) | not executed | Findings.SiblingMisroutedAsWritten | Findings.SiblingRoutedCorrected |
| Where2Find/WhereVisitor.cs:180-195 | when the field is the right operand, the range is built from the operator unchanged, as if the field were on the left | `x => 42 > x.Id` gives Id in (42, Int32.MaxValue], which admits 43 | mirror the operator, so that the range admits exactly the Id with 42 > Id | not executed | Findings.RangeNotMirroredAsWritten | Findings.RangeMirroredCorrected |
| Where2Find/WhereVisitor.cs:206-209 | a static member has a null `Expression`, which is dereferenced (a static method call's null `Object` is likewise dereferenced at line 232) | `x => DateTime.Now < x.Date` throws NullReferenceException | treat the static operand as a value and use the field on the other side | not executed | Findings.StaticOperandThrowsAsWritten | Findings.StaticOperandIsValueCorrected |
