/** The AST leaf for one endpoint of a window frame clause, such as the
    `3 PRECEDING` and the `CURRENT ROW` of `ROWS BETWEEN 3 PRECEDING AND
    CURRENT ROW` (class FrameBound of package io.confluent.ksql.parser.tree). */
module Tree {
  import opened Java

  /** An expression subtree. Dafny's `==` on it is Java reference identity;
      its `equals`, `hashCode` and `toString` are passed in where used. */
  type Expression(==, !new)

  /** A source position attached by the parser, for diagnostics only. */
  type NodeLocation(==, !new)

  /** FrameBound.Type. */
  datatype BoundType = UnboundedPreceding | Preceding | CurrentRow | Following | UnboundedFollowing

  /** Enum.name(), which is also the enum's toString(). */
  function TypeName(t: BoundType): (s: string)
    ensures 9 <= |s| && ',' !in s
  {
    match t
    case UnboundedPreceding => "UNBOUNDED_PRECEDING"
    case Preceding => "PRECEDING"
    case CurrentRow => "CURRENT_ROW"
    case Following => "FOLLOWING"
    case UnboundedFollowing => "UNBOUNDED_FOLLOWING"
  }

  /** A constructed node: the location the Node base class keeps, and the two
      final fields `type` and `value`. `boundType` and `value` are the
      results of getType() and getValue(). */
  datatype FrameBound = FrameBound(location: Optional<NodeLocation>, boundType: BoundType, value: Optional<Expression>)

  /** The NullPointerException a call throws, named by the reference that was null. */
  datatype NullPointerException =
    | TypeIsNull     // requireNonNull(type, "type is null")
    | LocationIsNull // Optional.of(location)
    | VisitorIsNull  // visitor.visitFrameBound(...) on a null visitor

  // Construction. Every public constructor reaches Init.

  /** The private constructor (location, type, value): rejects a null type,
      turns a null value into the empty Optional. Any type may carry a value. */
  function Init(location: Optional<NodeLocation>, rawType: Nullable<BoundType>, rawValue: Nullable<Expression>)
    : (r: Result<FrameBound, NullPointerException>)
    ensures r.Err? <==> rawType.Null?
    ensures r.Err? ==> r.error == TypeIsNull
    ensures r.Ok? ==> r.value.location == location && r.value.boundType == rawType.get
    ensures r.Ok? ==> (r.value.value.Of? <==> rawValue.Ref?)
    ensures r.Ok? && rawValue.Ref? ==> r.value.value.get == rawValue.get
  {
    match rawType
    case Null => Err(TypeIsNull)
    case Ref(t) => Ok(FrameBound(location, t, OfNullable(rawValue)))
  }

  /** The private constructor (location, type): Init with a null value. */
  function InitWithoutValue(location: Optional<NodeLocation>, rawType: Nullable<BoundType>)
    : (r: Result<FrameBound, NullPointerException>)
    ensures r.Err? <==> rawType.Null?
    ensures r.Err? ==> r.error == TypeIsNull
    ensures r.Ok? ==> r.value.location == location && r.value.boundType == rawType.get && r.value.value == Empty
  {
    Init(location, rawType, Null)
  }

  /** `new FrameBound(type)`: no location, no value. */
  function New(rawType: Nullable<BoundType>): (r: Result<FrameBound, NullPointerException>)
    ensures r.Err? <==> rawType.Null?
    ensures r.Err? ==> r.error == TypeIsNull
    ensures r.Ok? ==> r.value == FrameBound(Empty, rawType.get, Empty)
  {
    InitWithoutValue(Empty, rawType)
  }

  /** `new FrameBound(location, type)`: Optional.of(location) throws first when
      the location is null; otherwise as Init with no value. */
  function NewAt(location: Nullable<NodeLocation>, rawType: Nullable<BoundType>)
    : (r: Result<FrameBound, NullPointerException>)
    ensures r.Err? <==> location.Null? || rawType.Null?
    ensures r.Err? ==> r.error == (if location.Null? then LocationIsNull else TypeIsNull)
    ensures r.Ok? ==> r.value == FrameBound(Of(location.get), rawType.get, Empty)
  {
    match location
    case Null => Err(LocationIsNull)
    case Ref(l) => InitWithoutValue(Of(l), rawType)
  }

  /** `new FrameBound(type, value)`: no location. */
  function NewWithValue(rawType: Nullable<BoundType>, rawValue: Nullable<Expression>)
    : (r: Result<FrameBound, NullPointerException>)
    ensures r.Err? <==> rawType.Null?
    ensures r.Err? ==> r.error == TypeIsNull
    ensures r.Ok? ==> r.value.location == Empty && r.value.boundType == rawType.get
    ensures r.Ok? ==> r.value.value == (if rawValue.Null? then Empty else Of(rawValue.get))
  {
    Init(Empty, rawType, rawValue)
  }

  /** `new FrameBound(location, type, value)`: Optional.of(location) throws
      first when the location is null. */
  function NewAtWithValue(location: Nullable<NodeLocation>, rawType: Nullable<BoundType>, rawValue: Nullable<Expression>)
    : (r: Result<FrameBound, NullPointerException>)
    ensures r.Err? <==> location.Null? || rawType.Null?
    ensures r.Err? ==> r.error == (if location.Null? then LocationIsNull else TypeIsNull)
    ensures r.Ok? ==> r.value.location == Of(location.get) && r.value.boundType == rawType.get
    ensures r.Ok? ==> r.value.value == (if rawValue.Null? then Empty else Of(rawValue.get))
  {
    match location
    case Null => Err(LocationIsNull)
    case Ref(l) => Init(Of(l), rawType, rawValue)
  }

  // Visitor dispatch.

  /** The part of an AstVisitor<R, C> that a frame bound calls. */
  datatype AstVisitor<R, -C> = AstVisitor(visitFrameBound: (FrameBound, C) -> R)

  /** accept(visitor, context): hands itself and the context to the visitor's
      frame-bound handler and returns what it returns; a null visitor throws. */
  function Accept<R, C>(b: FrameBound, visitor: Nullable<AstVisitor<R, C>>, context: C): (r: Result<R, NullPointerException>)
    ensures r.Err? <==> visitor.Null?
    ensures r.Err? ==> r.error == VisitorIsNull
    ensures r.Ok? ==> r.value == visitor.get.visitFrameBound(b, context)
  {
    match visitor
    case Null => Err(VisitorIsNull)
    case Ref(v) => Ok(v.visitFrameBound(b, context))
  }

  // Equality, hashing and rendering, over type and value only.

  /** equals between two frame bounds: Objects.equals on the types (enum
      identity) and on the Optional values, which compares the expressions by
      identity or by `exprEquals`, Expression's own equals. */
  function Equals(a: FrameBound, b: FrameBound, exprEquals: (Expression, Expression) -> bool): (r: bool)
    ensures r ==> a.boundType == b.boundType && a.value.Of? == b.value.Of?
    ensures a.boundType == b.boundType && a.value == b.value ==> r
  {
    a.boundType == b.boundType && OptionalEquals(a.value, b.value, exprEquals)
  }

  /** hashCode: Objects.hash(type, value), given the enum constants' hashes
      and Expression's hashCode. */
  function HashCode(b: FrameBound, typeHash: BoundType -> int32, exprHash: Expression -> int32): (r: int32)
    ensures r == ToInt32(961 + 31 * typeHash(b.boundType) as int + OptionalHashCode(b.value, exprHash) as int)
  {
    ObjectsHash2(typeHash(b.boundType), OptionalHashCode(b.value, exprHash))
  }

  /** toString: toStringHelper(this).add("type", type).add("value", value),
      given Expression's toString. */
  function ToString(b: FrameBound, show: Expression -> string): (r: string)
    ensures |r| == 25 + |TypeName(b.boundType)| + |OptionalToString(b.value, show)|
  {
    var name, text := TypeName(b.boundType), OptionalToString(b.value, show);
    HelperFieldsOfTwo(("type", name), ("value", text));
    ToStringHelper("FrameBound", [("type", name), ("value", text)])
  }
}
