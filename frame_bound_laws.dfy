/** What the frame-bound node promises: construction keeps what it is given
    and fails only on null references, equality and hashing look at type and
    value only and are consistent with each other, dispatch returns the
    handler's result, and the rendering exposes type and value. */
module FrameBoundLaws {
  import opened Java
  import opened Tree

  // Construction.

  /** Leaving the value out and passing null for it build the same node, with
      or without a location. */
  lemma OmittedValueIsNullValue(location: Nullable<NodeLocation>, rawType: Nullable<BoundType>)
    ensures New(rawType) == NewWithValue(rawType, Null)
    ensures NewAt(location, rawType) == NewAtWithValue(location, rawType, Null)
    ensures New(rawType).Ok? ==> New(rawType).value.value == Empty
  {
  }

  /** A null type is rejected by every constructor form, whatever else is passed. */
  lemma NullTypeAlwaysFails(location: Nullable<NodeLocation>, rawValue: Nullable<Expression>)
    ensures New(Null).Err? && NewWithValue(Null, rawValue).Err?
    ensures NewAt(location, Null).Err? && NewAtWithValue(location, Null, rawValue).Err?
    ensures New(Null).error == TypeIsNull && NewWithValue(Null, rawValue).error == TypeIsNull
  {
  }

  /** Construction does not tie the type to the value: every type, with or
      without a value, gives a node holding exactly what was passed. */
  lemma ConstructionIsPermissive(t: BoundType, e: Expression, l: NodeLocation)
    ensures NewWithValue(Ref(t), Ref(e)) == Ok(FrameBound(Empty, t, Of(e)))
    ensures NewAtWithValue(Ref(l), Ref(t), Ref(e)) == Ok(FrameBound(Of(l), t, Of(e)))
    ensures New(Ref(t)) == Ok(FrameBound(Empty, t, Empty))
    ensures NewAt(Ref(l), Ref(t)) == Ok(FrameBound(Of(l), t, Empty))
  {
  }

  // Equality.

  /** Equality does not look at locations. */
  lemma EqualsIgnoresLocation(a: FrameBound, b: FrameBound, la: Optional<NodeLocation>, lb: Optional<NodeLocation>,
                              exprEquals: (Expression, Expression) -> bool)
    ensures Equals(a.(location := la), b.(location := lb), exprEquals) == Equals(a, b, exprEquals)
  {
  }

  /** Two bounds are unequal exactly when their types differ, when only one has
      a value, or when both have values that are neither the same expression
      nor equal by Expression's equals. */
  lemma NotEqualsExactly(a: FrameBound, b: FrameBound, exprEquals: (Expression, Expression) -> bool)
    ensures !Equals(a, b, exprEquals) <==>
      || a.boundType != b.boundType
      || a.value.Of? != b.value.Of?
      || (a.value.Of? && b.value.Of? && a.value.get != b.value.get && !exprEquals(a.value.get, b.value.get))
  {
  }

  /** Equality is reflexive for any Expression equals, because Optional.equals
      compares identical references as equal; so the `this == obj` shortcut of
      equals never changes its answer. */
  lemma EqualsReflexive(a: FrameBound, exprEquals: (Expression, Expression) -> bool)
    ensures Equals(a, a, exprEquals)
  {
  }

  lemma EqualsSymmetric(a: FrameBound, b: FrameBound, exprEquals: (Expression, Expression) -> bool)
    requires Symmetric(exprEquals)
    ensures Equals(a, b, exprEquals) ==> Equals(b, a, exprEquals)
  {
  }

  lemma EqualsTransitive(a: FrameBound, b: FrameBound, c: FrameBound, exprEquals: (Expression, Expression) -> bool)
    requires Transitive(exprEquals)
    ensures Equals(a, b, exprEquals) && Equals(b, c, exprEquals) ==> Equals(a, c, exprEquals)
  {
  }

  /** When Expression's equals is an equivalence relation, so is FrameBound's. */
  lemma EqualsIsEquivalence(exprEquals: (Expression, Expression) -> bool)
    requires EquivalenceRelation(exprEquals)
    ensures EquivalenceRelation((a: FrameBound, b: FrameBound) => Equals(a, b, exprEquals))
  {
    var eq := (a: FrameBound, b: FrameBound) => Equals(a, b, exprEquals);
    forall a: FrameBound ensures eq(a, a) {
      EqualsReflexive(a, exprEquals);
    }
    forall a: FrameBound, b: FrameBound | eq(a, b) ensures eq(b, a) {
      EqualsSymmetric(a, b, exprEquals);
    }
    forall a: FrameBound, b: FrameBound, c: FrameBound | eq(a, b) && eq(b, c) ensures eq(a, c) {
      EqualsTransitive(a, b, c, exprEquals);
    }
  }

  // Hashing.

  /** The hash depends on type and value only. */
  lemma HashCodeIgnoresLocation(b: FrameBound, l: Optional<NodeLocation>,
                                typeHash: BoundType -> int32, exprHash: Expression -> int32)
    ensures HashCode(b.(location := l), typeHash, exprHash) == HashCode(b, typeHash, exprHash)
  {
  }

  /** Equal bounds have equal hashes, locations notwithstanding, as long as
      Expression's hashCode agrees with its equals. */
  lemma HashCodeAgreesWithEquals(a: FrameBound, b: FrameBound, exprEquals: (Expression, Expression) -> bool,
                                 typeHash: BoundType -> int32, exprHash: Expression -> int32)
    requires HashAgreesWith(exprHash, exprEquals)
    ensures Equals(a, b, exprEquals) ==> HashCode(a, typeHash, exprHash) == HashCode(b, typeHash, exprHash)
  {
  }

  /** The same, as the whole hashCode contract of FrameBound. */
  lemma HashCodeContract(exprEquals: (Expression, Expression) -> bool,
                         typeHash: BoundType -> int32, exprHash: Expression -> int32)
    requires HashAgreesWith(exprHash, exprEquals)
    ensures HashAgreesWith((b: FrameBound) => HashCode(b, typeHash, exprHash),
                           (a: FrameBound, b: FrameBound) => Equals(a, b, exprEquals))
  {
    forall a: FrameBound, b: FrameBound | Equals(a, b, exprEquals)
      ensures HashCode(a, typeHash, exprHash) == HashCode(b, typeHash, exprHash)
    {
      HashCodeAgreesWithEquals(a, b, exprEquals, typeHash, exprHash);
    }
  }

  // Visitor dispatch.

  /** accept returns the frame-bound handler's result unchanged, for every context. */
  lemma AcceptReturnsHandlerResult<R, C>(b: FrameBound, visit: (FrameBound, C) -> R, context: C)
    ensures Accept(b, Ref(AstVisitor(visit)), context) == Ok(visit(b, context))
  {
  }

  /** A handler that always answers `x` makes accept answer `x`, whatever the context. */
  lemma AcceptConstantHandler<R, C>(b: FrameBound, x: R, c1: C, c2: C)
    ensures Accept(b, Ref(AstVisitor((_: FrameBound, _: C) => x)), c1) == Ok(x)
    ensures Accept(b, Ref(AstVisitor((_: FrameBound, _: C) => x)), c1)
         == Accept(b, Ref(AstVisitor((_: FrameBound, _: C) => x)), c2)
  {
  }

  // Rendering.

  const Prefix: string := "FrameBound{type="
  const Separator: string := ", value="

  lemma AppendAssociative<T>(a: seq<T>, b: seq<T>, c: seq<T>)
    ensures a + (b + c) == a + b + c
  {
  }

  /** The rendering lays out the type's name and the Optional's text. */
  lemma {:induction false} ToStringLayout(b: FrameBound, show: Expression -> string)
    ensures ToString(b, show) == Prefix + TypeName(b.boundType) + Separator + OptionalToString(b.value, show) + "}"
  {
    var name, text := TypeName(b.boundType), OptionalToString(b.value, show);
    var typeIs, valueIs := "type" + "=", "value" + "=";
    HelperFieldsOfTwo(("type", name), ("value", text));
    var fields := typeIs + name + ", " + (valueIs + text);
    assert ToString(b, show) == "FrameBound" + "{" + fields + "}";
    AppendAssociative(typeIs + name + ", ", valueIs, text);
    AppendAssociative(typeIs + name, ", ", valueIs);
    assert fields == typeIs + name + (", " + valueIs) + text;
    AppendAssociative(typeIs, name, ", " + valueIs);
    AppendAssociative("FrameBound" + "{", typeIs + name + (", " + valueIs), text);
    AppendAssociative("FrameBound" + "{", typeIs + name, ", " + valueIs);
    AppendAssociative("FrameBound" + "{", typeIs, name);
    assert "FrameBound" + "{" + typeIs == Prefix;
    assert ", " + valueIs == Separator;
  }

  /** The rendering does not show the location. */
  lemma ToStringIgnoresLocation(b: FrameBound, l: Optional<NodeLocation>, show: Expression -> string)
    ensures ToString(b.(location := l), show) == ToString(b, show)
  {
  }

  /** The type's name appears right after the prefix, and the Optional's text
      just before the closing brace. */
  lemma ToStringShowsTypeAndValue(b: FrameBound, show: Expression -> string)
    ensures var s, name, text := ToString(b, show), TypeName(b.boundType), OptionalToString(b.value, show);
      && |s| == |Prefix| + |name| + |Separator| + |text| + 1
      && s[|Prefix|..|Prefix| + |name|] == name
      && s[|s| - 1 - |text|..|s| - 1] == text
  {
    ToStringLayout(b, show);
    var name, text := TypeName(b.boundType), OptionalToString(b.value, show);
    var s := ToString(b, show);
    assert s == Prefix + name + Separator + text + "}";
    assert s[|Prefix|..|Prefix| + |name|] == name;
    assert s[|s| - 1 - |text|..|s| - 1] == text;
  }

  /** An index below both names' lengths at which two different type names differ. */
  function NameDifference(t1: BoundType, t2: BoundType): (k: nat)
    requires t1 != t2
    ensures k < |TypeName(t1)| && k < |TypeName(t2)| && TypeName(t1)[k] != TypeName(t2)[k]
  {
    if {t1, t2} == {UnboundedPreceding, UnboundedFollowing} then 10
    else 0
  }

  /** Bounds of different types render differently, so the rendering
      determines the type. */
  lemma ToStringDeterminesType(a: FrameBound, b: FrameBound, show: Expression -> string)
    ensures ToString(a, show) == ToString(b, show) ==> a.boundType == b.boundType
  {
    if a.boundType != b.boundType {
      ToStringLayout(a, show);
      ToStringLayout(b, show);
      var k := NameDifference(a.boundType, b.boundType);
      var sa, sb := ToString(a, show), ToString(b, show);
      assert sa[|Prefix| + k] == TypeName(a.boundType)[k];
      assert sb[|Prefix| + k] == TypeName(b.boundType)[k];
    }
  }

  /** Two renderings that read the same show the same value text. */
  lemma ToStringDeterminesValue(a: FrameBound, b: FrameBound, show: Expression -> string)
    ensures ToString(a, show) == ToString(b, show) ==> OptionalToString(a.value, show) == OptionalToString(b.value, show)
  {
    if ToString(a, show) == ToString(b, show) {
      ToStringDeterminesType(a, b, show);
      ToStringLayout(a, show);
      ToStringLayout(b, show);
      var head := Prefix + TypeName(a.boundType) + Separator;
      var s := ToString(a, show);
      assert s[|head|..|s| - 1] == OptionalToString(a.value, show);
      assert s[|head|..|s| - 1] == OptionalToString(b.value, show);
    }
  }

  /** When Expression's toString tells expressions apart, the rendering
      determines the value too. */
  lemma ToStringDeterminesValueUnderInjectiveShow(a: FrameBound, b: FrameBound, show: Expression -> string)
    requires forall x, y :: show(x) == show(y) ==> x == y
    ensures ToString(a, show) == ToString(b, show) ==> a.value == b.value
  {
    ToStringDeterminesValue(a, b, show);
    var ta, tb := OptionalToString(a.value, show), OptionalToString(b.value, show);
    if a.value.Of? && b.value.Of? {
      assert ta[9..|ta| - 1] == show(a.value.get);
      assert tb[9..|tb| - 1] == show(b.value.get);
    } else if a.value.Of? != b.value.Of? {
      assert ta[8] != tb[8];
    }
  }

  // Concrete scenarios.

  /** Two separately built `FOLLOWING e` bounds, with equal expressions, are
      equal and hash alike, and the rendering names FOLLOWING. */
  lemma SameFollowingBounds(e1: Expression, e2: Expression, exprEquals: (Expression, Expression) -> bool,
                            typeHash: BoundType -> int32, exprHash: Expression -> int32, show: Expression -> string)
    requires HashAgreesWith(exprHash, exprEquals) && exprEquals(e1, e2)
    ensures NewWithValue(Ref(Following), Ref(e1)).Ok? && NewWithValue(Ref(Following), Ref(e2)).Ok?
    ensures var a, b := NewWithValue(Ref(Following), Ref(e1)).value, NewWithValue(Ref(Following), Ref(e2)).value;
      && Equals(a, b, exprEquals)
      && HashCode(a, typeHash, exprHash) == HashCode(b, typeHash, exprHash)
      && ToString(a, show)[16..25] == "FOLLOWING"
  {
    var a := NewWithValue(Ref(Following), Ref(e1)).value;
    ToStringShowsTypeAndValue(a, show);
    var name := TypeName(a.boundType);
    assert name == "FOLLOWING" && |Prefix| == 16;
    assert ToString(a, show)[|Prefix|..|Prefix| + |name|] == name;
  }

  /** `CURRENT ROW` and `UNBOUNDED FOLLOWING` bounds are unequal. */
  lemma CurrentRowIsNotUnboundedFollowing(exprEquals: (Expression, Expression) -> bool)
    ensures Equals(New(Ref(CurrentRow)).value, New(Ref(UnboundedFollowing)).value, exprEquals) == false
  {
  }

  /** A located `PRECEDING e` equals an unlocated one, for any Expression equals. */
  lemma LocatedEqualsUnlocated(l: NodeLocation, e: Expression, exprEquals: (Expression, Expression) -> bool)
    ensures Equals(NewAtWithValue(Ref(l), Ref(Preceding), Ref(e)).value, NewWithValue(Ref(Preceding), Ref(e)).value, exprEquals)
  {
  }
}
