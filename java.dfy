/** The parts of the Java platform and of Guava that the frame-bound node
    leans on: references that may be null, java.util.Optional, 32-bit int
    arithmetic, java.util.Objects.hash and MoreObjects.toStringHelper.
    Only their documented behaviour is modelled, and only as far as the
    node uses it. */
module Java {

  /** A Java reference argument, which the caller may pass as null. */
  datatype Nullable<+T> = Null | Ref(get: T)

  /** java.util.Optional: either Optional.empty() or Optional.of(x); it never holds null. */
  datatype Optional<+T> = Empty | Of(get: T)

  /** The outcome of a Java call that either returns or throws. */
  datatype Result<+T, +E> = Ok(value: T) | Err(error: E)

  /** Optional.ofNullable: a null reference becomes the empty Optional. */
  function OfNullable<T>(x: Nullable<T>): (r: Optional<T>)
    ensures r.Empty? <==> x.Null?
    ensures x.Ref? ==> r.get == x.get
  {
    match x
    case Null => Empty
    case Ref(v) => Of(v)
  }

  /** Java's `int`. */
  newtype int32 = x: int | -0x8000_0000 <= x < 0x8000_0000

  const TwoTo32: int := 0x1_0000_0000

  /** The int that Java's two's-complement arithmetic leaves for the exact value `x`:
      the only int32 congruent to `x` modulo 2^32. */
  function ToInt32(x: int): (r: int32)
    ensures (r as int - x) % TwoTo32 == 0
  {
    var m := x % TwoTo32;
    if m < 0x8000_0000 then m as int32 else (m - TwoTo32) as int32
  }

  /** Optional.hashCode: the hash of the held value, or 0 when empty. */
  function OptionalHashCode<T>(o: Optional<T>, hashCode: T -> int32): (h: int32)
    ensures o.Empty? ==> h == 0
    ensures o.Of? ==> h == hashCode(o.get)
  {
    match o
    case Empty => 0
    case Of(x) => hashCode(x)
  }

  /** Objects.hash(a, b), which is Arrays.hashCode of the two-element array:
      starting from 1, each element's hash is added to 31 times the running
      value, in int arithmetic. Wrapping after every step gives the int that
      the exact value 31 * (31 + ha) + hb wraps to. */
  function ObjectsHash2(ha: int32, hb: int32): (h: int32)
    ensures h == ToInt32(961 + 31 * ha as int + hb as int)
  {
    var afterFirst := ToInt32(31 * 1 + ha as int);
    ToInt32(31 * afterFirst as int + hb as int)
  }

  /** Optional.equals: both empty, or both present with held values that are
      Objects.equals -- the same reference, or equal by the held type's own
      `equals`. A present value is never equal to the empty Optional: Java
      asks `x.equals(null)` there, which Object's contract makes false. */
  function OptionalEquals<T(==)>(a: Optional<T>, b: Optional<T>, equals: (T, T) -> bool): (r: bool)
    ensures r <==> (a.Empty? && b.Empty?) || (a.Of? && b.Of? && (a.get == b.get || equals(a.get, b.get)))
  {
    match (a, b)
    case (Empty, Empty) => true
    case (Of(x), Of(y)) => x == y || equals(x, y)
    case _ => false
  }

  /** Optional.toString: "Optional.empty" or "Optional[" + the held value's toString + "]". */
  function OptionalToString<T>(o: Optional<T>, show: T -> string): string
  {
    match o
    case Empty => "Optional.empty"
    case Of(x) => "Optional[" + show(x) + "]"
  }

  /** The text of the fields of a Guava ToStringHelper: `name=value` for each
      field added, in order, separated by ", ". */
  function HelperFields(fields: seq<(string, string)>): string
    decreases |fields|
  {
    if |fields| == 0 then ""
    else if |fields| == 1 then fields[0].0 + "=" + fields[0].1
    else fields[0].0 + "=" + fields[0].1 + ", " + HelperFields(fields[1..])
  }

  /** The fields of a two-field ToStringHelper. */
  lemma HelperFieldsOfTwo(f: (string, string), g: (string, string))
    ensures HelperFields([f, g]) == f.0 + "=" + f.1 + ", " + (g.0 + "=" + g.1)
  {
    assert [f, g][1..] == [g];
  }

  /** MoreObjects.toStringHelper(className), its fields added in order, then
      toString(): `ClassName{name=value, name=value}`. */
  function ToStringHelper(className: string, fields: seq<(string, string)>): string
  {
    className + "{" + HelperFields(fields) + "}"
  }

  // Relations that Java's `equals` contract asks of an implementation.

  ghost predicate Reflexive<T(!new)>(rel: (T, T) -> bool) {
    forall x :: rel(x, x)
  }

  ghost predicate Symmetric<T(!new)>(rel: (T, T) -> bool) {
    forall x, y :: rel(x, y) ==> rel(y, x)
  }

  ghost predicate Transitive<T(!new)>(rel: (T, T) -> bool) {
    forall x, y, z :: rel(x, y) && rel(y, z) ==> rel(x, z)
  }

  ghost predicate EquivalenceRelation<T(!new)>(rel: (T, T) -> bool) {
    Reflexive(rel) && Symmetric(rel) && Transitive(rel)
  }

  /** The `hashCode` contract: objects equal by `equals` have the same hash. */
  ghost predicate HashAgreesWith<T(!new)>(hashCode: T -> int32, equals: (T, T) -> bool) {
    forall x, y :: equals(x, y) ==> hashCode(x) == hashCode(y)
  }
}
