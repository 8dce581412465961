# FrameBound: one endpoint of a window frame clause

This project models `FrameBound`, the ksql parser's AST leaf for one endpoint
of a window frame such as the `3 PRECEDING` or the `CURRENT ROW` of
`ROWS BETWEEN 3 PRECEDING AND CURRENT ROW`. A frame bound holds a type from a
closed five-way enum, an optional offset expression, and an optional source
location. The location is stored but does not affect equality, hashing or
rendering.

Files:

- `java.dfy` (module `Java`) holds the parts of the Java platform and of Guava
  that the node uses, stated as their documentation describes them:
  - `Nullable` for a reference argument that may be null;
  - `Optional` for `java.util.Optional`, with its `ofNullable`, `equals`,
    `hashCode` and `toString`;
  - `int32` and two's-complement narrowing;
  - `Objects.hash` of two values;
  - `MoreObjects.toStringHelper`;
  - the equivalence and hash-agreement laws of Java's `equals`/`hashCode` contract.
- `frame_bound.dfy` (module `Tree`) holds the node:
  - the `BoundType` enum and the `FrameBound` datatype;
  - the two private constructors (`Init`, `InitWithoutValue`) and the four
    public ones (`New`, `NewAt`, `NewWithValue`, `NewAtWithValue`);
  - `Accept`, `Equals`, `HashCode` and `ToString`.
  - `getType()` and `getValue()` are the datatype's `boundType` and `value` fields.
- `frame_bound_laws.dfy` (module `FrameBoundLaws`) holds the lemmas.

Collaborators are opaque:

- `Expression` and `NodeLocation` are opaque types. Dafny's `==` on them stands for
  Java reference identity.
- `Expression.equals`, `Expression.hashCode` and `Expression.toString` are
  passed in as functions.
- The hash codes of the enum constants are passed in too. They are identity
  hashes, fixed within a run but not across runs.
- The visitor is `AstVisitor`, a record holding the one handler a frame bound
  calls, `visitFrameBound`.
- A thrown `NullPointerException` is the `Err` side of a `Result`.

Failures and names, as the code has them:

- A null type throws `NullPointerException("type is null")` from
  `requireNonNull` in the private constructor.
- A null visitor throws `NullPointerException` when `accept` calls its handler.
- The two public constructors that take a location wrap it with
  `Optional.of`. On a null location this throws `NullPointerException`
  before the type is checked. `NewAt` and `NewAtWithValue` model that.
- The rendering writes the type as the enum constant's name, such as
  `FOLLOWING` or `CURRENT_ROW`.

## Model

| member | source | states |
|---|---|---|
| Tree.TypeName | ksql-parser/src/main/java/io/confluent/ksql/parser/tree/FrameBound.java:26-32 | each enum constant's name has at least nine characters and contains no comma |
| Tree.Init | ksql-parser/src/main/java/io/confluent/ksql/parser/tree/FrameBound.java:57-64 | fails exactly when the type is null, with the "type is null" exception; otherwise it keeps the location and the type, and the value is present exactly when a non-null value was passed, holding that value |
| Tree.InitWithoutValue | ksql-parser/src/main/java/io/confluent/ksql/parser/tree/FrameBound.java:49-51 | fails exactly when the type is null; otherwise it keeps location and type and has no value |
| Tree.New | ksql-parser/src/main/java/io/confluent/ksql/parser/tree/FrameBound.java:37-39 | fails exactly when the type is null; otherwise the bound has no location, the given type and no value |
| Tree.NewAt | ksql-parser/src/main/java/io/confluent/ksql/parser/tree/FrameBound.java:41-43 | fails exactly when the location or the type is null, the location taking precedence; otherwise it holds that location and type and no value |
| Tree.NewWithValue | ksql-parser/src/main/java/io/confluent/ksql/parser/tree/FrameBound.java:45-47 | fails exactly when the type is null; otherwise it has no location, the given type, and the value made present exactly when non-null |
| Tree.NewAtWithValue | ksql-parser/src/main/java/io/confluent/ksql/parser/tree/FrameBound.java:53-55 | fails exactly when the location or the type is null, the location first; otherwise it stores location, type and normalised value |
| Tree.Accept | ksql-parser/src/main/java/io/confluent/ksql/parser/tree/FrameBound.java:74-77 | fails exactly when the visitor is null; otherwise returns exactly the visitor's frame-bound handler applied to this bound and the context |
| FrameBoundLaws.OmittedValueIsNullValue | ksql-parser/src/main/java/io/confluent/ksql/parser/tree/FrameBound.java:37-63 | leaving the value out and passing null build identical results, with or without a location, and the value is then absent |
| FrameBoundLaws.NullTypeAlwaysFails | ksql-parser/src/main/java/io/confluent/ksql/parser/tree/FrameBound.java:37-62 | every one of the four public forms fails on a null type, whatever value or location is passed |
| FrameBoundLaws.ConstructionIsPermissive | ksql-parser/src/main/java/io/confluent/ksql/parser/tree/FrameBound.java:57-64 | every type, CURRENT_ROW included, may be built with or without a value, and the result holds exactly the arguments |
| Tree.Equals | ksql-parser/src/main/java/io/confluent/ksql/parser/tree/FrameBound.java:80-90 | true only when the types agree and both or neither have a value, and true whenever type and value are identical; its full contract is NotEqualsExactly (the exact if-and-only-if) and EqualsIsEquivalence |
| Tree.HashCode | ksql-parser/src/main/java/io/confluent/ksql/parser/tree/FrameBound.java:93-95 | `Objects.hash(type, value)`: the int that 31 * (31 + type hash) + value hash wraps to, the value hash being 0 when absent; agreement with equals is HashCodeContract |
| Tree.ToString | ksql-parser/src/main/java/io/confluent/ksql/parser/tree/FrameBound.java:97-103 | the rendering's length is the fixed text plus the type name and the value text; its layout and what it determines are ToStringLayout, ToStringDeterminesType and ToStringDeterminesValue |
| FrameBoundLaws.EqualsIgnoresLocation | ksql-parser/src/main/java/io/confluent/ksql/parser/tree/FrameBound.java:80-90 | replacing either bound's location by any other leaves equality unchanged |
| FrameBoundLaws.NotEqualsExactly | ksql-parser/src/main/java/io/confluent/ksql/parser/tree/FrameBound.java:87-89 | two bounds are unequal if and only if the types differ, or exactly one has a value, or both values are neither the same expression nor equal by Expression's equals |
| FrameBoundLaws.EqualsReflexive | ksql-parser/src/main/java/io/confluent/ksql/parser/tree/FrameBound.java:80-90 | every bound equals itself, whatever Expression's equals does, so the `this == obj` shortcut never changes the answer |
| FrameBoundLaws.EqualsSymmetric | ksql-parser/src/main/java/io/confluent/ksql/parser/tree/FrameBound.java:87-89 | equality is symmetric when Expression's equals is |
| FrameBoundLaws.EqualsTransitive | ksql-parser/src/main/java/io/confluent/ksql/parser/tree/FrameBound.java:87-89 | equality is transitive when Expression's equals is |
| FrameBoundLaws.EqualsIsEquivalence | ksql-parser/src/main/java/io/confluent/ksql/parser/tree/FrameBound.java:80-90 | if Expression's equals is an equivalence relation, FrameBound's equals is one on all bounds |
| Java.ObjectsHash2 | ksql-parser/src/main/java/io/confluent/ksql/parser/tree/FrameBound.java:94 | `Objects.hash` of two hashes, wrapped step by step in int arithmetic, is the int that 31 * (31 + first) + second wraps to |
| FrameBoundLaws.HashCodeIgnoresLocation | ksql-parser/src/main/java/io/confluent/ksql/parser/tree/FrameBound.java:93-95 | the hash does not change when the location does |
| FrameBoundLaws.HashCodeAgreesWithEquals | ksql-parser/src/main/java/io/confluent/ksql/parser/tree/FrameBound.java:80-95 | equal bounds have equal hashes, provided Expression's hashCode agrees with its equals |
| FrameBoundLaws.HashCodeContract | ksql-parser/src/main/java/io/confluent/ksql/parser/tree/FrameBound.java:79-95 | FrameBound's hashCode agrees with its equals on all bounds, given the same of Expression |
| FrameBoundLaws.AcceptReturnsHandlerResult | ksql-parser/src/main/java/io/confluent/ksql/parser/tree/FrameBound.java:74-77 | accept with any handler and context returns that handler's result for this bound and context, unwrapped by nothing |
| FrameBoundLaws.AcceptConstantHandler | ksql-parser/src/main/java/io/confluent/ksql/parser/tree/FrameBound.java:74-77 | a handler that always answers x makes accept answer x, and the same answer for any two contexts |
| FrameBoundLaws.ToStringLayout | ksql-parser/src/main/java/io/confluent/ksql/parser/tree/FrameBound.java:97-103 | the rendering is `FrameBound{type=` + the type's name + `, value=` + the Optional's text + `}` |
| FrameBoundLaws.ToStringIgnoresLocation | ksql-parser/src/main/java/io/confluent/ksql/parser/tree/FrameBound.java:97-103 | the rendering does not change when the location does |
| FrameBoundLaws.ToStringShowsTypeAndValue | ksql-parser/src/main/java/io/confluent/ksql/parser/tree/FrameBound.java:97-103 | the rendering contains the type's name right after the prefix and the Optional's text right before the closing brace, and has exactly their combined length plus the fixed text |
| FrameBoundLaws.ToStringDeterminesType | ksql-parser/src/main/java/io/confluent/ksql/parser/tree/FrameBound.java:97-103 | bounds of different types never render alike |
| FrameBoundLaws.ToStringDeterminesValue | ksql-parser/src/main/java/io/confluent/ksql/parser/tree/FrameBound.java:97-103 | bounds that render alike show the same value text |
| FrameBoundLaws.ToStringDeterminesValueUnderInjectiveShow | ksql-parser/src/main/java/io/confluent/ksql/parser/tree/FrameBound.java:97-103 | when Expression's toString tells expressions apart, bounds that render alike have the same value |
| FrameBoundLaws.SameFollowingBounds | ksql-parser/src/main/java/io/confluent/ksql/parser/tree/FrameBound.java:45-103 | two separately built FOLLOWING bounds with equal expressions are equal, hash alike, and render with `FOLLOWING` |
| FrameBoundLaws.CurrentRowIsNotUnboundedFollowing | ksql-parser/src/main/java/io/confluent/ksql/parser/tree/FrameBound.java:37-90 | a CURRENT_ROW bound and an UNBOUNDED_FOLLOWING bound are unequal |
| FrameBoundLaws.LocatedEqualsUnlocated | ksql-parser/src/main/java/io/confluent/ksql/parser/tree/FrameBound.java:45-90 | a located PRECEDING bound equals an unlocated one with the same expression, for any Expression equals |

## Left out

- The `obj == null` and `getClass() != obj.getClass()` tests in `equals`: the
  model only compares two frame bounds, so it cannot pass null or an object of
  another class.
- The `this == obj` shortcut in `equals` is not written into `Equals`.
  `EqualsReflexive` proves that it never changes the answer.
- The `Node` base class is not part of this model. The model assumes that its
  constructor only stores the location it is given.
- The concrete hash codes of the enum constants and of expressions: they are
  identity or collaborator hashes, so the model takes them as parameters.
- `Expression`'s structure, its `equals`, `hashCode` and `toString`: they are a
  collaborator's, so the model takes them as parameters. The model assumes
  Object's rule that `x.equals(null)` is false, which Optional.equals relies
  on when only one side holds a value.
- The rest of `AstVisitor`: only its frame-bound handler is modelled.
  Exceptions thrown by the handler pass through `accept` unchanged in Java. In
  the model, a handler is a total function whose result type may itself carry
  such errors.
- Guava's special handling of array-valued fields in `toStringHelper`: the
  node never adds an array.
- Thread safety: the node is immutable, and the model has no concurrency.
