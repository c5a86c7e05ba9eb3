/**
 * The runtime values the comparer walks over, on an abstract heap.
 *
 * Every non-null value is a reference to a heap object (boxed numbers and
 * strings included), so reference identity is identity of heap ids. What the
 * comparer learns about a type by reflection is given here as an abstract
 * description of the type (TypeDesc), fixed per type and independent of the
 * instance.
 */
module Model {

  datatype Option<+T> = None | Some(value: T) {
    function GetOr(default: T): T {
      if Some? then value else default
    }
  }

  type Id = nat

  /**
   * The visited-set key of a pair of objects: the two identities as an
   * unordered pair, so (a, b) and (b, a) are the same key.
   */
  function VisitKey(a: Id, b: Id): (k: (Id, Id))
    ensures k.0 <= k.1
    ensures (k.0 == a && k.1 == b) || (k.0 == b && k.1 == a)
  {
    if a <= b then (a, b) else (b, a)
  }

  /** A reference-or-null, the `object?` of the comparer. */
  datatype Value = Null | Ref(id: Id)

  /** The coarse kind of a runtime type, as far as the type rules look at it. */
  datatype TypeKind =
    | Primitive             // bool, char and the built-in numeric kinds
    | Enum
    | String
    | Decimal
    | DateTime
    | DateTimeOffset
    | TimeSpan
    | Guid
    | Struct                // any other value type (Nullable<T> included)
    | WeakReference         // System.WeakReference
    | GenericWeakReference  // System.WeakReference<T>
    | Class                 // any other reference type

  /** The policy triple the member list of a type is computed under. */
  datatype MemberPolicy = MemberPolicy(includeNonPublic: bool, includeFields: bool, honorJsonIgnore: bool)

  /**
   * The description of one runtime type.
   *  - nullableOf: the kind of T when the type is Nullable<T>;
   *  - comparable: the type implements IComparable;
   *  - enumerable: the type implements IEnumerable;
   *  - enumerableProps: names of its public instance properties whose declared
   *    type is IEnumerable;
   *  - members: the names of the comparable members under each policy, already
   *    filtered (a policy missing from the map has no comparable members).
   */
  datatype TypeDesc = TypeDesc(
    fullName: string,
    name: string,
    kind: TypeKind,
    nullableOf: Option<TypeKind>,
    comparable: bool,
    enumerable: bool,
    enumerableProps: set<string>,
    members: map<MemberPolicy, seq<string>>)

  /** The part of an object its Equals override compares. */
  datatype Payload = Scalar(bits: int) | Chars(s: string)

  /** The outcome of reading one member through its getter. */
  datatype Fetch = Read(value: Value) | Throws

  /**
   * One heap object: its runtime type, the payload its Equals looks at, the
   * result of its ToString (for DateTime and DateTimeOffset the round-trip "O"
   * format; None when ToString returns null), the elements it enumerates when
   * it is itself a collection, and what each member getter yields on it.
   */
  datatype Obj = Obj(
    tag: TypeDesc,
    value: Payload,
    text: Option<string>,
    items: seq<Value>,
    fields: map<string, Fetch>)

  type Heap = map<Id, Obj>

  predicate ValidValue(h: Heap, v: Value) {
    v.Ref? ==> v.id in h
  }

  /** No object of the heap refers outside it (the runtime never dangles). */
  ghost predicate Closed(h: Heap) {
    && (forall id, k :: id in h && 0 <= k < |h[id].items| ==> ValidValue(h, h[id].items[k]))
    && (forall id, name :: id in h && name in h[id].fields && h[id].fields[name].Read? ==>
          ValidValue(h, h[id].fields[name].value))
  }

  /** What a member getter yields on an object; a member the object lacks reads as a failing getter. */
  function GetMember(o: Obj, name: string): Fetch {
    if name in o.fields then o.fields[name] else Throws
  }

  /** An underlying value of the depth-behaviour enum other than the three named ones (0, 1, 2). */
  type OtherCode = c: int | c < 0 || 2 < c witness -1

  /** The action taken once the depth limit is exceeded; OutOfRange is any unnamed enum value. */
  datatype DepthBehavior = TreatAsEqual | TreatAsDifferent | LogDifference | OutOfRange(code: OtherCode)

  /** The options record handed to the public entry points. */
  datatype CompareOptions = CompareOptions(
    maxDepth: Option<int>,
    onMaxDepthReached: DepthBehavior,
    customSimpleTypePredicate: Option<TypeDesc -> bool>)

  /** The defaults: maximum depth 20, treat a deeper node as different, no custom predicate. */
  const DefaultOptions: CompareOptions := CompareOptions(Some(20), TreatAsDifferent, None)

  /** What one comparison call is configured with (the read-only part of its context). */
  datatype Config = Config(
    publicOnly: bool,
    propertiesOnly: bool,
    jsonIgnore: bool,
    maxDepth: Option<int>,
    onMaxDepthReached: DepthBehavior,
    custom: Option<TypeDesc -> bool>)

  /** The key the member cache is looked up under for this configuration. */
  function PolicyOf(cfg: Config): MemberPolicy {
    MemberPolicy(!cfg.publicOnly, !cfg.propertiesOnly, cfg.jsonIgnore)
  }
}
