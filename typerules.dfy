/**
 * The per-type decisions the engine dispatches on: weak references, the
 * "simple" (compared by Equals) rule chain with the custom predicate consulted
 * first, the enumerable accessor of a type, the member list under a policy,
 * value rendering for messages, and the text of every difference line.
 * The process-wide caches in front of these decisions are pure memoisation,
 * so each decision is a function of the type.
 */
module TypeRules {
  import opened Model
  import opened Text

  predicate IsWeakReferenceType(t: TypeDesc) {
    t.kind == WeakReference || t.kind == GenericWeakReference
  }

  predicate IsValueType(k: TypeKind) {
    k in {Primitive, Enum, Decimal, DateTime, DateTimeOffset, TimeSpan, Guid, Struct}
  }

  /** The built-in rule chain, in the order the rules are tried. */
  predicate BuiltinSimple(t: TypeDesc) {
    if t.kind == Primitive || t.kind == Enum then true
    else if t.kind in {String, Decimal, DateTime, DateTimeOffset, TimeSpan, Guid} then true
    else if t.nullableOf.Some? && (t.nullableOf.value in {Primitive, Enum}
                                   || t.nullableOf.value in {Decimal, DateTime, DateTimeOffset, TimeSpan, Guid}) then true
    else if IsValueType(t.kind) then true
    else if t.comparable then true
    else false
  }

  /** Whether a custom predicate is present and accepts the type. */
  predicate CustomAccepts(custom: Option<TypeDesc -> bool>, t: TypeDesc) {
    custom.Some? && custom.value(t)
  }

  /** A type is simple when the custom predicate accepts it, or else by the built-in rules. */
  predicate IsSimpleComparable(t: TypeDesc, custom: Option<TypeDesc -> bool>) {
    if CustomAccepts(custom, t) then true else BuiltinSimple(t)
  }

  /** The test the fast path applies to each element (null, or simple, or accepted by the custom predicate). */
  predicate ElementIsSimple(h: Heap, custom: Option<TypeDesc -> bool>, v: Value)
    requires ValidValue(h, v)
  {
    v.Null? || IsSimpleComparable(h[v.id].tag, custom) || (v.Ref? && CustomAccepts(custom, h[v.id].tag))
  }

  predicate AllSimple(h: Heap, custom: Option<TypeDesc -> bool>, s: seq<Value>)
    requires forall k :: 0 <= k < |s| ==> ValidValue(h, s[k])
  {
    forall k :: 0 <= k < |s| ==> ElementIsSimple(h, custom, s[k])
  }

  datatype EnumerableAccessKind = NoAccessor | SelfEnumerable | ItemsProperty | ValuesProperty

  /**
   * How a type is enumerated: itself when it implements IEnumerable and is not
   * string; else through a public IEnumerable property named Items, then Values.
   */
  function AccessorOf(t: TypeDesc): EnumerableAccessKind {
    if t.enumerable && t.kind != String then SelfEnumerable
    else if "Items" in t.enumerableProps then ItemsProperty
    else if "Values" in t.enumerableProps then ValuesProperty
    else NoAccessor
  }

  /**
   * The elements of object `id` if it is enumerable-like, or None. A property
   * getter that throws or yields null gives None.
   */
  function TryGetEnumerable(h: Heap, id: Id): (r: Option<seq<Value>>)
    requires Closed(h) && id in h
    ensures r.Some? ==> forall k :: 0 <= k < |r.value| ==> ValidValue(h, r.value[k])
    ensures AccessorOf(h[id].tag) == NoAccessor ==> r == None
    ensures AccessorOf(h[id].tag) == SelfEnumerable ==> r == Some(h[id].items)
    ensures AccessorOf(h[id].tag) == ItemsProperty ==> r == PropertyElements(h, id, "Items")
    ensures AccessorOf(h[id].tag) == ValuesProperty ==> r == PropertyElements(h, id, "Values")
  {
    var o := h[id];
    match AccessorOf(o.tag)
    case NoAccessor => None
    case SelfEnumerable => Some(o.items)
    case ItemsProperty => PropertyElements(h, id, "Items")
    case ValuesProperty => PropertyElements(h, id, "Values")
  }

  /** The elements of the collection a property getter yields on object `id`. */
  function PropertyElements(h: Heap, id: Id, prop: string): (r: Option<seq<Value>>)
    requires Closed(h) && id in h
    ensures r.Some? ==> forall k :: 0 <= k < |r.value| ==> ValidValue(h, r.value[k])
    ensures r.Some? <==> GetMember(h[id], prop).Read? && GetMember(h[id], prop).value.Ref?
    ensures r.Some? ==> GetMember(h[id], prop).value.id in h && r.value == h[GetMember(h[id], prop).value.id].items
  {
    match GetMember(h[id], prop)
    case Throws => None
    case Read(Null) => None
    case Read(Ref(j)) =>
      assert ValidValue(h, h[id].fields[prop].value);
      Some(h[j].items)
  }

  /** The comparable members of a type under the configured policy. */
  function ComparableMembers(t: TypeDesc, cfg: Config): seq<string> {
    var key := PolicyOf(cfg);
    if key in t.members then t.members[key] else []
  }

  /** How a value is shown in a "Values differ" line. */
  function FormatValue(h: Heap, v: Value): (r: string)
    requires ValidValue(h, v)
    ensures v.Null? ==> r == "null"
    ensures v.Ref? && h[v.id].tag.kind == String ==>
              |r| >= 2 && r[0] == '"' && r[|r| - 1] == '"' && r[1..|r| - 1] == h[v.id].text.GetOr("")
  {
    if v.Null? then "null"
    else
      var o := h[v.id];
      if o.tag.kind == String then "\"" + o.text.GetOr("") + "\""
      else if o.tag.kind == DateTime || o.tag.kind == DateTimeOffset then o.text.GetOr("")
      else match o.text
        case Some(t) => t
        case None => o.tag.name
  }

  /** The key an element is counted under by the fast path: Equals on the runtime type and payload. */
  datatype Key = NullKey | ObjKey(tag: TypeDesc, value: Payload)

  function KeyOf(h: Heap, v: Value): Key
    requires ValidValue(h, v)
  {
    if v.Null? then NullKey else ObjKey(h[v.id].tag, h[v.id].value)
  }

  function Keys(h: Heap, s: seq<Value>): (r: seq<Key>)
    requires forall k :: 0 <= k < |s| ==> ValidValue(h, s[k])
    ensures |r| == |s| && forall k :: 0 <= k < |s| ==> r[k] == KeyOf(h, s[k])
  {
    if s == [] then [] else [KeyOf(h, s[0])] + Keys(h, s[1..])
  }

  // The difference lines, one function per message of the engine.

  function NullMsg(path: string): string { path + ": One is null, other is not" }

  function TypesDifferMsg(path: string, ta: TypeDesc, tb: TypeDesc): string {
    path + ": Types differ (" + ta.fullName + " vs " + tb.fullName + ")"
  }

  function ValuesDifferMsg(path: string, fa: string, fb: string): string {
    path + ": Values differ (" + fa + " vs " + fb + ")"
  }

  function OneIsCollectionMsg(path: string): string { path + ": One is collection, other is not" }

  function DepthLimitMsg(path: string, maxDepth: int): string {
    path + ": Depth limit (" + IntToString(maxDepth) + ") reached"
  }

  function CountsDifferMsg(path: string, na: nat, nb: nat): string {
    path + ": Collection counts differ (" + NatToString(na) + " vs " + NatToString(nb) + ")"
  }

  function MultisetDiffersMsg(path: string): string { path + ": Collection item multiset differs" }

  function NoMatchMsg(path: string, i: nat): string { IndexPath(path, i) + ": No matching item found" }
}
