/**
 * Two end-to-end outcomes of a whole comparison, on small concrete heaps
 * shaped like the library's own test models:
 *  - cycle safety: two friend graphs that point back at their roots compare
 *    equal, and the walk ends at the cycle guard;
 *  - the depth policy: two linked chains that differ only past the maximum
 *    depth get the policy's verdict at the root, with the depth lines the
 *    policy records.
 */
module Scenarios {
  import opened Model
  import opened Text
  import opened TypeRules
  import opened Semantics
  import Properties

  /** The configuration of an entry point called with its default arguments. */
  const Defaults: Config := Config(true, true, true, DefaultOptions.maxDepth, DefaultOptions.onMaxDepthReached,
                                   DefaultOptions.customSimpleTypePredicate)

  /** The member-list key of public properties only, honouring JsonIgnore. */
  const PublicProperties: MemberPolicy := MemberPolicy(false, false, true)

  /**
   * A configuration with the default member flags, no custom predicate and a
   * maximum depth of at least `least`; the policy is left free.
   */
  predicate DefaultMembers(cfg: Config, least: int) {
    PolicyOf(cfg) == PublicProperties && cfg.custom.None? && cfg.maxDepth.Some? && cfg.maxDepth.value >= least
  }

  /** The default options qualify, with room for six levels. */
  lemma DefaultsQualify()
    ensures DefaultMembers(Defaults, 6) && Defaults.maxDepth == Some(20)
  {
  }

  const Int32Type: TypeDesc := TypeDesc("System.Int32", "Int32", Primitive, None, true, false, {}, map[])
  const StringType: TypeDesc := TypeDesc("System.String", "String", String, None, true, true, {}, map[])

  function Int32(x: int): Obj { Obj(Int32Type, Scalar(x), None, [], map[]) }
  function Str(s: string): Obj { Obj(StringType, Chars(s), Some(s), [], map[]) }

  // ---------------------------------------------------------------------------
  // One step of a walk, for any heap
  // ---------------------------------------------------------------------------

  /** Two distinct objects of one composite type go on to the structured part of the comparison. */
  lemma StructuredStep(h: Heap, cfg: Config, a: Id, b: Id, path: string, depth: int, st: St)
    requires cfg.maxDepth.Some? && Closed(h) && a in h && b in h && a != b
    requires depth <= cfg.maxDepth.value && h[a].tag == h[b].tag
    requires !IsWeakReferenceType(h[a].tag) && !IsSimpleComparable(h[a].tag, cfg.custom)
    ensures Compare(h, cfg, Ref(a), Ref(b), path, depth, st) == CompareStructured(h, cfg, a, b, path, depth, st)
  {
  }

  /** A first visit of two non-collections marks the pair and runs the member loop from its start. */
  lemma FirstVisitStep(h: Heap, cfg: Config, a: Id, b: Id, path: string, depth: int, st: St)
    requires cfg.maxDepth.Some? && Closed(h) && a in h && b in h && depth <= cfg.maxDepth.value
    requires TryGetEnumerable(h, a).None? && TryGetEnumerable(h, b).None?
    requires VisitKey(a, b) !in st.visited && |ComparableMembers(h[a].tag, cfg)| > 0
    ensures CompareStructured(h, cfg, a, b, path, depth, st)
            == CompareMembers(h, cfg, a, b, ComparableMembers(h[a].tag, cfg), path, depth, 0, true,
                              St(st.visited + {VisitKey(a, b)}, st.diffs))
  {
  }

  /** Two collections are compared element-wise one level deeper. */
  lemma CollectionStep(h: Heap, cfg: Config, a: Id, b: Id, path: string, depth: int, st: St)
    requires cfg.maxDepth.Some? && Closed(h) && a in h && b in h && depth <= cfg.maxDepth.value
    requires TryGetEnumerable(h, a).Some? && TryGetEnumerable(h, b).Some?
    ensures CompareStructured(h, cfg, a, b, path, depth, st)
            == CompareEnumerables(h, cfg, TryGetEnumerable(h, a).value, TryGetEnumerable(h, b).value, path,
                                  depth + 1, st)
  {
  }

  /** One member, read on both sides and holding no weak reference, is compared one level deeper. */
  lemma MemberStep(h: Heap, cfg: Config, a: Id, b: Id, members: seq<string>, path: string, depth: int, i: nat,
                   x: Value, y: Value, allEqual: bool, st: St)
    requires cfg.maxDepth.Some? && Closed(h) && a in h && b in h
    requires depth <= cfg.maxDepth.value && i < |members|
    requires GetMember(h[a], members[i]) == Read(x) && GetMember(h[b], members[i]) == Read(y)
    requires x.Ref? ==> x.id in h && !IsWeakReferenceType(h[x.id].tag)
    requires y.Ref? ==> y.id in h && !IsWeakReferenceType(h[y.id].tag)
    ensures ValidValue(h, x) && ValidValue(h, y)
    ensures var r := Compare(h, cfg, x, y, SubPath(path, members[i]), depth + 1, st);
            CompareMembers(h, cfg, a, b, members, path, depth, i, allEqual, st)
            == CompareMembers(h, cfg, a, b, members, path, depth, i + 1, allEqual && r.equal, r.st)
  {
  }

  /** Two one-element collections of composite elements are equal when their elements are. */
  lemma SingletonMatchStep(h: Heap, cfg: Config, x: Value, y: Value, path: string, depth: int, st: St)
    requires cfg.maxDepth.Some? && Closed(h) && ValidValue(h, x) && ValidValue(h, y)
    requires depth <= cfg.maxDepth.value && !ElementIsSimple(h, cfg.custom, x)
    requires Compare(h, cfg, x, y, IndexPath(path, 0), depth + 1, st).equal
    ensures CompareEnumerables(h, cfg, [x], [y], path, depth, st)
            == Res(true, Compare(h, cfg, x, y, IndexPath(path, 0), depth + 1, st).st)
  {
    var r := Compare(h, cfg, x, y, IndexPath(path, 0), depth + 1, st);
    assert [x][0] == x && !AllSimple(h, cfg.custom, [x]);
    assert Unused(1) == [false];
    assert MatchOne(h, cfg, [x], [y], path, depth, 0, 0, [false], st) == Match(true, [true], r.st);
    assert MatchFrom(h, cfg, [x], [y], path, depth, 1, [true], true, [], r.st) == Greedy(true, [true], [], r.st);
    assert MatchFrom(h, cfg, [x], [y], path, depth, 0, [false], true, [], st) == Greedy(true, [true], [], r.st);
  }

  // ---------------------------------------------------------------------------
  // Cycle safety: a1 <-> a2 against b1 <-> b2
  // ---------------------------------------------------------------------------

  /** A Person: Name, Age and a list of Friends (the list is an IEnumerable property). */
  const PersonType: TypeDesc :=
    TypeDesc("Models.Person", "Person", Class, None, false, false, {"Friends"},
             map[PublicProperties := ["Name", "Age", "Friends"]])
  const PersonListType: TypeDesc :=
    TypeDesc("System.Collections.Generic.List`1[Models.Person]", "List`1", Class, None, false, true, {}, map[])

  function Person(name: Id, age: Id, friends: Id): Obj {
    Obj(PersonType, Scalar(0), None, [], map["Name" := Read(Ref(name)), "Age" := Read(Ref(age)),
                                             "Friends" := Read(Ref(friends))])
  }

  function PersonList(friend: Id): Obj { Obj(PersonListType, Scalar(0), None, [Ref(friend)], map[]) }

  /**
   * The heap holds a1 (1) and a2 (2), friends of each other, and b1 (3) and
   * b2 (4) alike. The friend lists are 5..8, the names 10..13 ("A", "B", "A",
   * "B"), the boxed ages 20..23 (all 0).
   */
  ghost predicate CircularFriends(h: Heap) {
    && 1 in h && h[1] == Person(10, 20, 5) && 2 in h && h[2] == Person(11, 21, 6)
    && 3 in h && h[3] == Person(12, 22, 7) && 4 in h && h[4] == Person(13, 23, 8)
    && 5 in h && h[5] == PersonList(2) && 6 in h && h[6] == PersonList(1)
    && 7 in h && h[7] == PersonList(4) && 8 in h && h[8] == PersonList(3)
    && 10 in h && h[10] == Str("A") && 11 in h && h[11] == Str("B")
    && 12 in h && h[12] == Str("A") && 13 in h && h[13] == Str("B")
    && 20 in h && h[20] == Int32(0) && 21 in h && h[21] == Int32(0)
    && 22 in h && h[22] == Int32(0) && 23 in h && h[23] == Int32(0)
  }

  /** The type facts the walk over persons and their friend lists relies on. */
  lemma PersonTypeFacts(cfg: Config)
    requires DefaultMembers(cfg, 0)
    ensures ComparableMembers(PersonType, cfg) == ["Name", "Age", "Friends"]
    ensures AccessorOf(PersonType) == NoAccessor && AccessorOf(PersonListType) == SelfEnumerable
    ensures !IsWeakReferenceType(PersonType) && !IsSimpleComparable(PersonType, cfg.custom)
    ensures !IsWeakReferenceType(PersonListType) && !IsSimpleComparable(PersonListType, cfg.custom)
    ensures !IsWeakReferenceType(StringType) && IsSimpleComparable(StringType, cfg.custom)
    ensures !IsWeakReferenceType(Int32Type) && IsSimpleComparable(Int32Type, cfg.custom)
  {
  }

  /** The member loop over two persons: names and ages agree, so the verdict is that of the friend lists. */
  lemma PersonMembersStep(h: Heap, cfg: Config, a: Id, b: Id, name: Id, name': Id, age: Id, age': Id,
                          friends: Id, friends': Id, path: string, depth: int, st: St)
    requires Closed(h) && DefaultMembers(cfg, 0) && 0 <= depth < cfg.maxDepth.value
    requires a in h && b in h && name != name' && age != age'
    requires h[a] == Person(name, age, friends) && h[b] == Person(name', age', friends')
    requires name in h && name' in h && h[name].tag == StringType && h[name] == h[name']
    requires age in h && age' in h && h[age] == Int32(0) && h[age'] == Int32(0)
    requires friends in h && friends' in h && h[friends].tag == PersonListType && h[friends'].tag == PersonListType
    ensures CompareMembers(h, cfg, a, b, ["Name", "Age", "Friends"], path, depth, 0, true, st)
            == Compare(h, cfg, Ref(friends), Ref(friends'), SubPath(path, "Friends"), depth + 1, st)
  {
    PersonTypeFacts(cfg);
    var members := ["Name", "Age", "Friends"];
    MemberStep(h, cfg, a, b, members, path, depth, 0, Ref(name), Ref(name'), true, st);
    Properties.SimpleValues(h, cfg, Ref(name), Ref(name'), SubPath(path, "Name"), depth + 1, st);
    MemberStep(h, cfg, a, b, members, path, depth, 1, Ref(age), Ref(age'), true, st);
    Properties.SimpleValues(h, cfg, Ref(age), Ref(age'), SubPath(path, "Age"), depth + 1, st);
    MemberStep(h, cfg, a, b, members, path, depth, 2, Ref(friends), Ref(friends'), true, st);
  }

  /** One person against its counterpart on a first visit: the pair is marked, then the members compared. */
  lemma PersonStep(h: Heap, cfg: Config, a: Id, b: Id, name: Id, name': Id, age: Id, age': Id, friends: Id,
                   friends': Id, path: string, depth: int, st: St)
    requires Closed(h) && DefaultMembers(cfg, 0) && 0 <= depth < cfg.maxDepth.value
    requires a in h && b in h && a != b && name != name' && age != age'
    requires h[a] == Person(name, age, friends) && h[b] == Person(name', age', friends')
    requires name in h && name' in h && h[name].tag == StringType && h[name] == h[name']
    requires age in h && age' in h && h[age] == Int32(0) && h[age'] == Int32(0)
    requires friends in h && friends' in h && h[friends].tag == PersonListType && h[friends'].tag == PersonListType
    requires VisitKey(a, b) !in st.visited
    ensures var st1 := St(st.visited + {VisitKey(a, b)}, st.diffs);
            Compare(h, cfg, Ref(a), Ref(b), path, depth, st)
            == Compare(h, cfg, Ref(friends), Ref(friends'), SubPath(path, "Friends"), depth + 1, st1)
  {
    PersonTypeFacts(cfg);
    var st1 := St(st.visited + {VisitKey(a, b)}, st.diffs);
    StructuredStep(h, cfg, a, b, path, depth, st);
    FirstVisitStep(h, cfg, a, b, path, depth, st);
    PersonMembersStep(h, cfg, a, b, name, name', age, age', friends, friends', path, depth, st1);
  }

  /** A friend list against its counterpart: their one element each, one level deeper. */
  lemma FriendListStep(h: Heap, cfg: Config, la: Id, lb: Id, x: Id, y: Id, path: string, depth: int, st: St)
    requires Closed(h) && DefaultMembers(cfg, 0) && 0 <= depth < cfg.maxDepth.value
    requires la in h && lb in h && la != lb && x in h && y in h && h[x].tag == PersonType
    requires h[la] == PersonList(x) && h[lb] == PersonList(y)
    requires Compare(h, cfg, Ref(x), Ref(y), IndexPath(path, 0), depth + 2, st).equal
    ensures Compare(h, cfg, Ref(la), Ref(lb), path, depth, st)
            == Res(true, Compare(h, cfg, Ref(x), Ref(y), IndexPath(path, 0), depth + 2, st).st)
  {
    PersonTypeFacts(cfg);
    StructuredStep(h, cfg, la, lb, path, depth, st);
    CollectionStep(h, cfg, la, lb, path, depth, st);
    SingletonMatchStep(h, cfg, Ref(x), Ref(y), path, depth + 1, st);
  }

  /** Six levels down, a1 and b1 are met again: the pair is already visited, so equal at once. */
  lemma CycleGuardReached(h: Heap, cfg: Config, d: int)
    requires Closed(h) && CircularFriends(h) && DefaultMembers(cfg, 0) && 0 <= d && d + 6 <= cfg.maxDepth.value
    ensures Compare(h, cfg, Ref(1), Ref(3), "Friends[0].Friends[0]", d + 6, St({VisitKey(1, 3), VisitKey(2, 4)}, []))
            == Res(true, St({VisitKey(1, 3), VisitKey(2, 4)}, []))
  {
    PersonTypeFacts(cfg);
    assert AccessorOf(h[1].tag) == NoAccessor && AccessorOf(h[3].tag) == NoAccessor;
    Properties.VisitedPairShortCircuits(h, cfg, Ref(1), Ref(3), "Friends[0].Friends[0]", d + 6,
                                        St({VisitKey(1, 3), VisitKey(2, 4)}, []));
  }

  /** a2's friend list against b2's: its one element is that visited pair. */
  lemma InnerListsEqual(h: Heap, cfg: Config, d: int)
    requires Closed(h) && CircularFriends(h) && DefaultMembers(cfg, 0) && 0 <= d && d + 6 <= cfg.maxDepth.value
    ensures Compare(h, cfg, Ref(6), Ref(8), "Friends[0].Friends", d + 4, St({VisitKey(1, 3), VisitKey(2, 4)}, []))
            == Res(true, St({VisitKey(1, 3), VisitKey(2, 4)}, []))
  {
    CycleGuardReached(h, cfg, d);
    assert IndexPath("Friends[0].Friends", 0) == "Friends[0].Friends[0]";
    FriendListStep(h, cfg, 6, 8, 1, 3, "Friends[0].Friends", d + 4, St({VisitKey(1, 3), VisitKey(2, 4)}, []));
  }

  /** a2 against b2, a first visit: names and ages agree, and their friend lists are equal. */
  lemma SecondFriendsEqual(h: Heap, cfg: Config, d: int)
    requires Closed(h) && CircularFriends(h) && DefaultMembers(cfg, 0) && 0 <= d && d + 6 <= cfg.maxDepth.value
    ensures Compare(h, cfg, Ref(2), Ref(4), "Friends[0]", d + 3, St({VisitKey(1, 3)}, []))
            == Res(true, St({VisitKey(1, 3), VisitKey(2, 4)}, []))
  {
    var s1 := St({VisitKey(1, 3)}, []);
    InnerListsEqual(h, cfg, d);
    assert SubPath("Friends[0]", "Friends") == "Friends[0].Friends";
    assert s1.visited + {VisitKey(2, 4)} == {VisitKey(1, 3), VisitKey(2, 4)};
    PersonStep(h, cfg, 2, 4, 11, 13, 21, 23, 6, 8, "Friends[0]", d + 3, s1);
  }

  /** a1's friend list against b1's: its one element, a2 against b2, matches. */
  lemma OuterListsEqual(h: Heap, cfg: Config, d: int)
    requires Closed(h) && CircularFriends(h) && DefaultMembers(cfg, 0) && 0 <= d && d + 6 <= cfg.maxDepth.value
    ensures Compare(h, cfg, Ref(5), Ref(7), "Friends", d + 1, St({VisitKey(1, 3)}, []))
            == Res(true, St({VisitKey(1, 3), VisitKey(2, 4)}, []))
  {
    SecondFriendsEqual(h, cfg, d);
    assert IndexPath("Friends", 0) == "Friends[0]";
    FriendListStep(h, cfg, 5, 7, 2, 4, "Friends", d + 1, St({VisitKey(1, 3)}, []));
  }

  /**
   * Cycle safety: the two circular graphs compare equal with no difference
   * line under any policy, given the default member flags and room for six
   * levels (the default options among them). The walk marks the two person
   * pairs and stops at the cycle guard when a1 and b1 are met again, six
   * levels down.
   */
  lemma CircularReferencesEqual(h: Heap, cfg: Config)
    requires Closed(h) && CircularFriends(h) && DefaultMembers(cfg, 6)
    ensures Compare(h, cfg, Ref(1), Ref(3), "", 0, St({}, []))
            == Res(true, St({VisitKey(1, 3), VisitKey(2, 4)}, []))
  {
    var s0, s1 := St({}, []), St({VisitKey(1, 3)}, []);
    assert St(s0.visited + {VisitKey(1, 3)}, s0.diffs) == s1;
    assert SubPath("", "Friends") == "Friends";
    PersonStep(h, cfg, 1, 3, 10, 12, 20, 22, 5, 7, "", 0, s0);
    OuterListsEqual(h, cfg, 0);
  }

  /** The objects of the friends heap, built as the test builds them. */
  function FriendsObject(id: Id): Obj {
    if id == 1 then Person(10, 20, 5) else if id == 2 then Person(11, 21, 6)
    else if id == 3 then Person(12, 22, 7) else if id == 4 then Person(13, 23, 8)
    else if id == 5 then PersonList(2) else if id == 6 then PersonList(1)
    else if id == 7 then PersonList(4) else if id == 8 then PersonList(3)
    else if id == 10 || id == 12 then Str("A") else if id == 11 || id == 13 then Str("B")
    else Int32(0)
  }

  /** The friends heap: the persons 1..4, their lists 5..8, names 10..13 and ages 20..23. */
  function FriendsHeap(): Heap {
    map id | id in {1, 2, 3, 4, 5, 6, 7, 8, 10, 11, 12, 13, 20, 21, 22, 23} :: FriendsObject(id)
  }

  /** No object of the friends heap refers outside it. */
  lemma FriendsHeapClosed()
    ensures Closed(FriendsHeap())
  {
    var h := FriendsHeap();
    forall id, k | id in h && 0 <= k < |h[id].items| ensures ValidValue(h, h[id].items[k]) {
    }
    forall id, name | id in h && name in h[id].fields && h[id].fields[name].Read?
      ensures ValidValue(h, h[id].fields[name].value)
    {
    }
  }

  /** Such a heap exists: the friends heap is one. */
  lemma FriendsHeapIsCircular()
    ensures Closed(FriendsHeap()) && CircularFriends(FriendsHeap())
  {
    FriendsHeapClosed();
  }

  // ---------------------------------------------------------------------------
  // Depth policy: two chains of four nodes diverging at the last value
  // ---------------------------------------------------------------------------

  /** A linked-list node: an Int32 Value and a Next node (null at the end). */
  const NodeType: TypeDesc :=
    TypeDesc("Models.Node", "Node", Class, None, false, false, {}, map[PublicProperties := ["Value", "Next"]])

  function Node(value: Id, next: Value): Obj {
    Obj(NodeType, Scalar(0), None, [], map["Value" := Read(Ref(value)), "Next" := Read(next)])
  }

  /**
   * The heap holds the chain 1 -> 2 -> 3 -> 4 with values 0, 1, 2, 3 (boxed
   * at 20..23) and the chain 5 -> 6 -> 7 -> 8 with values 0, 1, 2, 999 (boxed
   * at 30..33).
   */
  ghost predicate TwoChains(h: Heap) {
    && 1 in h && h[1] == Node(20, Ref(2)) && 2 in h && h[2] == Node(21, Ref(3))
    && 3 in h && h[3] == Node(22, Ref(4)) && 4 in h && h[4] == Node(23, Null)
    && 5 in h && h[5] == Node(30, Ref(6)) && 6 in h && h[6] == Node(31, Ref(7))
    && 7 in h && h[7] == Node(32, Ref(8)) && 8 in h && h[8] == Node(33, Null)
    && 20 in h && h[20] == Int32(0) && 21 in h && h[21] == Int32(1)
    && 22 in h && h[22] == Int32(2) && 23 in h && h[23] == Int32(3)
    && 30 in h && h[30] == Int32(0) && 31 in h && h[31] == Int32(1)
    && 32 in h && h[32] == Int32(2) && 33 in h && h[33] == Int32(999)
  }

  /** The type facts the walk along two chains relies on. */
  lemma NodeTypeFacts(cfg: Config)
    requires DefaultMembers(cfg, 0)
    ensures ComparableMembers(NodeType, cfg) == ["Value", "Next"] && AccessorOf(NodeType) == NoAccessor
    ensures !IsWeakReferenceType(NodeType) && !IsSimpleComparable(NodeType, cfg.custom)
    ensures !IsWeakReferenceType(Int32Type) && IsSimpleComparable(Int32Type, cfg.custom)
  {
  }

  /** Two nodes above the limit with equal values: the verdict is that of the Next nodes, one level deeper. */
  lemma NodeStep(h: Heap, cfg: Config, a: Id, b: Id, v: Id, v': Id, next: Id, next': Id, path: string,
                 depth: int, st: St)
    requires Closed(h) && DefaultMembers(cfg, 0) && 0 <= depth < cfg.maxDepth.value
    requires a in h && b in h && a != b && v != v' && h[a] == Node(v, Ref(next)) && h[b] == Node(v', Ref(next'))
    requires v in h && v' in h && h[v].tag == Int32Type && h[v] == h[v']
    requires next in h && next' in h && h[next].tag == NodeType && h[next'].tag == NodeType
    requires VisitKey(a, b) !in st.visited
    ensures var st1 := St(st.visited + {VisitKey(a, b)}, st.diffs);
            Compare(h, cfg, Ref(a), Ref(b), path, depth, st)
            == Compare(h, cfg, Ref(next), Ref(next'), SubPath(path, "Next"), depth + 1, st1)
  {
    NodeTypeFacts(cfg);
    var members := ["Value", "Next"];
    var st1 := St(st.visited + {VisitKey(a, b)}, st.diffs);
    StructuredStep(h, cfg, a, b, path, depth, st);
    FirstVisitStep(h, cfg, a, b, path, depth, st);
    MemberStep(h, cfg, a, b, members, path, depth, 0, Ref(v), Ref(v'), true, st1);
    Properties.SimpleValues(h, cfg, Ref(v), Ref(v'), SubPath(path, "Value"), depth + 1, st1);
    MemberStep(h, cfg, a, b, members, path, depth, 1, Ref(next), Ref(next'), true, st1);
  }

  /**
   * Two nodes exactly at the limit: both members lie one level past it, so
   * each gets the policy's outcome, Value first and Next second, whatever
   * the members hold.
   */
  lemma LimitNodeStep(h: Heap, cfg: Config, a: Id, b: Id, v: Id, v': Id, next: Id, next': Id, path: string,
                      st: St)
    requires Closed(h) && DefaultMembers(cfg, 0) && cfg.maxDepth.value >= 0
    requires a in h && b in h && a != b && h[a] == Node(v, Ref(next)) && h[b] == Node(v', Ref(next'))
    requires v in h && v' in h && h[v].tag == Int32Type && h[v'].tag == Int32Type
    requires next in h && next' in h && h[next].tag == NodeType && h[next'].tag == NodeType
    requires VisitKey(a, b) !in st.visited
    ensures var st1 := St(st.visited + {VisitKey(a, b)}, st.diffs);
            var r1 := DepthOutcome(cfg, SubPath(path, "Value"), st1);
            var r2 := DepthOutcome(cfg, SubPath(path, "Next"), r1.st);
            Compare(h, cfg, Ref(a), Ref(b), path, cfg.maxDepth.value, st) == Res(r1.equal && r2.equal, r2.st)
  {
    NodeTypeFacts(cfg);
    var depth := cfg.maxDepth.value;
    var members := ["Value", "Next"];
    var st1 := St(st.visited + {VisitKey(a, b)}, st.diffs);
    var r1 := DepthOutcome(cfg, SubPath(path, "Value"), st1);
    StructuredStep(h, cfg, a, b, path, depth, st);
    FirstVisitStep(h, cfg, a, b, path, depth, st);
    MemberStep(h, cfg, a, b, members, path, depth, 0, Ref(v), Ref(v'), true, st1);
    assert Compare(h, cfg, Ref(v), Ref(v'), SubPath(path, "Value"), depth + 1, st1) == r1;
    MemberStep(h, cfg, a, b, members, path, depth, 1, Ref(next), Ref(next'), r1.equal, r1.st);
    assert Compare(h, cfg, Ref(next), Ref(next'), SubPath(path, "Next"), depth + 1, r1.st)
           == DepthOutcome(cfg, SubPath(path, "Next"), r1.st);
  }

  /** The pairs met on the way down to the limit, and the state the walk reaches it with. */
  ghost function ChainVisited(): set<(Id, Id)> { {VisitKey(1, 5), VisitKey(2, 6), VisitKey(3, 7)} }

  /** The third nodes, at depth 2, settle the comparison from the state left by the two above. */
  lemma ChainLimitReached(h: Heap, cfg: Config)
    requires Closed(h) && TwoChains(h) && DefaultMembers(cfg, 0) && cfg.maxDepth == Some(2)
    ensures var st1 := St(ChainVisited(), []);
            var r1 := DepthOutcome(cfg, "Next.Next.Value", st1);
            var r2 := DepthOutcome(cfg, "Next.Next.Next", r1.st);
            Compare(h, cfg, Ref(3), Ref(7), "Next.Next", 2, St({VisitKey(1, 5), VisitKey(2, 6)}, []))
            == Res(r1.equal && r2.equal, r2.st)
  {
    assert SubPath("Next.Next", "Value") == "Next.Next.Value";
    assert SubPath("Next.Next", "Next") == "Next.Next.Next";
    assert {VisitKey(1, 5), VisitKey(2, 6)} + {VisitKey(3, 7)} == ChainVisited();
    LimitNodeStep(h, cfg, 3, 7, 22, 32, 4, 8, "Next.Next", St({VisitKey(1, 5), VisitKey(2, 6)}, []));
  }

  /** From the heads down: the first two node pairs have equal values and pass the verdict on. */
  lemma ChainDescends(h: Heap, cfg: Config)
    requires Closed(h) && TwoChains(h) && DefaultMembers(cfg, 0) && cfg.maxDepth == Some(2)
    ensures Compare(h, cfg, Ref(1), Ref(5), "", 0, St({}, []))
            == Compare(h, cfg, Ref(3), Ref(7), "Next.Next", 2, St({VisitKey(1, 5), VisitKey(2, 6)}, []))
  {
    assert SubPath("", "Next") == "Next" && SubPath("Next", "Next") == "Next.Next";
    assert {} + {VisitKey(1, 5)} == {VisitKey(1, 5)};
    assert {VisitKey(1, 5)} + {VisitKey(2, 6)} == {VisitKey(1, 5), VisitKey(2, 6)};
    NodeStep(h, cfg, 1, 5, 20, 30, 2, 6, "", 0, St({}, []));
    NodeStep(h, cfg, 2, 6, 21, 31, 3, 7, "Next", 1, St({VisitKey(1, 5)}, []));
  }

  /**
   * Depth policy: with a maximum depth of 2 the difference in the fourth
   * value is never reached; the third nodes' two members lie past the limit
   * and the policy decides. TreatAsEqual: equal, no line. TreatAsDifferent:
   * not equal, a depth-limit line for each member. LogDifference: equal,
   * with the same two lines. A value outside the enumeration: not equal, no
   * line.
   */
  lemma DepthLimitedChain(h: Heap, cfg: Config)
    requires Closed(h) && TwoChains(h) && DefaultMembers(cfg, 0) && cfg.maxDepth == Some(2)
    ensures var r := Compare(h, cfg, Ref(1), Ref(5), "", 0, St({}, []));
            var lines := [DepthLimitMsg("Next.Next.Value", 2), DepthLimitMsg("Next.Next.Next", 2)];
            && r.st.visited == ChainVisited()
            && (cfg.onMaxDepthReached == TreatAsEqual ==> r == Res(true, St(ChainVisited(), [])))
            && (cfg.onMaxDepthReached == TreatAsDifferent ==> r == Res(false, St(ChainVisited(), lines)))
            && (cfg.onMaxDepthReached == LogDifference ==> r == Res(true, St(ChainVisited(), lines)))
            && (cfg.onMaxDepthReached.OutOfRange? ==> r == Res(false, St(ChainVisited(), [])))
  {
    ChainDescends(h, cfg);
    ChainLimitReached(h, cfg);
  }

  /** The objects of the chain heap, built as the test builds them. */
  function ChainObject(id: Id): Obj {
    if id == 1 then Node(20, Ref(2)) else if id == 2 then Node(21, Ref(3))
    else if id == 3 then Node(22, Ref(4)) else if id == 4 then Node(23, Null)
    else if id == 5 then Node(30, Ref(6)) else if id == 6 then Node(31, Ref(7))
    else if id == 7 then Node(32, Ref(8)) else if id == 8 then Node(33, Null)
    else if id == 33 then Int32(999) else if id >= 30 then Int32(id - 30) else Int32(id - 20)
  }

  /** The chain heap: the nodes 1..8 and their boxed values 20..23 and 30..33. */
  function ChainHeap(): Heap {
    map id | id in {1, 2, 3, 4, 5, 6, 7, 8, 20, 21, 22, 23, 30, 31, 32, 33} :: ChainObject(id)
  }

  /** No object of the chain heap refers outside it. */
  lemma ChainHeapClosed()
    ensures Closed(ChainHeap())
  {
    var h := ChainHeap();
    forall id | id in h ensures h[id].items == [] {
    }
    forall id, name | id in h && name in h[id].fields && h[id].fields[name].Read?
      ensures ValidValue(h, h[id].fields[name].value)
    {
    }
  }

  /** Such a heap exists: the chain heap is one. */
  lemma ChainHeapIsChains()
    ensures Closed(ChainHeap()) && TwoChains(ChainHeap())
  {
    ChainHeapClosed();
  }
}
