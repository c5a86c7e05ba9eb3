/**
 * What the comparer promises, proved about the meaning of a comparison
 * (module Semantics), and so about the engine that computes it: the order of
 * the decisions at a node, the depth policies, the cycle guard, the state only
 * growing, the multiset fast path and the greedy matcher.
 */
module Properties {
  import opened Model
  import opened Text
  import opened TypeRules
  import opened Semantics

  // ---------------------------------------------------------------------------
  // The decision sequence at one node
  // ---------------------------------------------------------------------------

  /**
   * Past the maximum depth nothing is read: the configured policy alone decides,
   * and at most the one "Depth limit" line is recorded.
   */
  lemma DepthLimitPolicies(h: Heap, cfg: Config, a: Value, b: Value, path: string, depth: int, st: St)
    requires cfg.maxDepth.Some? && Closed(h) && ValidValue(h, a) && ValidValue(h, b)
    requires depth > cfg.maxDepth.value
    ensures var r := Compare(h, cfg, a, b, path, depth, st);
            && (cfg.onMaxDepthReached == TreatAsEqual ==> r == Res(true, st))
            && (cfg.onMaxDepthReached == TreatAsDifferent ==>
                  r == Res(false, st.Log(DepthLimitMsg(path, cfg.maxDepth.value))))
            && (cfg.onMaxDepthReached == LogDifference ==>
                  r == Res(true, st.Log(DepthLimitMsg(path, cfg.maxDepth.value))))
            && (cfg.onMaxDepthReached.OutOfRange? ==> r == Res(false, st))
  {
  }

  /** A collection pair is subject to the same depth check one level below the collection node. */
  lemma CollectionDepthLimit(h: Heap, cfg: Config, la: seq<Value>, lb: seq<Value>, path: string, depth: int, st: St)
    requires cfg.maxDepth.Some? && Closed(h) && AllValid(h, la) && AllValid(h, lb)
    requires depth > cfg.maxDepth.value
    ensures CompareEnumerables(h, cfg, la, lb, path, depth, st) == DepthOutcome(cfg, path, st)
    ensures CompareEnumerables(h, cfg, la, lb, path, depth, st).st.visited == st.visited
  {
  }

  /** A reference compared with itself (null with null included) is equal and records nothing. */
  lemma Identity(h: Heap, cfg: Config, a: Value, path: string, depth: int, st: St)
    requires cfg.maxDepth.Some? && Closed(h) && ValidValue(h, a)
    requires depth <= cfg.maxDepth.value
    ensures Compare(h, cfg, a, a, path, depth, st) == Res(true, st)
  {
  }

  /**
   * The depth check comes before the identity check: with a negative maximum
   * even a value compared with itself at the root is handed to the policy.
   */
  lemma NegativeMaxDepthBeatsIdentity(h: Heap, cfg: Config, a: Value, st: St)
    requires cfg.maxDepth.Some? && Closed(h) && ValidValue(h, a)
    requires cfg.maxDepth.value < 0 && cfg.onMaxDepthReached == TreatAsDifferent
    ensures Compare(h, cfg, a, a, "", 0, st) == Res(false, st.Log(DepthLimitMsg("", cfg.maxDepth.value)))
    ensures DepthLimitMsg("", cfg.maxDepth.value)[..15] == ": Depth limit (" &&
            DepthLimitMsg("", cfg.maxDepth.value)[15] == '-'
  {
  }

  /** Exactly one side null: not equal, with one "One is null" line for the path and nothing else. */
  lemma NullAsymmetry(h: Heap, cfg: Config, a: Value, b: Value, path: string, depth: int, st: St)
    requires cfg.maxDepth.Some? && Closed(h) && ValidValue(h, a) && ValidValue(h, b)
    requires depth <= cfg.maxDepth.value && (a.Null? != b.Null?)
    ensures Compare(h, cfg, a, b, path, depth, st) == Res(false, st.Log(NullMsg(path)))
  {
  }

  /** Different runtime types: not equal, one "Types differ" line, no descent and no visited pair. */
  lemma TypesDiffer(h: Heap, cfg: Config, a: Value, b: Value, path: string, depth: int, st: St)
    requires cfg.maxDepth.Some? && Closed(h) && ValidValue(h, a) && ValidValue(h, b)
    requires depth <= cfg.maxDepth.value && a.Ref? && b.Ref? && h[a.id].tag != h[b.id].tag
    ensures Compare(h, cfg, a, b, path, depth, st)
            == Res(false, st.Log(TypesDifferMsg(path, h[a.id].tag, h[b.id].tag)))
  {
  }

  /** Two distinct weak references of one type are equal whatever they point to. */
  lemma WeakReferencesIgnored(h: Heap, cfg: Config, a: Value, b: Value, path: string, depth: int, st: St)
    requires cfg.maxDepth.Some? && Closed(h) && ValidValue(h, a) && ValidValue(h, b)
    requires depth <= cfg.maxDepth.value && a.Ref? && b.Ref? && h[a.id].tag == h[b.id].tag
    requires IsWeakReferenceType(h[a.id].tag)
    ensures Compare(h, cfg, a, b, path, depth, st) == Res(true, st)
  {
  }

  /**
   * Two objects of one simple type are compared by Equals alone: equal exactly
   * when the payloads are, else one "Values differ" line showing both values.
   */
  lemma SimpleValues(h: Heap, cfg: Config, a: Value, b: Value, path: string, depth: int, st: St)
    requires cfg.maxDepth.Some? && Closed(h) && ValidValue(h, a) && ValidValue(h, b)
    requires depth <= cfg.maxDepth.value && a.Ref? && b.Ref? && a != b && h[a.id].tag == h[b.id].tag
    requires !IsWeakReferenceType(h[a.id].tag) && IsSimpleComparable(h[a.id].tag, cfg.custom)
    ensures var r := Compare(h, cfg, a, b, path, depth, st);
            && (r.equal <==> h[a.id].value == h[b.id].value)
            && r.st == (if r.equal then st else st.Log(ValuesDifferMsg(path, FormatValue(h, a), FormatValue(h, b))))
  {
  }

  /** A collection against a non-collection of the same type: not equal, one line. */
  lemma OneIsCollection(h: Heap, cfg: Config, a: Value, b: Value, path: string, depth: int, st: St)
    requires cfg.maxDepth.Some? && Closed(h) && ValidValue(h, a) && ValidValue(h, b)
    requires depth <= cfg.maxDepth.value && a.Ref? && b.Ref? && a != b && h[a.id].tag == h[b.id].tag
    requires !IsWeakReferenceType(h[a.id].tag) && !IsSimpleComparable(h[a.id].tag, cfg.custom)
    requires TryGetEnumerable(h, a.id).Some? != TryGetEnumerable(h, b.id).Some?
    ensures Compare(h, cfg, a, b, path, depth, st) == Res(false, st.Log(OneIsCollectionMsg(path)))
  {
  }

  /**
   * The cycle guard: a pair of composite objects already visited, in either
   * order, is equal at once; no member is read and nothing is recorded.
   */
  lemma VisitedPairShortCircuits(h: Heap, cfg: Config, a: Value, b: Value, path: string, depth: int, st: St)
    requires cfg.maxDepth.Some? && Closed(h) && ValidValue(h, a) && ValidValue(h, b)
    requires depth <= cfg.maxDepth.value && a.Ref? && b.Ref? && a != b && h[a.id].tag == h[b.id].tag
    requires !IsWeakReferenceType(h[a.id].tag) && !IsSimpleComparable(h[a.id].tag, cfg.custom)
    requires TryGetEnumerable(h, a.id).None? && TryGetEnumerable(h, b.id).None?
    requires VisitKey(b.id, a.id) in st.visited
    ensures Compare(h, cfg, a, b, path, depth, st) == Res(true, st)
  {
    VisitKeySymmetric(a.id, b.id);
  }

  /** The visited key does not depend on the order of the pair. */
  lemma VisitKeySymmetric(a: Id, b: Id)
    ensures VisitKey(a, b) == VisitKey(b, a)
  {
  }

  /** A first visit marks the pair and descends into the members, from a clean verdict. */
  lemma FirstVisitMarksPair(h: Heap, cfg: Config, a: Value, b: Value, path: string, depth: int, st: St)
    requires cfg.maxDepth.Some? && Closed(h) && ValidValue(h, a) && ValidValue(h, b)
    requires depth <= cfg.maxDepth.value && a.Ref? && b.Ref? && a != b && h[a.id].tag == h[b.id].tag
    requires !IsWeakReferenceType(h[a.id].tag) && !IsSimpleComparable(h[a.id].tag, cfg.custom)
    requires TryGetEnumerable(h, a.id).None? && TryGetEnumerable(h, b.id).None?
    requires VisitKey(a.id, b.id) !in st.visited
    ensures VisitKey(a.id, b.id) in Compare(h, cfg, a, b, path, depth, st).st.visited
  {
    var st1 := st.(visited := st.visited + {VisitKey(a.id, b.id)});
    var members := ComparableMembers(h[a.id].tag, cfg);
    if |members| > 0 {
      CompareMembersInvariant(h, cfg, a.id, b.id, members, path, depth, 0, true, st1);
    }
  }

  /** A member whose getter throws on either object is skipped: neither verdict nor state changes. */
  lemma ThrowingMemberSkipped(h: Heap, cfg: Config, a: Id, b: Id, members: seq<string>, path: string, depth: int,
                              i: nat, allEqual: bool, st: St)
    requires cfg.maxDepth.Some? && Closed(h) && a in h && b in h
    requires depth <= cfg.maxDepth.value && i < |members|
    requires GetMember(h[a], members[i]).Throws? || GetMember(h[b], members[i]).Throws?
    ensures CompareMembers(h, cfg, a, b, members, path, depth, i, allEqual, st)
            == CompareMembers(h, cfg, a, b, members, path, depth, i + 1, allEqual, st)
  {
  }

  /** A member holding a weak reference on either object is skipped: neither verdict nor state changes. */
  lemma WeakReferenceMemberSkipped(h: Heap, cfg: Config, a: Id, b: Id, members: seq<string>, path: string,
                                   depth: int, i: nat, allEqual: bool, st: St)
    requires cfg.maxDepth.Some? && Closed(h) && a in h && b in h
    requires depth <= cfg.maxDepth.value && i < |members|
    requires var fa, fb := GetMember(h[a], members[i]), GetMember(h[b], members[i]);
             && fa.Read? && fb.Read?
             && ((fa.value.Ref? && fa.value.id in h && IsWeakReferenceType(h[fa.value.id].tag))
                 || (fb.value.Ref? && fb.value.id in h && IsWeakReferenceType(h[fb.value.id].tag)))
    ensures CompareMembers(h, cfg, a, b, members, path, depth, i, allEqual, st)
            == CompareMembers(h, cfg, a, b, members, path, depth, i + 1, allEqual, st)
  {
  }

  // ---------------------------------------------------------------------------
  // The state only grows
  // ---------------------------------------------------------------------------

  /** Growth is transitive. */
  lemma GrowsTrans(s1: St, s2: St, s3: St)
    requires Grows(s1, s2) && Grows(s2, s3)
    ensures Grows(s1, s3)
  {
  }

  /**
   * A comparison never forgets a visited pair and only appends difference
   * lines. This and the next four lemmas are one induction over the mutual
   * recursion of the comparison.
   */
  lemma {:induction false} CompareInvariant(h: Heap, cfg: Config, a: Value, b: Value, path: string, depth: int, st: St)
    requires cfg.maxDepth.Some? && Closed(h) && ValidValue(h, a) && ValidValue(h, b)
    ensures Grows(st, Compare(h, cfg, a, b, path, depth, st).st)
    decreases cfg.maxDepth.value - depth, 3
  {
    if depth <= cfg.maxDepth.value && a != b && a.Ref? && b.Ref? && h[a.id].tag == h[b.id].tag
       && !IsWeakReferenceType(h[a.id].tag) && !IsSimpleComparable(h[a.id].tag, cfg.custom) {
      CompareStructuredInvariant(h, cfg, a.id, b.id, path, depth, st);
    }
  }

  lemma {:induction false} CompareStructuredInvariant(h: Heap, cfg: Config, a: Id, b: Id, path: string, depth: int,
                                                      st: St)
    requires cfg.maxDepth.Some? && Closed(h) && a in h && b in h && depth <= cfg.maxDepth.value
    ensures Grows(st, CompareStructured(h, cfg, a, b, path, depth, st).st)
    decreases cfg.maxDepth.value - depth, 2
  {
    var ea, eb := TryGetEnumerable(h, a), TryGetEnumerable(h, b);
    if ea.Some? && eb.Some? {
      CompareEnumerablesInvariant(h, cfg, ea.value, eb.value, path, depth + 1, st);
    } else if ea.None? && eb.None? {
      var key := VisitKey(a, b);
      if key !in st.visited {
        var st1 := st.(visited := st.visited + {key});
        var members := ComparableMembers(h[a].tag, cfg);
        if |members| > 0 {
          CompareMembersInvariant(h, cfg, a, b, members, path, depth, 0, true, st1);
        }
      }
    }
  }

  /** The member loop only grows the state, and a difference found is never undone. */
  lemma {:induction false} CompareMembersInvariant(h: Heap, cfg: Config, a: Id, b: Id, members: seq<string>,
                                                   path: string, depth: int, i: nat, allEqual: bool, st: St)
    requires cfg.maxDepth.Some? && Closed(h) && a in h && b in h
    requires depth <= cfg.maxDepth.value && i <= |members|
    ensures var r := CompareMembers(h, cfg, a, b, members, path, depth, i, allEqual, st);
            Grows(st, r.st) && (!allEqual ==> !r.equal)
    decreases cfg.maxDepth.value - depth, 1, |members| - i
  {
    if i < |members| {
      var name := members[i];
      var fa, fb := GetMember(h[a], name), GetMember(h[b], name);
      if fa.Throws? || fb.Throws? {
        CompareMembersInvariant(h, cfg, a, b, members, path, depth, i + 1, allEqual, st);
      } else {
        assert ValidValue(h, fa.value) && ValidValue(h, fb.value) by {
          assert fa == h[a].fields[name] && fb == h[b].fields[name];
        }
        if (fa.value.Ref? && IsWeakReferenceType(h[fa.value.id].tag))
           || (fb.value.Ref? && IsWeakReferenceType(h[fb.value.id].tag)) {
          CompareMembersInvariant(h, cfg, a, b, members, path, depth, i + 1, allEqual, st);
        } else {
          var r := Compare(h, cfg, fa.value, fb.value, SubPath(path, name), depth + 1, st);
          CompareInvariant(h, cfg, fa.value, fb.value, SubPath(path, name), depth + 1, st);
          CompareMembersInvariant(h, cfg, a, b, members, path, depth, i + 1, allEqual && r.equal, r.st);
          GrowsTrans(st, r.st, CompareMembers(h, cfg, a, b, members, path, depth, i + 1, allEqual && r.equal, r.st).st);
        }
      }
    }
  }

  lemma {:induction false} CompareEnumerablesInvariant(h: Heap, cfg: Config, la: seq<Value>, lb: seq<Value>,
                                                       path: string, depth: int, st: St)
    requires cfg.maxDepth.Some? && Closed(h) && AllValid(h, la) && AllValid(h, lb)
    ensures Grows(st, CompareEnumerables(h, cfg, la, lb, path, depth, st).st)
    decreases cfg.maxDepth.value - depth, 3
  {
    if depth > cfg.maxDepth.value {
      DepthOutcomeGrows(cfg, path, st);
    } else if |la| != |lb| || |la| == 0 {
    } else if AllSimple(h, cfg.custom, la) && AllSimple(h, cfg.custom, lb) {
      MultisetOutcomeGrows(Keys(h, la), Keys(h, lb), path, st);
    } else {
      MatchFromInvariant(h, cfg, la, lb, path, depth, 0, Unused(|lb|), true, [], st);
    }
  }

  lemma DepthOutcomeGrows(cfg: Config, path: string, st: St)
    requires cfg.maxDepth.Some?
    ensures Grows(st, DepthOutcome(cfg, path, st).st)
  {
  }

  lemma MultisetOutcomeGrows(ka: seq<Key>, kb: seq<Key>, path: string, st: St)
    ensures Grows(st, MultisetOutcome(ka, kb, path, st).st)
  {
  }

  /** The greedy outer loop only grows the state. */
  lemma {:induction false} MatchFromInvariant(h: Heap, cfg: Config, la: seq<Value>, lb: seq<Value>, path: string,
                                              depth: int, i: nat, used: seq<bool>, allEqual: bool, misses: seq<nat>,
                                              st: St)
    requires cfg.maxDepth.Some? && Closed(h) && AllValid(h, la) && AllValid(h, lb)
    requires depth <= cfg.maxDepth.value && i <= |la| && |used| == |lb|
    ensures Grows(st, MatchFrom(h, cfg, la, lb, path, depth, i, used, allEqual, misses, st).st)
    decreases cfg.maxDepth.value - depth, 2, |la| - i
  {
    if i < |la| {
      var m := MatchOne(h, cfg, la, lb, path, depth, i, 0, used, st);
      MatchOneInvariant(h, cfg, la, lb, path, depth, i, 0, used, st);
      var st1 := if m.ok then m.st else m.st.Log(NoMatchMsg(path, i));
      var misses1 := if m.ok then misses else misses + [i];
      MatchFromInvariant(h, cfg, la, lb, path, depth, i + 1, m.used, allEqual && m.ok, misses1, st1);
      GrowsTrans(st, m.st, st1);
      GrowsTrans(st, st1, MatchFrom(h, cfg, la, lb, path, depth, i + 1, m.used, allEqual && m.ok, misses1, st1).st);
    }
  }

  /** The greedy inner loop only grows the state. */
  lemma {:induction false} MatchOneInvariant(h: Heap, cfg: Config, la: seq<Value>, lb: seq<Value>, path: string,
                                             depth: int, i: nat, j: nat, used: seq<bool>, st: St)
    requires cfg.maxDepth.Some? && Closed(h) && AllValid(h, la) && AllValid(h, lb)
    requires depth <= cfg.maxDepth.value && i < |la| && j <= |lb| && |used| == |lb|
    ensures Grows(st, MatchOne(h, cfg, la, lb, path, depth, i, j, used, st).st)
    decreases cfg.maxDepth.value - depth, 1, |lb| - j
  {
    if j < |lb| {
      if used[j] {
        MatchOneInvariant(h, cfg, la, lb, path, depth, i, j + 1, used, st);
      } else {
        var r := Compare(h, cfg, la[i], lb[j], IndexPath(path, i), depth + 1, st);
        CompareInvariant(h, cfg, la[i], lb[j], IndexPath(path, i), depth + 1, st);
        if !r.equal {
          MatchOneInvariant(h, cfg, la, lb, path, depth, i, j + 1, used, r.st);
          GrowsTrans(st, r.st, MatchOne(h, cfg, la, lb, path, depth, i, j + 1, used, r.st).st);
        }
      }
    }
  }

  // ---------------------------------------------------------------------------
  // The greedy matcher
  // ---------------------------------------------------------------------------

  /** The inner loop: a success marks exactly one B index that was unused, a failure marks none. */
  lemma {:induction false} MatchOneMarksOne(h: Heap, cfg: Config, la: seq<Value>, lb: seq<Value>, path: string,
                                            depth: int, i: nat, j: nat, used: seq<bool>, st: St)
    requires cfg.maxDepth.Some? && Closed(h) && AllValid(h, la) && AllValid(h, lb)
    requires depth <= cfg.maxDepth.value && i < |la| && j <= |lb| && |used| == |lb|
    ensures var r := MatchOne(h, cfg, la, lb, path, depth, i, j, used, st);
            && (r.ok ==> exists k :: j <= k < |lb| && !used[k] && r.used == used[k := true])
            && (!r.ok ==> r.used == used)
    decreases |lb| - j
  {
    if j < |lb| {
      if used[j] {
        MatchOneMarksOne(h, cfg, la, lb, path, depth, i, j + 1, used, st);
      } else {
        var r := Compare(h, cfg, la[i], lb[j], IndexPath(path, i), depth + 1, st);
        if !r.equal {
          MatchOneMarksOne(h, cfg, la, lb, path, depth, i, j + 1, used, r.st);
        }
      }
    }
  }

  /** The outer loop from index i on keeps one flag per B index, and a flag once set stays set. */
  lemma {:induction false} MatchFromKeepsFlags(h: Heap, cfg: Config, la: seq<Value>, lb: seq<Value>, path: string,
                                               depth: int, i: nat, used: seq<bool>, allEqual: bool, misses: seq<nat>,
                                               st: St)
    requires cfg.maxDepth.Some? && Closed(h) && AllValid(h, la) && AllValid(h, lb)
    requires depth <= cfg.maxDepth.value && i <= |la| && |used| == |lb|
    ensures var r := MatchFrom(h, cfg, la, lb, path, depth, i, used, allEqual, misses, st);
            |r.used| == |lb| && forall j :: 0 <= j < |lb| && used[j] ==> r.used[j]
    decreases |la| - i
  {
    if i < |la| {
      var m := MatchOne(h, cfg, la, lb, path, depth, i, 0, used, st);
      MatchOneMarksOne(h, cfg, la, lb, path, depth, i, 0, used, st);
      if m.ok {
        MatchFromKeepsFlags(h, cfg, la, lb, path, depth, i + 1, m.used, allEqual, misses, m.st);
      } else {
        MatchFromKeepsFlags(h, cfg, la, lb, path, depth, i + 1, m.used, false, misses + [i], m.st.Log(NoMatchMsg(path, i)));
      }
    }
  }

  /**
   * The outer loop from index i on: every element either sets exactly one
   * flag that was clear (so no B index serves two elements) or is added to
   * the misses.
   */
  lemma {:induction false} MatchFromCountsFlags(h: Heap, cfg: Config, la: seq<Value>, lb: seq<Value>, path: string,
                                                depth: int, i: nat, used: seq<bool>, allEqual: bool, misses: seq<nat>,
                                                st: St)
    requires cfg.maxDepth.Some? && Closed(h) && AllValid(h, la) && AllValid(h, lb)
    requires depth <= cfg.maxDepth.value && i <= |la| && |used| == |lb|
    ensures var r := MatchFrom(h, cfg, la, lb, path, depth, i, used, allEqual, misses, st);
            CountTrue(r.used) + |r.misses| == CountTrue(used) + |misses| + (|la| - i)
    decreases |la| - i
  {
    if i < |la| {
      var m := MatchOne(h, cfg, la, lb, path, depth, i, 0, used, st);
      MatchOneMarksOne(h, cfg, la, lb, path, depth, i, 0, used, st);
      if m.ok {
        var k :| 0 <= k < |lb| && !used[k] && m.used == used[k := true];
        CountTrueSet(used, k);
        MatchFromCountsFlags(h, cfg, la, lb, path, depth, i + 1, m.used, allEqual, misses, m.st);
      } else {
        MatchFromCountsFlags(h, cfg, la, lb, path, depth, i + 1, m.used, false, misses + [i], m.st.Log(NoMatchMsg(path, i)));
      }
    }
  }

  /**
   * The outer loop from index i on, its misses: the indices it adds lie in
   * [i, |la|) in increasing order, and it succeeds exactly when it adds none
   * (and no earlier element missed).
   */
  lemma {:induction false} MatchFromMisses(h: Heap, cfg: Config, la: seq<Value>, lb: seq<Value>, path: string,
                                           depth: int, i: nat, used: seq<bool>, allEqual: bool, misses: seq<nat>,
                                           st: St)
    requires cfg.maxDepth.Some? && Closed(h) && AllValid(h, la) && AllValid(h, lb)
    requires depth <= cfg.maxDepth.value && i <= |la| && |used| == |lb|
    ensures var r := MatchFrom(h, cfg, la, lb, path, depth, i, used, allEqual, misses, st);
            && misses <= r.misses
            && (forall p :: |misses| <= p < |r.misses| ==> i <= r.misses[p] < |la|)
            && (forall p, q :: |misses| <= p < q < |r.misses| ==> r.misses[p] < r.misses[q])
            && (r.ok <==> allEqual && |r.misses| == |misses|)
    decreases |la| - i
  {
    if i < |la| {
      var m := MatchOne(h, cfg, la, lb, path, depth, i, 0, used, st);
      if m.ok {
        MatchFromMisses(h, cfg, la, lb, path, depth, i + 1, m.used, allEqual, misses, m.st);
      } else {
        MatchFromMisses(h, cfg, la, lb, path, depth, i + 1, m.used, false, misses + [i], m.st.Log(NoMatchMsg(path, i)));
      }
    }
  }

  /** Every index the outer loop adds to the misses has its "No matching item found" line among the new lines. */
  lemma {:induction false} MatchFromLines(h: Heap, cfg: Config, la: seq<Value>, lb: seq<Value>, path: string,
                                          depth: int, i: nat, used: seq<bool>, allEqual: bool, misses: seq<nat>,
                                          st: St)
    requires cfg.maxDepth.Some? && Closed(h) && AllValid(h, la) && AllValid(h, lb)
    requires depth <= cfg.maxDepth.value && i <= |la| && |used| == |lb|
    ensures var r := MatchFrom(h, cfg, la, lb, path, depth, i, used, allEqual, misses, st);
            && st.diffs <= r.st.diffs
            && (forall p :: |misses| <= p < |r.misses| ==> NoMatchMsg(path, r.misses[p]) in r.st.diffs[|st.diffs|..])
    decreases |la| - i
  {
    if i < |la| {
      var m := MatchOne(h, cfg, la, lb, path, depth, i, 0, used, st);
      MatchOneInvariant(h, cfg, la, lb, path, depth, i, 0, used, st);
      if m.ok {
        MatchFromLines(h, cfg, la, lb, path, depth, i + 1, m.used, allEqual, misses, m.st);
        var r := MatchFrom(h, cfg, la, lb, path, depth, i + 1, m.used, allEqual, misses, m.st);
        SuffixOfGrowth(st.diffs, m.st.diffs, r.st.diffs);
      } else {
        var st1 := m.st.Log(NoMatchMsg(path, i));
        MatchFromLines(h, cfg, la, lb, path, depth, i + 1, m.used, false, misses + [i], st1);
        MatchFromMisses(h, cfg, la, lb, path, depth, i + 1, m.used, false, misses + [i], st1);
        var r := MatchFrom(h, cfg, la, lb, path, depth, i + 1, m.used, false, misses + [i], st1);
        SuffixOfGrowth(st.diffs, st1.diffs, r.st.diffs);
        assert r.misses[|misses|] == i;
        assert r.st.diffs[|st1.diffs| - 1] == NoMatchMsg(path, i);
      }
    }
  }

  /** Lines already past a prefix stay in place as the list grows. */
  lemma SuffixOfGrowth(d0: seq<string>, d1: seq<string>, d2: seq<string>)
    requires d0 <= d1 <= d2
    ensures d0 <= d2
    ensures forall x :: x in d2[|d1|..] ==> x in d2[|d0|..]
  {
  }

  // ---------------------------------------------------------------------------
  // Collections
  // ---------------------------------------------------------------------------

  /** Collections of different lengths differ with one "counts differ" line; two empty ones are equal. */
  lemma CollectionCounts(h: Heap, cfg: Config, la: seq<Value>, lb: seq<Value>, path: string, depth: int, st: St)
    requires cfg.maxDepth.Some? && Closed(h) && AllValid(h, la) && AllValid(h, lb)
    requires depth <= cfg.maxDepth.value
    ensures |la| != |lb| ==>
              CompareEnumerables(h, cfg, la, lb, path, depth, st) == Res(false, st.Log(CountsDifferMsg(path, |la|, |lb|)))
    ensures la == [] && lb == [] ==> CompareEnumerables(h, cfg, la, lb, path, depth, st) == Res(true, st)
  {
  }

  /** Equal multisets have equal sets of distinct elements. */
  lemma SameMultisetSameElements(s: seq<Key>, t: seq<Key>)
    requires multiset(s) == multiset(t)
    ensures (set k | k in s) == (set k | k in t)
  {
    forall k | k in s ensures k in t {
      assert k in multiset(s);
    }
    forall k | k in t ensures k in s {
      assert k in multiset(t);
    }
  }

  /**
   * The fast path: when every element on both sides is null or simple, two
   * collections of one length are equal exactly when their elements are equal
   * as multisets (by Equals).
   */
  lemma FastPathIsMultisetEquality(h: Heap, cfg: Config, la: seq<Value>, lb: seq<Value>, path: string, depth: int,
                                   st: St)
    requires cfg.maxDepth.Some? && Closed(h) && AllValid(h, la) && AllValid(h, lb)
    requires depth <= cfg.maxDepth.value && |la| == |lb|
    requires AllSimple(h, cfg.custom, la) && AllSimple(h, cfg.custom, lb)
    ensures CompareEnumerables(h, cfg, la, lb, path, depth, st).equal
            <==> multiset(Keys(h, la)) == multiset(Keys(h, lb))
  {
    if |la| == 0 {
      assert Keys(h, la) == [] && Keys(h, lb) == [];
    } else {
      assert CompareEnumerables(h, cfg, la, lb, path, depth, st) == MultisetOutcome(Keys(h, la), Keys(h, lb), path, st);
      MultisetOutcomeEquality(Keys(h, la), Keys(h, lb), path, st);
    }
  }

  /** The fast path's verdict is multiset equality of the keys. */
  lemma MultisetOutcomeEquality(ka: seq<Key>, kb: seq<Key>, path: string, st: St)
    ensures MultisetOutcome(ka, kb, path, st).equal <==> multiset(ka) == multiset(kb)
  {
    if multiset(ka) == multiset(kb) {
      SameMultisetSameElements(ka, kb);
    }
  }

  /** Reordering the elements reorders their keys: the key multiset is unchanged. */
  lemma {:induction false} KeysPermutation(h: Heap, s: seq<Value>, t: seq<Value>)
    requires AllValid(h, s) && AllValid(h, t) && multiset(s) == multiset(t)
    ensures multiset(Keys(h, s)) == multiset(Keys(h, t))
    decreases |s|
  {
    if s != [] {
      assert s[0] in multiset(t);
      var k :| 0 <= k < |t| && t[k] == s[0];
      PermRemove(s, t, k);
      assert s[..0] + s[1..] == s[1..];
      KeysRemoveOne(h, t, k);
      KeysRemoveOne(h, s, 0);
      KeysPermutation(h, s[1..], t[..k] + t[k + 1..]);
      PermInsert(Keys(h, s), Keys(h, t), k);
    }
  }

  /** Matching the head of s with t[k] leaves two permutations of each other. */
  lemma PermRemove<T>(s: seq<T>, t: seq<T>, k: nat)
    requires multiset(s) == multiset(t) && |s| > 0 && k < |t| && t[k] == s[0]
    ensures multiset(s[1..]) == multiset(t[..k] + t[k + 1..])
  {
    assert t == t[..k] + [t[k]] + t[k + 1..];
    assert s == [s[0]] + s[1..];
    var x, rest := s[0], t[..k] + t[k + 1..];
    assert multiset(t) == multiset(rest) + multiset{x};
    assert multiset(s) == multiset(s[1..]) + multiset{x};
    assert multiset(rest) == multiset(t) - multiset{x};
    assert multiset(s[1..]) == multiset(s) - multiset{x};
  }

  /** Putting back a matched pair keeps two sequences permutations of each other. */
  lemma PermInsert<T>(s: seq<T>, t: seq<T>, k: nat)
    requires |s| > 0 && k < |t| && t[k] == s[0] && multiset(s[1..]) == multiset(t[..k] + t[k + 1..])
    ensures multiset(s) == multiset(t)
  {
    assert t == t[..k] + [t[k]] + t[k + 1..];
    assert s == [s[0]] + s[1..];
  }

  /** The keys of a sequence with one element taken out are its keys with that key taken out. */
  lemma KeysRemoveOne(h: Heap, t: seq<Value>, k: nat)
    requires AllValid(h, t) && k < |t|
    ensures AllValid(h, t[..k] + t[k + 1..])
    ensures Keys(h, t[..k] + t[k + 1..]) == Keys(h, t)[..k] + Keys(h, t)[k + 1..]
  {
    var rest := t[..k] + t[k + 1..];
    assert AllValid(h, rest) by {
      forall p | 0 <= p < |rest| ensures ValidValue(h, rest[p]) {
        if p < k { assert rest[p] == t[p]; } else { assert rest[p] == t[p + 1]; }
      }
    }
  }

  /** On all-simple collections the outcome, lines included, ignores the order of either side. */
  lemma FastPathIgnoresOrder(h: Heap, cfg: Config, la: seq<Value>, lb: seq<Value>, pa: seq<Value>, pb: seq<Value>,
                             path: string, depth: int, st: St)
    requires cfg.maxDepth.Some? && Closed(h) && AllValid(h, la) && AllValid(h, lb)
    requires AllValid(h, pa) && AllValid(h, pb)
    requires multiset(pa) == multiset(la) && multiset(pb) == multiset(lb)
    requires AllSimple(h, cfg.custom, la) && AllSimple(h, cfg.custom, lb)
    ensures CompareEnumerables(h, cfg, pa, pb, path, depth, st) == CompareEnumerables(h, cfg, la, lb, path, depth, st)
  {
    assert |pa| == |la| && |pb| == |lb| by {
      assert |multiset(pa)| == |pa| && |multiset(la)| == |la|;
      assert |multiset(pb)| == |pb| && |multiset(lb)| == |lb|;
    }
    SimpleUnderPermutation(h, cfg.custom, la, pa);
    SimpleUnderPermutation(h, cfg.custom, lb, pb);
    KeysPermutation(h, pa, la);
    KeysPermutation(h, pb, lb);
    SameMultisetSameElements(Keys(h, pa), Keys(h, la));
    SameMultisetSameElements(Keys(h, pb), Keys(h, lb));
  }

  /** Being all-simple is a property of the multiset of elements. */
  lemma SimpleUnderPermutation(h: Heap, custom: Option<TypeDesc -> bool>, s: seq<Value>, t: seq<Value>)
    requires AllValid(h, s) && AllValid(h, t) && multiset(s) == multiset(t)
    requires AllSimple(h, custom, s)
    ensures AllSimple(h, custom, t)
  {
    forall k | 0 <= k < |t| ensures ElementIsSimple(h, custom, t[k]) {
      assert t[k] in multiset(s);
      var p :| 0 <= p < |s| && s[p] == t[k];
    }
  }

  /**
   * As written, the fast path answers "not equal" without recording any line
   * when the numbers of distinct elements differ: [1, 1] against [1, 2].
   */
  lemma SilentMultisetMismatch(one: Obj, two: Obj, st: St)
    requires one.tag == two.tag && one.value != two.value
    ensures var ka := [ObjKey(one.tag, one.value), ObjKey(one.tag, one.value)];
            var kb := [ObjKey(one.tag, one.value), ObjKey(two.tag, two.value)];
            MultisetOutcome(ka, kb, "Items", st) == Res(false, st)
  {
    var x, y := ObjKey(one.tag, one.value), ObjKey(two.tag, two.value);
    assert (set k | k in [x, x]) == {x};
    assert (set k | k in [x, y]) == {x, y};
  }

  /** The key of an element is the null key exactly when the element is null. */
  lemma NullKeyOnlyForNull(h: Heap, s: seq<Value>)
    requires AllValid(h, s)
    ensures NullKey in Keys(h, s) <==> Null in s
  {
    var ks := Keys(h, s);
    if NullKey in ks {
      var k :| 0 <= k < |ks| && ks[k] == NullKey;
      assert s[k] == Null;
    }
    if Null in s {
      var k :| 0 <= k < |s| && s[k] == Null;
      assert ks[k] == NullKey;
    }
  }

  /**
   * Two collections each holding one null element pass the all-simple test;
   * the intended comparison counts the nulls and answers equal, where the
   * program's count dictionaries throw.
   */
  lemma NullElementCounterexample(h: Heap, cfg: Config, path: string, depth: int, st: St)
    requires cfg.maxDepth.Some? && Closed(h) && depth <= cfg.maxDepth.value
    ensures AllValid(h, [Null]) && AllSimple(h, cfg.custom, [Null])
    ensures CompareEnumerables(h, cfg, [Null], [Null], path, depth, st) == Res(true, st)
    ensures MultisetOutcomeAsWritten(Keys(h, [Null]), Keys(h, [Null]), path, st) == None
  {
    assert Keys(h, [Null]) == [NullKey];
  }

  /** The fast path as written throws exactly when either collection holds a null element. */
  lemma AsWrittenThrowsOnNull(h: Heap, la: seq<Value>, lb: seq<Value>, path: string, st: St)
    requires AllValid(h, la) && AllValid(h, lb)
    ensures MultisetOutcomeAsWritten(Keys(h, la), Keys(h, lb), path, st).None? <==> Null in la || Null in lb
  {
    NullKeyOnlyForNull(h, la);
    NullKeyOnlyForNull(h, lb);
  }

  /** Without a null element the fast path as written and the intended one agree, lines included. */
  lemma FastPathAgreesWithoutNull(h: Heap, cfg: Config, la: seq<Value>, lb: seq<Value>, path: string, depth: int,
                                  st: St)
    requires cfg.maxDepth.Some? && Closed(h) && AllValid(h, la) && AllValid(h, lb)
    requires depth <= cfg.maxDepth.value && |la| == |lb| && |la| > 0
    requires AllSimple(h, cfg.custom, la) && AllSimple(h, cfg.custom, lb)
    requires Null !in la && Null !in lb
    ensures MultisetOutcomeAsWritten(Keys(h, la), Keys(h, lb), path, st)
            == Some(CompareEnumerables(h, cfg, la, lb, path, depth, st))
  {
    NullKeyOnlyForNull(h, la);
    NullKeyOnlyForNull(h, lb);
  }

  /** With the distinct counts equal, a different multiset is reported with one line. */
  lemma ReportedMultisetMismatch(ka: seq<Key>, kb: seq<Key>, path: string, st: St)
    requires |set k | k in ka| == |set k | k in kb| && multiset(ka) != multiset(kb)
    ensures MultisetOutcome(ka, kb, path, st) == Res(false, st.Log(MultisetDiffersMsg(path)))
  {
  }

  // ---------------------------------------------------------------------------
  // The greedy matcher from its start
  // ---------------------------------------------------------------------------

  /** Every flag set means every index used (a full count of true flags). */
  lemma {:induction false} CountTrueAll(s: seq<bool>)
    requires CountTrue(s) == |s|
    ensures forall j :: 0 <= j < |s| ==> s[j]
  {
    if s != [] {
      CountTrueBound(s[1..]);
      CountTrueAll(s[1..]);
      forall j | 0 <= j < |s| ensures s[j] {
        if j > 0 { assert s[j] == s[1..][j - 1]; }
      }
    }
  }

  lemma {:induction false} CountTrueBound(s: seq<bool>)
    ensures CountTrue(s) <= |s|
  {
    if s != [] {
      CountTrueBound(s[1..]);
    }
  }

  lemma {:induction false} CountTrueNone(s: seq<bool>)
    requires forall j :: 0 <= j < |s| ==> !s[j]
    ensures CountTrue(s) == 0
  {
    if s != [] {
      assert !s[0];
      CountTrueNone(s[1..]);
    }
  }

  /**
   * The general case of a collection comparison, from its start: the matcher
   * succeeds exactly when no element went unmatched; the matched elements took
   * pairwise distinct B indices (as many used flags as matches); each unmatched
   * index, listed once in increasing order, has its "No matching item found"
   * line; and a success pairs every B element with exactly one A element.
   */
  lemma GreedyMatching(h: Heap, cfg: Config, la: seq<Value>, lb: seq<Value>, path: string, depth: int, st: St)
    requires cfg.maxDepth.Some? && Closed(h) && AllValid(h, la) && AllValid(h, lb)
    requires depth <= cfg.maxDepth.value && |la| == |lb|
    ensures var r := MatchFrom(h, cfg, la, lb, path, depth, 0, Unused(|lb|), true, [], st);
            && |r.used| == |lb| && |st.diffs| <= |r.st.diffs|
            && (r.ok <==> r.misses == [])
            && CountTrue(r.used) == |la| - |r.misses|
            && (forall p, q :: 0 <= p < q < |r.misses| ==> r.misses[p] < r.misses[q])
            && (forall p :: 0 <= p < |r.misses| ==> r.misses[p] < |la|)
            && (forall p :: 0 <= p < |r.misses| ==> NoMatchMsg(path, r.misses[p]) in r.st.diffs[|st.diffs|..])
            && (r.ok ==> forall j :: 0 <= j < |lb| ==> r.used[j])
  {
    var none := Unused(|lb|);
    MatchFromKeepsFlags(h, cfg, la, lb, path, depth, 0, none, true, [], st);
    MatchFromCountsFlags(h, cfg, la, lb, path, depth, 0, none, true, [], st);
    MatchFromMisses(h, cfg, la, lb, path, depth, 0, none, true, [], st);
    MatchFromLines(h, cfg, la, lb, path, depth, 0, none, true, [], st);
    CountTrueNone(none);
    var r := MatchFrom(h, cfg, la, lb, path, depth, 0, none, true, [], st);
    if r.ok {
      CountTrueAll(r.used);
    }
  }

  /** The general case as the collection comparison takes it. */
  lemma GeneralCase(h: Heap, cfg: Config, la: seq<Value>, lb: seq<Value>, path: string, depth: int, st: St)
    requires cfg.maxDepth.Some? && Closed(h) && AllValid(h, la) && AllValid(h, lb)
    requires depth <= cfg.maxDepth.value && |la| == |lb| && |la| > 0
    requires !(AllSimple(h, cfg.custom, la) && AllSimple(h, cfg.custom, lb))
    ensures var m := MatchFrom(h, cfg, la, lb, path, depth, 0, Unused(|lb|), true, [], st);
            CompareEnumerables(h, cfg, la, lb, path, depth, st) == Res(m.misses == [], m.st)
  {
    GreedyMatching(h, cfg, la, lb, path, depth, st);
  }

  // ---------------------------------------------------------------------------
  // Type rules
  // ---------------------------------------------------------------------------

  /** The custom predicate can only add simple types; without it the built-in chain decides. */
  lemma CustomPredicateOnlyAdds(t: TypeDesc, custom: Option<TypeDesc -> bool>)
    ensures BuiltinSimple(t) ==> IsSimpleComparable(t, custom)
    ensures IsSimpleComparable(t, None) == BuiltinSimple(t)
    ensures CustomAccepts(custom, t) ==> IsSimpleComparable(t, custom)
    ensures IsSimpleComparable(t, custom) <==> CustomAccepts(custom, t) || BuiltinSimple(t)
  {
  }

  /**
   * The built-in chain, order aside: every value type, string, every type
   * implementing IComparable and the nullable forms of the listed kinds are
   * simple; a class that is none of these is not.
   */
  lemma BuiltinSimpleCharacterised(t: TypeDesc)
    ensures BuiltinSimple(t) <==>
              || IsValueType(t.kind) || t.kind == String || t.comparable
              || (t.nullableOf.Some? && t.nullableOf.value in {Primitive, Enum, Decimal, DateTime, DateTimeOffset, TimeSpan, Guid})
    ensures t.kind == Class && t.nullableOf.None? ==> (BuiltinSimple(t) <==> t.comparable)
  {
  }

  /**
   * The enumerable accessor: an IEnumerable other than string enumerates
   * itself; a string never does; otherwise an Items property wins over a
   * Values property; a type with none of these is not a collection.
   */
  lemma AccessorPreferences(t: TypeDesc)
    ensures t.enumerable && t.kind != String <==> AccessorOf(t) == SelfEnumerable
    ensures t.kind == String ==> AccessorOf(t) != SelfEnumerable
    ensures AccessorOf(t) == ValuesProperty ==> "Items" !in t.enumerableProps && "Values" in t.enumerableProps
    ensures AccessorOf(t) == NoAccessor <==>
              !(t.enumerable && t.kind != String) && "Items" !in t.enumerableProps && "Values" !in t.enumerableProps
  {
  }

  /** The member list depends on the three member flags alone, not on the depth options or the predicate. */
  lemma MembersDependOnFlagsOnly(t: TypeDesc, c1: Config, c2: Config)
    requires c1.publicOnly == c2.publicOnly && c1.propertiesOnly == c2.propertiesOnly && c1.jsonIgnore == c2.jsonIgnore
    ensures ComparableMembers(t, c1) == ComparableMembers(t, c2)
  {
  }

  /** Two elements have one key exactly when both are null, or both have one runtime type and one payload. */
  lemma KeyEquality(h: Heap, a: Value, b: Value)
    requires ValidValue(h, a) && ValidValue(h, b)
    ensures KeyOf(h, a) == KeyOf(h, b) <==>
              (a.Null? && b.Null?) || (a.Ref? && b.Ref? && h[a.id].tag == h[b.id].tag && h[a.id].value == h[b.id].value)
  {
  }

  /** The extra custom test of the fast path adds nothing to the simple-type test. */
  lemma ElementTestRedundant(h: Heap, custom: Option<TypeDesc -> bool>, v: Value)
    requires ValidValue(h, v)
    ensures ElementIsSimple(h, custom, v) <==> v.Null? || IsSimpleComparable(h[v.id].tag, custom)
  {
  }

  /** Members of one object get distinct paths. */
  lemma SubPathInjective(path: string, n1: string, n2: string)
    requires SubPath(path, n1) == SubPath(path, n2)
    ensures n1 == n2
  {
    var r := SubPath(path, n1);
    assert |n1| == |n2|;
    assert n1 == r[|r| - |n1|..] == n2;
  }

  /** Elements of one collection get distinct paths. */
  lemma IndexPathInjective(path: string, i: nat, j: nat)
    requires IndexPath(path, i) == IndexPath(path, j)
    ensures i == j
  {
  }
}
