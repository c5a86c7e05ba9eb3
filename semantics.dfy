/**
 * The meaning of one comparison, as functions of the heap, the configuration
 * and the state a comparison threads through: the visited-pair set and the
 * difference list. Each function follows one routine of the engine, branch
 * by branch; loops become functions of the loop index. The imperative engine
 * (module Engine) is proved to compute exactly these, and the properties the
 * comparer promises are proved about these (module Properties).
 *
 * Termination needs a maximum depth: every recursive step goes one level
 * deeper and happens only at a depth within the maximum.
 */
module Semantics {
  import opened Model
  import opened Text
  import opened TypeRules

  /** The mutable part of a comparison: visited pairs and the differences recorded so far. */
  datatype St = St(visited: set<(Id, Id)>, diffs: seq<string>) {
    function Log(line: string): St {
      St(visited, diffs + [line])
    }
  }

  /** The verdict of one comparison with the state after it. */
  datatype Res = Res(equal: bool, st: St)

  /** The outcome of a matching loop: whether it succeeded, the used[] flags after it, and the state. */
  datatype Match = Match(ok: bool, used: seq<bool>, st: St)

  /**
   * The outcome of the outer matching loop: whether every element found a
   * match, the used[] flags, the indices (in the first collection) of the
   * elements that found none, and the state.
   */
  datatype Greedy = Greedy(ok: bool, used: seq<bool>, misses: seq<nat>, st: St)

  /** The state only grows: no visited pair is forgotten and no difference line changed or removed. */
  ghost predicate Grows(st: St, st': St) {
    st.visited <= st'.visited && st.diffs <= st'.diffs
  }

  ghost predicate AllValid(h: Heap, s: seq<Value>) {
    forall k :: 0 <= k < |s| ==> ValidValue(h, s[k])
  }

  function CountTrue(s: seq<bool>): nat {
    if s == [] then 0 else (if s[0] then 1 else 0) + CountTrue(s[1..])
  }

  /** `n` flags, none of them set: the used[] array as allocated. */
  function Unused(n: nat): (r: seq<bool>)
    ensures |r| == n && forall j :: 0 <= j < n ==> !r[j]
  {
    if n == 0 then [] else Unused(n - 1) + [false]
  }

  /** Setting one unset flag raises the count by exactly one. */
  lemma {:induction false} CountTrueSet(s: seq<bool>, k: nat)
    requires k < |s| && !s[k]
    ensures CountTrue(s[k := true]) == CountTrue(s) + 1
  {
    if k > 0 {
      CountTrueSet(s[1..], k - 1);
      assert s[k := true][1..] == s[1..][k - 1 := true];
    } else {
      assert s[k := true][1..] == s[1..];
    }
  }

  /** A subset of a finite set with as many elements is the set itself. */
  lemma SubsetSameSize<T>(s: set<T>, t: set<T>)
    requires s <= t && |s| == |t|
    ensures s == t
  {
    assert s + t == t && s * t == s;
    assert |t - s| == 0;
    assert t - s == {};
  }

  /** `counts` holds exactly the distinct keys of `ks`, each with its multiplicity. */
  ghost predicate CountsOf(counts: map<Key, nat>, ks: seq<Key>) {
    && counts.Keys == (set k | k in ks)
    && forall k :: k in counts ==> counts[k] == multiset(ks)[k]
  }

  /** The count dictionary of a key sequence, filled front to back. */
  ghost function Tally(ks: seq<Key>): map<Key, nat> {
    if ks == [] then map[]
    else
      var m := Tally(ks[..|ks| - 1]);
      var k := ks[|ks| - 1];
      m[k := (if k in m then m[k] else 0) + 1]
  }

  /** The count dictionary holds exactly the distinct keys, each with its multiplicity. */
  lemma {:induction false} TallyIsMultiset(ks: seq<Key>)
    ensures CountsOf(Tally(ks), ks)
  {
    if ks != [] {
      var init, last := ks[..|ks| - 1], ks[|ks| - 1];
      TallyIsMultiset(init);
      assert ks == init + [last];
      assert multiset(ks) == multiset(init) + multiset{last};
      assert (set k | k in ks) == (set k | k in init) + {last};
    }
  }

  /**
   * Two count dictionaries with equally many keys, where every key of the
   * first has the same count in the second, describe the same multiset.
   */
  lemma SameCountsSameMultiset(ka: seq<Key>, kb: seq<Key>, ca: map<Key, nat>, cb: map<Key, nat>)
    requires CountsOf(ca, ka) && CountsOf(cb, kb) && |ca| == |cb|
    requires forall k :: k in ca ==> k in cb && cb[k] == ca[k]
    ensures multiset(ka) == multiset(kb)
  {
    SubsetSameSize(ca.Keys, cb.Keys);
    forall k
      ensures multiset(ka)[k] == multiset(kb)[k]
    {
      if k !in ca {
        assert k !in ka && k !in kb;
      }
    }
  }

  /** What happens at a node below the maximum depth, by the configured policy. */
  ghost function DepthOutcome(cfg: Config, path: string, st: St): Res
    requires cfg.maxDepth.Some?
  {
    match cfg.onMaxDepthReached
    case TreatAsEqual => Res(true, st)
    case TreatAsDifferent => Res(false, st.Log(DepthLimitMsg(path, cfg.maxDepth.value)))
    case LogDifference => Res(true, st.Log(DepthLimitMsg(path, cfg.maxDepth.value)))
    case OutOfRange(_) => Res(false, st)
  }

  /** The fast path's verdict on two all-simple collections, in the order the engine decides it. */
  ghost function MultisetOutcome(ka: seq<Key>, kb: seq<Key>, path: string, st: St): Res {
    if |set k | k in ka| != |set k | k in kb| then Res(false, st)
    else if multiset(ka) != multiset(kb) then Res(false, st.Log(MultisetDiffersMsg(path)))
    else Res(true, st)
  }

  /**
   * The fast path as the program has it: building either count dictionary
   * throws on a null element (None), before any count is compared.
   */
  ghost function MultisetOutcomeAsWritten(ka: seq<Key>, kb: seq<Key>, path: string, st: St): Option<Res> {
    if NullKey in ka || NullKey in kb then None else Some(MultisetOutcome(ka, kb, path, st))
  }

  /** One comparison of `a` and `b` at `path` and `depth`. */
  ghost function Compare(h: Heap, cfg: Config, a: Value, b: Value, path: string, depth: int, st: St): (r: Res)
    requires cfg.maxDepth.Some? && Closed(h) && ValidValue(h, a) && ValidValue(h, b)
    decreases cfg.maxDepth.value - depth, 3
  {
    if depth > cfg.maxDepth.value then DepthOutcome(cfg, path, st)
    else if a == b then Res(true, st)
    else if a.Null? || b.Null? then Res(false, st.Log(NullMsg(path)))
    else
      var ta, tb := h[a.id].tag, h[b.id].tag;
      if ta != tb then Res(false, st.Log(TypesDifferMsg(path, ta, tb)))
      else if IsWeakReferenceType(ta) then Res(true, st)
      else if IsSimpleComparable(ta, cfg.custom) then
        if h[a.id].value != h[b.id].value then
          Res(false, st.Log(ValuesDifferMsg(path, FormatValue(h, a), FormatValue(h, b))))
        else Res(true, st)
      else
        CompareStructured(h, cfg, a.id, b.id, path, depth, st)
  }

  /** The rest of one comparison for two objects of one type that is neither weak nor simple. */
  ghost function CompareStructured(h: Heap, cfg: Config, a: Id, b: Id, path: string, depth: int, st: St): (r: Res)
    requires cfg.maxDepth.Some? && Closed(h) && a in h && b in h && depth <= cfg.maxDepth.value
    decreases cfg.maxDepth.value - depth, 2
  {
    var ea, eb := TryGetEnumerable(h, a), TryGetEnumerable(h, b);
    if ea.Some? || eb.Some? then
      if ea.None? || eb.None? then Res(false, st.Log(OneIsCollectionMsg(path)))
      else CompareEnumerables(h, cfg, ea.value, eb.value, path, depth + 1, st)
    else
      var key := VisitKey(a, b);
      if key in st.visited then Res(true, st)
      else
        var st1 := st.(visited := st.visited + {key});
        var members := ComparableMembers(h[a].tag, cfg);
        if |members| == 0 then Res(true, st1)
        else CompareMembers(h, cfg, a, b, members, path, depth, 0, true, st1)
  }

  /** The member loop from member i on, with the verdict so far. */
  ghost function CompareMembers(h: Heap, cfg: Config, a: Id, b: Id, members: seq<string>, path: string,
                                depth: int, i: nat, allEqual: bool, st: St): (r: Res)
    requires cfg.maxDepth.Some? && Closed(h) && a in h && b in h
    requires depth <= cfg.maxDepth.value && i <= |members|
    decreases cfg.maxDepth.value - depth, 1, |members| - i
  {
    if i == |members| then Res(allEqual, st)
    else
      var name := members[i];
      var fa, fb := GetMember(h[a], name), GetMember(h[b], name);
      if fa.Throws? || fb.Throws? then
        CompareMembers(h, cfg, a, b, members, path, depth, i + 1, allEqual, st)
      else
        assert ValidValue(h, fa.value) && ValidValue(h, fb.value) by {
          assert fa == h[a].fields[name] && fb == h[b].fields[name];
        }
        if (fa.value.Ref? && IsWeakReferenceType(h[fa.value.id].tag))
           || (fb.value.Ref? && IsWeakReferenceType(h[fb.value.id].tag)) then
          CompareMembers(h, cfg, a, b, members, path, depth, i + 1, allEqual, st)
        else
          var r := Compare(h, cfg, fa.value, fb.value, SubPath(path, name), depth + 1, st);
          CompareMembers(h, cfg, a, b, members, path, depth, i + 1, allEqual && r.equal, r.st)
  }

  /** The order-insensitive comparison of two materialised collections. */
  ghost function CompareEnumerables(h: Heap, cfg: Config, la: seq<Value>, lb: seq<Value>, path: string,
                                    depth: int, st: St): (r: Res)
    requires cfg.maxDepth.Some? && Closed(h) && AllValid(h, la) && AllValid(h, lb)
    decreases cfg.maxDepth.value - depth, 3
  {
    if depth > cfg.maxDepth.value then DepthOutcome(cfg, path, st)
    else if |la| != |lb| then Res(false, st.Log(CountsDifferMsg(path, |la|, |lb|)))
    else if |la| == 0 then Res(true, st)
    else if AllSimple(h, cfg.custom, la) && AllSimple(h, cfg.custom, lb) then
      MultisetOutcome(Keys(h, la), Keys(h, lb), path, st)
    else
      var m := MatchFrom(h, cfg, la, lb, path, depth, 0, Unused(|lb|), true, [], st);
      Res(m.ok, m.st)
  }

  /**
   * The outer greedy loop from A index i on: every A element takes the first
   * unused B element it compares equal to, or logs that it found none.
   */
  ghost function MatchFrom(h: Heap, cfg: Config, la: seq<Value>, lb: seq<Value>, path: string, depth: int,
                           i: nat, used: seq<bool>, allEqual: bool, misses: seq<nat>, st: St): Greedy
    requires cfg.maxDepth.Some? && Closed(h) && AllValid(h, la) && AllValid(h, lb)
    requires depth <= cfg.maxDepth.value && i <= |la| && |used| == |lb|
    decreases cfg.maxDepth.value - depth, 2, |la| - i
  {
    if i == |la| then Greedy(allEqual, used, misses, st)
    else
      var m := MatchOne(h, cfg, la, lb, path, depth, i, 0, used, st);
      if m.ok then MatchFrom(h, cfg, la, lb, path, depth, i + 1, m.used, allEqual, misses, m.st)
      else MatchFrom(h, cfg, la, lb, path, depth, i + 1, m.used, false, misses + [i], m.st.Log(NoMatchMsg(path, i)))
  }

  /**
   * The inner greedy loop for A index i from B index j on: the first unused B
   * element that compares equal is marked used; a used one is never compared.
   */
  ghost function MatchOne(h: Heap, cfg: Config, la: seq<Value>, lb: seq<Value>, path: string, depth: int,
                          i: nat, j: nat, used: seq<bool>, st: St): (r: Match)
    requires cfg.maxDepth.Some? && Closed(h) && AllValid(h, la) && AllValid(h, lb)
    requires depth <= cfg.maxDepth.value && i < |la| && j <= |lb| && |used| == |lb|
    ensures |r.used| == |lb|
    decreases cfg.maxDepth.value - depth, 1, |lb| - j
  {
    if j == |lb| then Match(false, used, st)
    else if used[j] then MatchOne(h, cfg, la, lb, path, depth, i, j + 1, used, st)
    else
      var r := Compare(h, cfg, la[i], lb[j], IndexPath(path, i), depth + 1, st);
      if r.equal then Match(true, used[j := true], r.st)
      else MatchOne(h, cfg, la, lb, path, depth, i, j + 1, used, r.st)
  }
}
