/**
 * The comparison engine as the program runs it: a per-call context object
 * holding the configuration and the visited-pair set, a difference list that
 * is only appended to, and the recursive comparison routines with their loops
 * and the used[] array of the greedy matcher. Each routine is proved to
 * compute exactly the function of the same routine in module Semantics.
 */
module Engine {
  import opened Model
  import opened Text
  import opened TypeRules
  import Sem = Semantics

  /** The per-call context: the configuration snapshot and the visited pairs. */
  class CompareContext {
    const publicOnly: bool
    const propertiesOnly: bool
    const jsonIgnore: bool
    const maxDepth: Option<int>
    const onMaxDepthReached: DepthBehavior
    const customSimpleTypePredicate: Option<TypeDesc -> bool>
    var visited: set<(Id, Id)>

    constructor (publicOnly: bool, propertiesOnly: bool, jsonIgnore: bool, opts: CompareOptions)
      ensures Config() == Model.Config(publicOnly, propertiesOnly, jsonIgnore,
                                 opts.maxDepth, opts.onMaxDepthReached, opts.customSimpleTypePredicate)
      ensures visited == {}
    {
      this.publicOnly := publicOnly;
      this.propertiesOnly := propertiesOnly;
      this.jsonIgnore := jsonIgnore;
      this.maxDepth := opts.maxDepth;
      this.onMaxDepthReached := opts.onMaxDepthReached;
      this.customSimpleTypePredicate := opts.customSimpleTypePredicate;
      this.visited := {};
    }

    /** The read-only part of the context. */
    function Config(): Config {
      Model.Config(publicOnly, propertiesOnly, jsonIgnore, maxDepth, onMaxDepthReached, customSimpleTypePredicate)
    }

    /**
     * Records the unordered pair {a, b}; true exactly when it was not recorded
     * before, so MarkVisited(a, b) then MarkVisited(b, a) answers false the
     * second time. The set only grows.
     */
    method MarkVisited(a: Id, b: Id) returns (added: bool)
      modifies this
      ensures added <==> VisitKey(a, b) !in old(visited)
      ensures visited == old(visited) + {VisitKey(a, b)}
    {
      var key := VisitKey(a, b);
      added := key !in visited;
      visited := visited + {key};
    }
  }

  /**
   * A fresh context marks a pair once: the first mark of (a, b) is new, and a
   * mark of the same pair in the other order is then already recorded.
   */
  method MarkVisitedTwice(a: Id, b: Id) returns (first: bool, second: bool)
    ensures first && !second
  {
    var ctx := new CompareContext(true, true, true, DefaultOptions);
    first := ctx.MarkVisited(a, b);
    second := ctx.MarkVisited(b, a);
  }

  /** The difference list a report collects; lines are only ever appended. */
  class DiffLog {
    var lines: seq<string>

    constructor ()
      ensures lines == []
    {
      lines := [];
    }

    method Add(line: string)
      modifies this
      ensures lines == old(lines) + [line]
    {
      lines := lines + [line];
    }
  }

  /** The report the detailed entry point returns. */
  datatype CompareResult = CompareResult(areEqual: bool, differences: seq<string>)

  /**
   * Deep equality of `obj1` and `obj2`. The member policy is given by the three
   * flags; absent options mean the defaults (maximum depth 20, treat deeper
   * nodes as different).
   */
  method Compare(h: Heap, obj1: Value, obj2: Value, publicOnly: bool := true, propertiesOnly: bool := true,
                 jsonIgnore: bool := true, options: Option<CompareOptions> := None)
    returns (equal: bool)
    requires Closed(h) && ValidValue(h, obj1) && ValidValue(h, obj2)
    requires options.Some? ==> options.value.maxDepth.Some?
    ensures var opts := options.GetOr(DefaultOptions);
            var cfg := Model.Config(publicOnly, propertiesOnly, jsonIgnore,
                                    opts.maxDepth, opts.onMaxDepthReached, opts.customSimpleTypePredicate);
            equal == Sem.Compare(h, cfg, obj1, obj2, "", 0, Sem.St({}, [])).equal
  {
    var opts := options.GetOr(DefaultOptions);
    var ctx := new CompareContext(publicOnly, propertiesOnly, jsonIgnore, opts);
    var diffs := new DiffLog();
    equal := CompareObjects(h, ctx, diffs, obj1, obj2, "", 0);
  }

  /** Like Compare, and returns the ordered list of differences found as well. */
  method CompareWithReport(h: Heap, obj1: Value, obj2: Value, publicOnly: bool := true, propertiesOnly: bool := true,
                           jsonIgnore: bool := true, options: Option<CompareOptions> := None)
    returns (result: CompareResult)
    requires Closed(h) && ValidValue(h, obj1) && ValidValue(h, obj2)
    requires options.Some? ==> options.value.maxDepth.Some?
    ensures var opts := options.GetOr(DefaultOptions);
            var cfg := Model.Config(publicOnly, propertiesOnly, jsonIgnore,
                                    opts.maxDepth, opts.onMaxDepthReached, opts.customSimpleTypePredicate);
            var r := Sem.Compare(h, cfg, obj1, obj2, "", 0, Sem.St({}, []));
            result.areEqual == r.equal && result.differences == r.st.diffs
  {
    var opts := options.GetOr(DefaultOptions);
    var ctx := new CompareContext(publicOnly, propertiesOnly, jsonIgnore, opts);
    var diffs := new DiffLog();
    var equal := CompareObjects(h, ctx, diffs, obj1, obj2, "", 0);
    result := CompareResult(equal, diffs.lines);
  }

  /** One comparison step: the decision sequence at a node, recursing into members or elements. */
  method CompareObjects(h: Heap, ctx: CompareContext, diffs: DiffLog, a: Value, b: Value, path: string, depth: int)
    returns (equal: bool)
    requires ctx.maxDepth.Some? && Closed(h) && ValidValue(h, a) && ValidValue(h, b)
    modifies ctx, diffs
    ensures Sem.Res(equal, Sem.St(ctx.visited, diffs.lines))
            == Sem.Compare(h, ctx.Config(), a, b, path, depth, Sem.St(old(ctx.visited), old(diffs.lines)))
    decreases ctx.maxDepth.value - depth, 3
  {
    if depth > ctx.maxDepth.value {
      equal := HandleMaxDepth(ctx, diffs, path);
    } else if a == b {
      equal := true;
    } else if a.Null? || b.Null? {
      diffs.Add(NullMsg(path));
      equal := false;
    } else {
      ghost var cfg, st0 := ctx.Config(), Sem.St(ctx.visited, diffs.lines);
      ghost var outcome := Sem.Compare(h, cfg, a, b, path, depth, st0);
      var ta, tb := h[a.id].tag, h[b.id].tag;
      if ta != tb {
        diffs.Add(TypesDifferMsg(path, ta, tb));
        equal := false;
      } else if IsWeakReferenceType(ta) {
        equal := true;
      } else if IsSimpleComparable(ta, ctx.customSimpleTypePredicate) {
        if h[a.id].value != h[b.id].value {
          diffs.Add(ValuesDifferMsg(path, FormatValue(h, a), FormatValue(h, b)));
          equal := false;
        } else {
          equal := true;
        }
      } else {
        var ea, eb := TryGetEnumerable(h, a.id), TryGetEnumerable(h, b.id);
        assert outcome == Sem.CompareStructured(h, cfg, a.id, b.id, path, depth, st0);
        if ea.Some? || eb.Some? {
          if ea.None? || eb.None? {
            diffs.Add(OneIsCollectionMsg(path));
            equal := false;
          } else {
            equal := CompareEnumerablesUnordered(h, ctx, diffs, ea.value, eb.value, path, depth + 1);
          }
        } else {
          // The cycle guard: a pair seen before is taken as equal
          var added := ctx.MarkVisited(a.id, b.id);
          if !added {
            equal := true;
          } else {
            var members := ComparableMembers(ta, ctx.Config());
            if |members| == 0 {
              equal := true;
            } else {
              equal := CompareMembers(h, ctx, diffs, a.id, b.id, members, path, depth);
            }
          }
        }
      }
    }
  }

  /**
   * The member loop of one object pair: every member whose getters both succeed
   * and which holds no weak reference on either side is compared one level
   * deeper; the pair is equal when every such comparison is.
   */
  method CompareMembers(h: Heap, ctx: CompareContext, diffs: DiffLog, a: Id, b: Id, members: seq<string>,
                        path: string, depth: int)
    returns (allEqual: bool)
    requires ctx.maxDepth.Some? && Closed(h) && a in h && b in h && depth <= ctx.maxDepth.value
    modifies ctx, diffs
    ensures Sem.Res(allEqual, Sem.St(ctx.visited, diffs.lines))
            == Sem.CompareMembers(h, ctx.Config(), a, b, members, path, depth, 0, true,
                                  Sem.St(old(ctx.visited), old(diffs.lines)))
    decreases ctx.maxDepth.value - depth, 2
  {
    ghost var cfg, st1 := ctx.Config(), Sem.St(ctx.visited, diffs.lines);
    allEqual := true;
    var i := 0;
    while i < |members|
      invariant 0 <= i <= |members|
      invariant Sem.CompareMembers(h, cfg, a, b, members, path, depth, i, allEqual, Sem.St(ctx.visited, diffs.lines))
                == Sem.CompareMembers(h, cfg, a, b, members, path, depth, 0, true, st1)
    {
      var name := members[i];
      var subPath := SubPath(path, name);
      var fa, fb := GetMember(h[a], name), GetMember(h[b], name);
      if fa.Throws? || fb.Throws? {
        i := i + 1;
        continue;
      }
      var va, vb := fa.value, fb.value;
      assert ValidValue(h, va) && ValidValue(h, vb) by {
        assert fa == h[a].fields[name] && fb == h[b].fields[name];
      }
      if (va.Ref? && IsWeakReferenceType(h[va.id].tag)) || (vb.Ref? && IsWeakReferenceType(h[vb.id].tag)) {
        i := i + 1;
        continue;
      }
      var eq := CompareObjects(h, ctx, diffs, va, vb, subPath, depth + 1);
      if !eq { allEqual := false; }
      i := i + 1;
    }
  }

  /** The depth-exceeded policy: equal silently, different with a line, or equal with a line. */
  method HandleMaxDepth(ctx: CompareContext, diffs: DiffLog, path: string) returns (equal: bool)
    requires ctx.maxDepth.Some?
    modifies diffs
    ensures Sem.Res(equal, Sem.St(ctx.visited, diffs.lines))
            == Sem.DepthOutcome(ctx.Config(), path, Sem.St(ctx.visited, old(diffs.lines)))
    ensures ctx.onMaxDepthReached == TreatAsEqual ==> equal && diffs.lines == old(diffs.lines)
    ensures ctx.onMaxDepthReached == TreatAsDifferent ==>
              !equal && diffs.lines == old(diffs.lines) + [DepthLimitMsg(path, ctx.maxDepth.value)]
    ensures ctx.onMaxDepthReached == LogDifference ==>
              equal && diffs.lines == old(diffs.lines) + [DepthLimitMsg(path, ctx.maxDepth.value)]
    ensures ctx.onMaxDepthReached.OutOfRange? ==> !equal && diffs.lines == old(diffs.lines)
  {
    match ctx.onMaxDepthReached
    case TreatAsEqual =>
      return true;
    case TreatAsDifferent =>
      diffs.Add(DepthLimitMsg(path, ctx.maxDepth.value));
      return false;
    case LogDifference =>
      diffs.Add(DepthLimitMsg(path, ctx.maxDepth.value));
      return true;
    case OutOfRange(_) =>
      // An enum value outside the named three: not equal, nothing recorded
      return false;
  }

  /**
   * Counts of the elements by key (Equals on type and payload): exactly the
   * multiset of their keys. This is the intended counting, with a null element
   * counted under a key of its own; the program's dictionary rejects a null
   * key instead (see BuildMultisetAsWritten).
   */
  method BuildMultiset(h: Heap, items: seq<Value>) returns (counts: map<Key, nat>)
    requires Sem.AllValid(h, items)
    ensures Sem.CountsOf(counts, Keys(h, items))
  {
    ghost var ks := Keys(h, items);
    counts := map[];
    for i := 0 to |items|
      invariant counts == Sem.Tally(ks[..i])
    {
      var key := KeyOf(h, items[i]);
      var c := if key in counts then counts[key] else 0;
      assert ks[..i + 1][..i] == ks[..i] && ks[..i + 1][i] == key;
      counts := counts[key := c + 1];
    }
    assert ks[..|items|] == ks;
    Sem.TallyIsMultiset(ks);
  }

  /**
   * The ArgumentNullException the program's count dictionary raises, on a
   * lookup or an insertion with a null key.
   */
  datatype Counted = Counts(counts: map<Key, nat>) | ArgumentNullThrown

  /**
   * BuildMultiset as the program has it: the count dictionary rejects a null
   * key whatever its comparer, so the first null element throws before any
   * count is compared.
   */
  method BuildMultisetAsWritten(h: Heap, items: seq<Value>) returns (r: Counted)
    requires Sem.AllValid(h, items)
    ensures r.ArgumentNullThrown? <==> Null in items
    ensures r.Counts? ==> Sem.CountsOf(r.counts, Keys(h, items))
  {
    ghost var ks := Keys(h, items);
    var counts := map[];
    for i := 0 to |items|
      invariant Null !in items[..i]
      invariant counts == Sem.Tally(ks[..i])
    {
      if items[i].Null? {
        return ArgumentNullThrown;
      }
      var key := KeyOf(h, items[i]);
      var c := if key in counts then counts[key] else 0;
      assert ks[..i + 1][..i] == ks[..i] && ks[..i + 1][i] == key;
      assert items[..i + 1] == items[..i] + [items[i]];
      counts := counts[key := c + 1];
    }
    assert ks[..|items|] == ks && items[..|items|] == items;
    Sem.TallyIsMultiset(ks);
    return Counts(counts);
  }

  /** The order-insensitive comparison of two collections, one level deeper than the collection node. */
  method CompareEnumerablesUnordered(h: Heap, ctx: CompareContext, diffs: DiffLog, la: seq<Value>, lb: seq<Value>,
                                     path: string, depth: int)
    returns (equal: bool)
    requires ctx.maxDepth.Some? && Closed(h) && Sem.AllValid(h, la) && Sem.AllValid(h, lb)
    modifies ctx, diffs
    ensures Sem.Res(equal, Sem.St(ctx.visited, diffs.lines))
            == Sem.CompareEnumerables(h, ctx.Config(), la, lb, path, depth, Sem.St(old(ctx.visited), old(diffs.lines)))
    decreases ctx.maxDepth.value - depth, 3
  {
    if depth > ctx.maxDepth.value {
      equal := HandleMaxDepth(ctx, diffs, path);
    } else {
      var listA, listB := la, lb;
      if |listA| != |listB| {
        diffs.Add(CountsDifferMsg(path, |listA|, |listB|));
        equal := false;
      } else if |listA| == 0 {
        equal := true;
      } else if AllSimple(h, ctx.customSimpleTypePredicate, listA) && AllSimple(h, ctx.customSimpleTypePredicate, listB) {
        // Every element null or simple: compare the element counts
        equal := CompareCounts(h, ctx, diffs, listA, listB, path);
      } else {
        // Otherwise pair the elements one by one
        equal := MatchGreedily(h, ctx, diffs, listA, listB, path, depth);
      }
    }
  }

  /**
   * The greedy matcher: every element of `la`, in order, takes the first
   * unused element of `lb` it compares equal to, or records that it found none.
   */
  method MatchGreedily(h: Heap, ctx: CompareContext, diffs: DiffLog, la: seq<Value>, lb: seq<Value>,
                       path: string, depth: int)
    returns (allEqual: bool)
    requires ctx.maxDepth.Some? && Closed(h) && Sem.AllValid(h, la) && Sem.AllValid(h, lb)
    requires depth <= ctx.maxDepth.value
    modifies ctx, diffs
    ensures var m := Sem.MatchFrom(h, ctx.Config(), la, lb, path, depth, 0, Sem.Unused(|lb|), true, [],
                                   Sem.St(old(ctx.visited), old(diffs.lines)));
            allEqual == m.ok && Sem.St(ctx.visited, diffs.lines) == m.st
    decreases ctx.maxDepth.value - depth, 2
  {
    var used := new bool[|lb|](_ => false);
    allEqual := true;
    ghost var cfg, st0 := ctx.Config(), Sem.St(ctx.visited, diffs.lines);
    ghost var misses: seq<nat> := [];
    assert used[..] == Sem.Unused(|lb|);
    for i := 0 to |la|
      invariant Sem.MatchFrom(h, cfg, la, lb, path, depth, i, used[..], allEqual, misses, Sem.St(ctx.visited, diffs.lines))
                == Sem.MatchFrom(h, cfg, la, lb, path, depth, 0, Sem.Unused(|lb|), true, [], st0)
    {
      var matched := FindMatch(h, ctx, diffs, la, lb, used, path, depth, i);
      if !matched {
        diffs.Add(NoMatchMsg(path, i));
        allEqual := false;
        misses := misses + [i];
      }
    }
  }

  /**
   * The inner loop of the matcher for element i of `la`: the first unused
   * element of `lb` that compares equal is marked used; used ones are skipped.
   */
  method FindMatch(h: Heap, ctx: CompareContext, diffs: DiffLog, la: seq<Value>, lb: seq<Value>, used: array<bool>,
                   path: string, depth: int, i: nat)
    returns (matched: bool)
    requires ctx.maxDepth.Some? && Closed(h) && Sem.AllValid(h, la) && Sem.AllValid(h, lb)
    requires depth <= ctx.maxDepth.value && i < |la| && used.Length == |lb|
    modifies ctx, diffs, used
    ensures Sem.Match(matched, used[..], Sem.St(ctx.visited, diffs.lines))
            == Sem.MatchOne(h, ctx.Config(), la, lb, path, depth, i, 0, old(used[..]),
                            Sem.St(old(ctx.visited), old(diffs.lines)))
    decreases ctx.maxDepth.value - depth, 1
  {
    ghost var cfg := ctx.Config();
    ghost var m := Sem.MatchOne(h, cfg, la, lb, path, depth, i, 0, used[..], Sem.St(ctx.visited, diffs.lines));
    matched := false;
    var j := 0;
    while j < |lb|
      invariant 0 <= j <= |lb|
      invariant Sem.MatchOne(h, cfg, la, lb, path, depth, i, j, used[..], Sem.St(ctx.visited, diffs.lines)) == m
    {
      if used[j] {
        j := j + 1;
        continue;
      }
      ghost var u := used[..];
      var eq := CompareObjects(h, ctx, diffs, la[i], lb[j], IndexPath(path, i), depth + 1);
      ghost var stk := Sem.St(ctx.visited, diffs.lines);
      if eq {
        used[j] := true;
        assert used[..] == u[j := true];
        assert m == Sem.Match(true, u[j := true], stk);
        return true;
      }
      assert m == Sem.MatchOne(h, cfg, la, lb, path, depth, i, j + 1, u, stk);
      j := j + 1;
    }
  }

  /**
   * The fast path proper: compares the two count dictionaries, first by the
   * number of distinct keys (no line is recorded when that differs), then key
   * by key.
   */
  method CompareCounts(h: Heap, ctx: CompareContext, diffs: DiffLog, listA: seq<Value>, listB: seq<Value>, path: string)
    returns (equal: bool)
    requires Sem.AllValid(h, listA) && Sem.AllValid(h, listB)
    modifies diffs
    ensures Sem.Res(equal, Sem.St(ctx.visited, diffs.lines))
            == Sem.MultisetOutcome(Keys(h, listA), Keys(h, listB), path, Sem.St(ctx.visited, old(diffs.lines)))
  {
    var countsA := BuildMultiset(h, listA);
    var countsB := BuildMultiset(h, listB);
    ghost var ka, kb := Keys(h, listA), Keys(h, listB);
    if |countsA| != |countsB| {
      return false;
    }
    var pending := countsA.Keys;
    while pending != {}
      invariant pending <= countsA.Keys
      invariant forall k :: k in countsA.Keys - pending ==> k in countsB && countsB[k] == countsA[k]
      decreases pending
    {
      var k :| k in pending;
      if k !in countsB || countsB[k] != countsA[k] {
        assert multiset(ka)[k] != multiset(kb)[k];
        diffs.Add(MultisetDiffersMsg(path));
        return false;
      }
      pending := pending - {k};
    }
    Sem.SameCountsSameMultiset(ka, kb, countsA, countsB);
    return true;
  }
}
