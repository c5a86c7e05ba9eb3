# DeepComparer — a verified model of the structural-equality engine

DeepComparer decides whether two object graphs are deeply equal. It returns
either a plain verdict or a report with one line per difference found. One
comparison walks both graphs at once. At every node the engine decides in a
fixed order:

1. the depth limit, and past it the configured policy;
2. reference identity;
3. null on one side;
4. different runtime types;
5. weak references, which are never followed;
6. "simple" types, compared with `Equals`;
7. collections, compared as unordered bags;
8. the cycle guard on the pair of objects;
9. member by member, one level deeper.

Collections are compared in two ways. When every element on both sides is null
or simple, a fast path is meant to compare the two element-count dictionaries.
As written, those dictionaries reject a null element by throwing (see
"## Findings"); the model counts null under a key of its own, as intended.
Otherwise a greedy matcher pairs each element of the first collection with the
first unused equal element of the second.

Every difference line starts with the path of the node. The root's own path
is empty, so a line about the root itself starts with ": ". A member of the
root gets `Name`, a member further down `Owner.Name`, and an element
`Items[3]`.

## How the model is organised

- `model.dfy` (module `Model`) defines the runtime values over an abstract heap:
  - a value is `Null` or a reference to a heap object;
  - each object carries a type description, the payload its `Equals` looks at,
    its `ToString` text, the elements it enumerates, and what each member getter
    yields on it (a value, or a throw);
  - the module also holds the options record and its defaults (maximum depth 20,
    treat deeper nodes as different), and the unordered visited key.
- `typerules.dfy` (module `TypeRules`) holds the type decisions:
  - weak-reference types;
  - the simple-type rule chain, with the custom predicate consulted first;
  - the enumerable accessor: the object itself, else an `Items` property, else
    a `Values` property;
  - the member list under a visibility policy;
  - value formatting, the `Equals` key of an element, and the text of every
    difference line.
- `text.dfy` (module `Text`) holds decimal rendering and path construction.
- `semantics.dfy` (module `Semantics`) defines the meaning of a comparison as
  ghost functions that mirror the engine routine by routine. The state they
  thread is the visited set plus the lines so far.
- `engine.dfy` (module `Engine`) is the engine as the program runs it:
  - a `CompareContext` class that holds the configuration and the visited set;
  - a `DiffLog` class that is only appended to;
  - recursive methods with loops, and the `used` array of the greedy matcher.

  Each method is proved to compute exactly its function in `Semantics`: the
  verdict, the new visited set, and the new lines.
- `properties.dfy` (module `Properties`) proves what the comparer promises, as
  lemmas about `Semantics`. Through the method contracts these lemmas hold of
  the engine as well.
- `scenarios.dfy` (module `Scenarios`) follows two whole comparisons end to
  end from the root: two circular friend graphs, and two linked chains cut off
  by the depth limit. The walks are proved one level at a time by step lemmas
  that hold for any heap.

Termination follows the depth bound. Every method and function decreases
(maximum depth − depth, rank of the routine, loop counter).

### Behaviour as written

These are modelled exactly as the code behaves:

- **Silent "not equal" on the fast path.** When the two count dictionaries hold
  different numbers of distinct keys, the fast path answers "not equal" and
  records no line. Example: `[x, x]` against `[x, y]`
  (`Properties.SilentMultisetMismatch`). A line is recorded only when the
  distinct counts agree but some count differs
  (`Properties.ReportedMultisetMismatch`).
- **Failed trials are not undone.** A trial comparison that fails inside the
  greedy matcher keeps the lines it recorded and the pairs it marked visited.
  Later comparisons see those pairs as already visited, and the report holds
  those lines next to the "No matching item found" line.
- **Depth before identity.** The depth check comes before the identity check. So
  with a negative maximum depth, even a value compared with itself goes to the
  policy (`Properties.NegativeMaxDepthBeatsIdentity`).
- **Depth of collections.** A collection's elements are compared two levels
  below the node of the collection itself: if that node is at depth d, the
  collection comparison is entered at d + 1 and each element at d + 2. Measured
  from the object that owns the collection member, that is three levels.
- **Null elements on the fast path.** The all-simple test lets null elements
  through, but the count dictionary throws on a null key. The model keeps the
  intended counting and records the discrepancy under "## Findings".

## Model

| member | source | states |
|---|---|---|
| Engine.Compare | src/DeepComparer/DeepComparer.cs:35-45 | The verdict is `Semantics.Compare` of the two roots at path "" and depth 0, from an empty visited set; absent options mean the defaults |
| Engine.CompareWithReport | src/DeepComparer/DeepComparer.cs:60-72 | The verdict and the ordered list of differences are those of the same root comparison (`Semantics.Compare`) |
| Engine.CompareContext.constructor | src/DeepComparer/DeepComparer.cs:96-105 | The context snapshots the three member flags and the options; the visited set starts empty |
| Engine.CompareContext.MarkVisited | src/DeepComparer/DeepComparer.cs:107-113 | Adds the unordered pair key; the answer is true exactly when the key was not there before; the set only grows |
| Engine.MarkVisitedTwice | src/DeepComparer/DeepComparer.cs:107-113 | On a fresh context, marking (a, b) answers true and marking (b, a) afterwards answers false |
| Model.VisitKey | src/DeepComparer/DeepComparer.cs:109-111 | The key is the pair in ascending order, made of exactly the two identities |
| Properties.VisitKeySymmetric | src/DeepComparer/DeepComparer.cs:109-111 | The key of (a, b) equals the key of (b, a) |
| Engine.CompareObjects | src/DeepComparer/DeepComparer.cs:181-260 | The verdict, the new visited set and the new lines are exactly `Semantics.Compare` at this node (its structured part is `Semantics.CompareStructured`) |
| Engine.CompareMembers | src/DeepComparer/DeepComparer.cs:240-259 | The member loop computes `Semantics.CompareMembers` from the first member with a clean verdict: members whose getter throws, or that hold a weak reference, are skipped |
| Engine.HandleMaxDepth | src/DeepComparer/DeepComparer.cs:262-283 | Equals `Semantics.DepthOutcome`. TreatAsEqual: equal, no line. TreatAsDifferent: not equal, one "Depth limit (max) reached" line. LogDifference: equal, with that line. Any other value: not equal, no line |
| Engine.CompareEnumerablesUnordered | src/DeepComparer/DeepComparer.cs:285-346 | The verdict and new state are `Semantics.CompareEnumerables` (depth, counts, empty, fast path, greedy), with null counted under its own key on the fast path |
| Engine.BuildMultiset | src/DeepComparer/DeepComparer.cs:348-357 | As intended: the dictionary's keys are exactly the distinct element keys, null included, and each count is that key's multiplicity |
| Engine.CompareCounts | src/DeepComparer/DeepComparer.cs:306-318 | Equals `Semantics.MultisetOutcome` of the key lists: if the distinct-key numbers differ, false with no line; else if some count differs, false with one "multiset differs" line; else true |
| Semantics.TallyIsMultiset | src/DeepComparer/DeepComparer.cs:348-357 | Counting the keys one by one, front to back, yields each key's multiplicity, and only keys that occur |
| Semantics.SameCountsSameMultiset | src/DeepComparer/DeepComparer.cs:308-318 | Two count dictionaries of one size that agree on every key of the first describe equal multisets |
| Engine.MatchGreedily | src/DeepComparer/DeepComparer.cs:321-346 | The outer loop over the `used` array computes `Semantics.MatchFrom` from index 0 with no flag set: the greedy matcher's verdict and state |
| Engine.FindMatch | src/DeepComparer/DeepComparer.cs:327-337 | The inner loop computes `Semantics.MatchOne`: it marks the first unused equal B element and stops there; used elements are never compared |
| TypeRules.TryGetEnumerable | src/DeepComparer/DeepComparer.cs:478-531 | A type with no accessor gives none; an IEnumerable other than string gives its own elements; the Items and Values accessors give what that property yields (`PropertyElements`) |
| TypeRules.PropertyElements | src/DeepComparer/DeepComparer.cs:517-530 | Elements exactly when the getter neither throws nor returns null, and then the elements of the object it returns |
| TypeRules.FormatValue | src/DeepComparer/DeepComparer.cs:608-618 | null prints as "null"; a string prints as its text between double quotes |
| Text.SubPath | src/DeepComparer/DeepComparer.cs:243 | Exactly the bare name at the root; below it, the owner's path followed by "." and then the name |
| Text.IndexPath | src/DeepComparer/DeepComparer.cs:331 | The owner's path followed by "[", the decimal digits of the index without a leading zero, then "]"; the digits read back as the index |
| Text.IntToString | src/DeepComparer/DeepComparer.cs:271 | A non-empty rendering that starts with '-' exactly when the number is negative; the digits after any sign have no leading zero and read back as the number's magnitude |
| Text.NatToStringInjective | src/DeepComparer/DeepComparer.cs:296 | Distinct counts never render alike |
| Text.ParseNatToString | src/DeepComparer/DeepComparer.cs:296 | Reading the decimal rendering of a count gives the count back |
| Properties.DepthLimitPolicies | src/DeepComparer/DeepComparer.cs:183-187 | Past the maximum depth, the policy alone decides the outcome and at most the one depth line is recorded, for each of the four policies |
| Properties.CollectionDepthLimit | src/DeepComparer/DeepComparer.cs:287-288 | A collection pair past the maximum depth gets the policy outcome and marks nothing visited |
| Properties.Identity | src/DeepComparer/DeepComparer.cs:189 | A value compared with itself (null included) is equal, and the state is unchanged |
| Properties.NegativeMaxDepthBeatsIdentity | src/DeepComparer/DeepComparer.cs:183-189 | With a negative maximum depth and TreatAsDifferent, a value against itself at the root is not equal, with a depth line showing the negative limit |
| Properties.NullAsymmetry | src/DeepComparer/DeepComparer.cs:190-195 | Exactly one side null gives not equal, with exactly one "One is null" line for the path |
| Properties.TypesDiffer | src/DeepComparer/DeepComparer.cs:197-204 | Different runtime types give not equal, with exactly one "Types differ (A vs B)" line; nothing is marked visited |
| Properties.WeakReferencesIgnored | src/DeepComparer/DeepComparer.cs:206 | Two weak references (`IsWeakReferenceType`: WeakReference or any WeakReference<T>) of one type are equal whatever they point to, and nothing is recorded |
| Properties.SimpleValues | src/DeepComparer/DeepComparer.cs:208-217 | For a simple type, equal iff the payloads are equal; otherwise one "Values differ" line with both formatted values |
| Properties.OneIsCollection | src/DeepComparer/DeepComparer.cs:219-226 | When exactly one side yields elements: not equal, with one "One is collection" line |
| Properties.VisitedPairShortCircuits | src/DeepComparer/DeepComparer.cs:230-231 | A composite pair already visited, in either order, is equal at once; nothing is read or recorded |
| Properties.FirstVisitMarksPair | src/DeepComparer/DeepComparer.cs:231-233 | A first visit of a composite pair leaves the pair in the visited set |
| Properties.CompareInvariant | src/DeepComparer/DeepComparer.cs:181-260 | A comparison never removes a visited pair and only appends lines to the report |
| Properties.CompareStructuredInvariant | src/DeepComparer/DeepComparer.cs:219-259 | The same growth for the collection, cycle-guard and member part of a node |
| Properties.CompareMembersInvariant | src/DeepComparer/DeepComparer.cs:240-259 | The member loop only grows the state, and once a member has differed the pair stays unequal |
| Properties.CompareEnumerablesInvariant | src/DeepComparer/DeepComparer.cs:285-346 | A collection comparison only grows the state |
| Properties.MatchFromInvariant | src/DeepComparer/DeepComparer.cs:325-344 | The outer greedy loop only grows the state |
| Properties.MatchOneInvariant | src/DeepComparer/DeepComparer.cs:328-337 | The inner greedy loop only grows the state |
| Properties.MatchOneMarksOne | src/DeepComparer/DeepComparer.cs:328-337 | A match sets exactly one flag that was unused; no match changes no flag |
| Properties.MatchFromKeepsFlags | src/DeepComparer/DeepComparer.cs:322-344 | One flag per B element, and a flag once set stays set |
| Properties.MatchFromCountsFlags | src/DeepComparer/DeepComparer.cs:322-344 | Set flags plus misses grow by one per element processed, so no B element serves two A elements |
| Properties.MatchFromMisses | src/DeepComparer/DeepComparer.cs:325-346 | The unmatched indices are in range and strictly increasing; the loop succeeds iff there are none |
| Properties.MatchFromLines | src/DeepComparer/DeepComparer.cs:338-343 | Every unmatched index has its "[i]: No matching item found" line among the newly appended lines |
| Properties.GreedyMatching | src/DeepComparer/DeepComparer.cs:321-346 | From a fresh `used` array: equal iff no unmatched index; as many B elements used as A elements matched; each unmatched index listed once, in order, with its line; a success uses every B element |
| Properties.GeneralCase | src/DeepComparer/DeepComparer.cs:321-346 | A non-simple collection pair is equal exactly when the greedy matcher leaves no unmatched index |
| Properties.CollectionCounts | src/DeepComparer/DeepComparer.cs:294-300 | Different lengths: not equal, with one "counts differ (n vs m)" line. Two empty collections: equal, with no line |
| Properties.FastPathIsMultisetEquality | src/DeepComparer/DeepComparer.cs:302-318 | On all-simple collections of one length, with null counted as its own key: equal iff the element keys are equal as multisets |
| Properties.MultisetOutcomeEquality | src/DeepComparer/DeepComparer.cs:306-318 | The count-dictionary check answers equal iff the two key multisets are equal |
| Properties.KeysPermutation | src/DeepComparer/DeepComparer.cs:302-318 | Reordering the elements leaves the multiset of their keys unchanged |
| Properties.FastPathIgnoresOrder | src/DeepComparer/DeepComparer.cs:302-318 | On all-simple collections, reordering either side changes neither the verdict nor the lines |
| Properties.SimpleUnderPermutation | src/DeepComparer/DeepComparer.cs:303-304 | The fast path's all-simple test (`TypeRules.AllSimple`) does not depend on the order of the elements |
| Properties.SilentMultisetMismatch | src/DeepComparer/DeepComparer.cs:308 | [x, x] against [x, y] answers not equal with no line |
| Properties.ReportedMultisetMismatch | src/DeepComparer/DeepComparer.cs:308-316 | With equal distinct counts and different multisets: not equal, with one "multiset differs" line |
| Properties.CustomPredicateOnlyAdds | src/DeepComparer/DeepComparer.cs:563-596 | `IsSimpleComparable`: a type is simple exactly when the custom predicate accepts it or the built-in chain does; without a predicate the chain alone decides |
| Properties.ElementTestRedundant | src/DeepComparer/DeepComparer.cs:303-304 | The fast path's per-element test (`TypeRules.ElementIsSimple`) holds exactly when the element is null or of a simple type: its extra custom test adds nothing |
| Engine.DiffLog.Add | src/DeepComparer/DeepComparer.cs:192 | A difference is appended at the end of the list; earlier lines are kept as they were |
| Engine.BuildMultisetAsWritten | src/DeepComparer/DeepComparer.cs:348-357 | As written: throws exactly when some element is null; otherwise the dictionary holds each distinct key with its multiplicity |
| Properties.NullKeyOnlyForNull | src/DeepComparer/DeepComparer.cs:350-354 | The null key occurs among the element keys exactly when some element is null |
| Properties.NullElementCounterexample | src/DeepComparer/DeepComparer.cs:303-308 | [null] against [null] passes the all-simple test; the intended comparison answers equal with no line, while the fast path as written throws |
| Properties.AsWrittenThrowsOnNull | src/DeepComparer/DeepComparer.cs:306-308 | `Semantics.MultisetOutcomeAsWritten`: the fast path as written throws, before any count is compared, exactly when either collection holds a null element |
| Properties.FastPathAgreesWithoutNull | src/DeepComparer/DeepComparer.cs:303-318 | With no null element, the fast path as written gives exactly the intended outcome, lines included |
| Properties.BuiltinSimpleCharacterised | src/DeepComparer/DeepComparer.cs:570-595 | `BuiltinSimple`: simple exactly for value types, string, IComparable types and the nullable forms of the listed kinds; a plain class is simple exactly when it implements IComparable |
| Properties.AccessorPreferences | src/DeepComparer/DeepComparer.cs:482-509 | `AccessorOf`: an IEnumerable other than string enumerates itself, a string never does, Items is preferred to Values, and a type with none of these is no collection |
| Properties.MembersDependOnFlagsOnly | src/DeepComparer/DeepComparer.cs:366-372 | `ComparableMembers`: the member list depends only on the three member flags, the key of the member cache |
| Properties.KeyEquality | src/DeepComparer/DeepComparer.cs:598-602 | `KeyOf`: two elements share a key exactly when both are null, or both have one runtime type and one payload |
| Properties.ThrowingMemberSkipped | src/DeepComparer/DeepComparer.cs:245-250 | A member whose getter throws on either object changes neither the verdict nor the state |
| Properties.WeakReferenceMemberSkipped | src/DeepComparer/DeepComparer.cs:252-253 | A member holding a weak reference on either object changes neither the verdict nor the state |
| Properties.SubPathInjective | src/DeepComparer/DeepComparer.cs:243 | Two members of one object get distinct paths |
| Properties.IndexPathInjective | src/DeepComparer/DeepComparer.cs:331 | Two elements of one collection get distinct paths |
| Scenarios.CircularReferencesEqual | src/DeepComparer_xUnit/Tests/RecursiveAndCircularReferenceTests.cs:35-48 | Cycle safety: a1 and a2, friends of each other, against b1 and b2 with the same names compare equal from the root with no difference line. This holds under every depth policy, for the default member flags, no custom predicate and any maximum depth of at least 6, the default options among them. The walk marks both person pairs and stops at the visited-pair guard when a1 and b1 are met again |
| Scenarios.FriendsHeapIsCircular | src/DeepComparer_xUnit/Tests/RecursiveAndCircularReferenceTests.cs:37-46 | The test's object graph exists: a closed heap with the shape the cycle lemma assumes |
| Scenarios.DepthLimitedChain | src/DeepComparer_xUnit/Tests/MaxDepthTests.cs:21-89 | Depth policy: two chains of four nodes that differ only in the last value, with maximum depth 2. TreatAsEqual gives equal with no line. TreatAsDifferent gives not equal with exactly the lines "Next.Next.Value: Depth limit (2) reached" and "Next.Next.Next: Depth limit (2) reached". LogDifference gives equal with the same two lines. An out-of-range policy value gives not equal with no line. In every case the visited set holds the first three node pairs |
| Scenarios.ChainHeapIsChains | src/DeepComparer_xUnit/Tests/MaxDepthTests.cs:9-19 | The two chains exist: a closed heap with the shape the depth lemma assumes |

## Findings

| source | as written | input that shows it | evidently intended | confidence | as-written member | corrected member |
|---|---|---|---|---|---|---|
| src/DeepComparer/DeepComparer.cs:348-357 | The fast path admits null elements (lines 303-304), then counts them in a `Dictionary` built with `NullSafeEqualityComparer`; a dictionary throws ArgumentNullException on a null key whatever its comparer | two lists, each holding a single null element | count null under a key of its own, so that [null] equals [null] and the comparison answers | not executed | Engine.BuildMultisetAsWritten, Semantics.MultisetOutcomeAsWritten, Properties.NullElementCounterexample | Engine.BuildMultiset, Properties.FastPathIsMultisetEquality |

## Left out

- Engine.BuildMultiset: counts a null element under a key of its own, as intended. The program's dictionary throws ArgumentNullException on it instead (see "## Findings"); only Engine.BuildMultisetAsWritten models that throw.
- Engine.CompareCounts: compares the intended counts, null included; the throw that precedes it in the program is not modelled here.
- Engine.CompareEnumerablesUnordered: gives a verdict for an all-simple collection holding null, where the program throws; the exception and its escape out of Engine.Compare and Engine.CompareWithReport are not modelled.
- Properties.FastPathIsMultisetEquality: holds of the intended fast path; for collections holding null the program throws instead of answering (Properties.FastPathAgreesWithoutNull covers the rest).
- Model.DepthBehavior: a value of the enum outside the three named ones carries its code, restricted to codes other than 0, 1 and 2.
- Engine.Compare: requires a maximum depth when options are given. An unlimited depth (`MaxDepth = null`) is not modelled because the recursion then has no bound. A collection that contains itself recurses without end in the program, since collections are not cycle-guarded.
- Engine.CompareWithReport: the same requirement of a maximum depth, for the same reason.
- Properties.GreedyMatching: the promise of one "No matching item found" line per unmatched index takes this form: each unmatched index has its line among the new lines, and the unmatched indices are distinct and increasing. It does not count the lines of the whole report, because nested trial comparisons may add lines of their own.
- The plain-verdict mode without a difference list is modelled by collecting the lines anyway and dropping them. In that mode the program writes debug output instead, and the verdict is the same.
- Debug output (`Debug.WriteLine`) is not modelled: it is output only.
- The process-wide caches (simple types, member lists, enumerable accessors, JsonIgnore lookups) are not modelled. They only memoise a per-type decision, and the model computes that decision directly.
- Member discovery by reflection is given as each type's precomputed member list under each policy. The model leaves out binding flags, public getters, static and indexer exclusion, delegate filtering and the JsonIgnore attribute.
- Getter compilation through expression trees, and the reflection fallback, are not modelled. What a getter yields on an object is part of that object.
- Object identity by `RuntimeHelpers.GetHashCode` is modelled by exact heap ids. Two distinct objects whose hash codes collide would share a visited key in the program; the model does not capture that.
- `Equals` on simple values is modelled as equality of runtime type and payload. User overrides with other behaviour, and exceptions thrown by `Equals`, `GetHashCode` or an enumerator, are not modelled. Nor is an exception from the custom simple-type predicate, which the program calls outside any try. The model takes that predicate as a pure, total function of the type, so asking it again always gives the same answer.
- `ToString` and the round-trip rendering of DateTime and DateTimeOffset are abstract strings stored with each object.
- Integer widths are unbounded: depths, counts and indices do not wrap.
- Runtime types are compared by their description rather than by the identity of the `Type` object. So two distinct types with identical descriptions, for example the same full name loaded from two assemblies, count as one type in the model.
- `Text.IntToString` writes a negative maximum depth with '-'. The program's interpolation uses the current culture's negative sign, and culture is not modelled.
- Scenarios.DepthLimitedChain: uses chains of four nodes with maximum depth 2, where the test uses chains of thirty with maximum depth 20 and a divergence at the twenty-second node. The hidden difference and the policy's effect are the same.
- Concurrency of the shared caches is not modelled.
- `CompareProperties` and `ComparePropertiesWithReport`, which the tests call, are not part of this model: their partial-class file is not among the sources.
- The analyzer, the benchmarks, `CompareResult.ToString` and the tests are outside the engine and are not modelled.
