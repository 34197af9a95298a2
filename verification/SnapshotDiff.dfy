/**
 The snapshot diff: refs present on both sides are matched, on the same page the rest are matched
 by structural key, and what stays unmatched is reported as added or removed.
 */
module SnapshotDiff {
  import opened Snapshots
  import opened Sorting
  import opened StructuralKey

  datatype Change = Change(ref: string, before: SnapshotRef, after: SnapshotRef)

  predicate Changed(before: SnapshotRef, after: SnapshotRef) {
    before.name != after.name || before.state != after.state || before.value != after.value
      || before.visible != after.visible
  }

  /** From refs of the later snapshot to the refs of the earlier one they continue. */
  type Matching = map<string, string>

  ghost predicate Injective(m: Matching) {
    forall a, b | a in m && b in m && a != b :: m[a] != m[b]
  }

  /** `ref` is in the one snapshot and not in the other. */
  predicate Only(here: Refs, there: Refs, ref: string) { ref in here && ref !in there }

  /** Refs on both sides are matched with themselves. */
  ghost predicate KeepsShared(before: Refs, after: Refs, m: Matching) {
    forall ref | ref in before && ref in after :: ref in m && m[ref] == ref
  }

  /**
   The other matches pair refs of only one side each, with equal structural keys, at most one pair
   per key, and one pair for every key that both sides have; the first ref by name is the one paired.
   */
  ghost predicate PairsByKey(before: Refs, after: Refs, m: Matching) {
    && (forall ref | ref in m && ref !in before ::
          ref in after && Only(before, after, m[ref]) && Key(after[ref]) == Key(before[m[ref]]))
    && (forall a, b | a in m && b in m && a !in before && b !in before && a != b :: Key(after[a]) != Key(after[b]))
    && (forall ref, gone | Only(after, before, ref) && Only(before, after, gone)
      && Key(after[ref]) == Key(before[gone]) ::
          exists first | first in m && first !in before ::
            Key(after[first]) == Key(after[ref]) && StringLeq(first, ref))
  }

  ghost predicate IsMatching(before: Refs, after: Refs, sameEpoch: bool, m: Matching) {
    && KeepsShared(before, after, m)
    && (forall ref | ref in m && ref in before :: ref in after && m[ref] == ref)
    && (if sameEpoch then PairsByKey(before, after, m) else forall ref | ref in m :: ref in before)
  }

  // ---------- consequences of being such a matching ----------

  lemma MatchingIsOneToOne(before: Refs, after: Refs, sameEpoch: bool, m: Matching)
    requires IsMatching(before, after, sameEpoch, m)
    ensures Injective(m) && m.Keys <= after.Keys && m.Values <= before.Keys
  {
  }

  lemma {:induction false} InjectiveSize(m: Matching)
    requires Injective(m)
    ensures |m.Values| == |m.Keys|
    decreases |m|
  {
    if m.Keys != {} {
      var k :| k in m;
      var rest := m - {k};
      assert rest.Keys == m.Keys - {k};
      assert rest.Values == m.Values - {m[k]} by {
        forall v | v in m.Values - {m[k]} ensures v in rest.Values {
          var j :| j in m && m[j] == v;
          assert j in rest && rest[j] == v;
        }
      }
      InjectiveSize(rest);
    } else {
      assert m.Values == {};
    }
  }

  /** As many refs of one side as of the other are matched. */
  lemma DiffConserves(before: Refs, after: Refs, sameEpoch: bool, m: Matching)
    requires IsMatching(before, after, sameEpoch, m)
    ensures |before| - |before.Keys - m.Values| == |after| - |after.Keys - m.Keys|
  {
    MatchingIsOneToOne(before, after, sameEpoch, m);
    InjectiveSize(m);
    assert |before.Keys| == |m.Values| + |before.Keys - m.Values| by { Split(before.Keys, m.Values); }
    assert |after.Keys| == |m.Keys| + |after.Keys - m.Keys| by { Split(after.Keys, m.Keys); }
  }

  lemma Split(all: set<string>, part: set<string>)
    requires part <= all
    ensures |all| == |part| + |all - part|
  {
    assert all == part + (all - part);
  }

  /** Four refs, two of each side and absent from the other, have this structural key. */
  ghost predicate AreTwins(before: Refs, after: Refs, key: string, a: string, a': string, b: string, b': string) {
    && Only(after, before, a) && Only(after, before, a') && a != a'
    && Only(before, after, b) && Only(before, after, b') && b != b'
    && Key(after[a]) == Key(after[a']) == Key(before[b]) == Key(before[b']) == key
  }

  /** The structural key is reported both as added, for `a`, and as removed, for `b`. */
  ghost predicate AddedAndRemoved(before: Refs, after: Refs, m: Matching, key: string, a: string, b: string) {
    a in after && a !in m && b in before && b !in m.Values && Key(after[a]) == Key(before[b]) == key
  }

  /**
   On the same page a key is both added and removed exactly when it vanishes at least twice and appears at least
   twice.
   */
  lemma AddedAndRemovedIffTwins(before: Refs, after: Refs, m: Matching, key: string)
    requires IsMatching(before, after, true, m)
    ensures (exists a, b :: AddedAndRemoved(before, after, m, key, a, b)) <==>
            (exists a, a', b, b' :: AreTwins(before, after, key, a, a', b, b'))
  {
    if a, b :| AddedAndRemoved(before, after, m, key, a, b) {
      var first := FindTwins(before, after, m, key, a, b);
    }
    if a, a', b, b' :| AreTwins(before, after, key, a, a', b, b') {
      var x, y := TwinsLeftOver(before, after, m, key, a, a', b, b');
    }
  }

  lemma FindTwins(before: Refs, after: Refs, m: Matching, key: string, a: string, b: string) returns (first: string)
    requires IsMatching(before, after, true, m) && AddedAndRemoved(before, after, m, key, a, b)
    ensures first in m && AreTwins(before, after, key, a, first, b, m[first])
  {
    assert a !in before && b !in after;
    first :| first in m && first !in before && Key(after[first]) == Key(after[a]) && StringLeq(first, a);
    assert m[first] in m.Values;
  }

  lemma TwinsLeftOver(before: Refs, after: Refs, m: Matching, key: string, a: string, a': string, b: string, b': string)
    returns (x: string, y: string)
    requires IsMatching(before, after, true, m) && AreTwins(before, after, key, a, a', b, b')
    ensures AddedAndRemoved(before, after, m, key, x, y)
  {
    x := if a in m then a' else a;
    y := if b in m.Values then b' else b;
  }

  /** A button in a list item; all of them have one path and one ordinal. */
  function Cousin(name: string): SnapshotRef {
    SnapshotRef(name, 1, "button", name, "", "", true, name, "/list/listitem/button", 0)
  }

  /**
   Two list items whose buttons are both renamed: one button is reported as changed, the other as added and
   removed.
   */
  lemma RenamedCousinsAreTwins(m: Matching)
    requires IsMatching(map["e1" := Cousin("buy"), "e2" := Cousin("sell")],
                        map["e3" := Cousin("kaufen"), "e4" := Cousin("verkaufen")], true, m)
    ensures var before, after := map["e1" := Cousin("buy"), "e2" := Cousin("sell")],
                                 map["e3" := Cousin("kaufen"), "e4" := Cousin("verkaufen")];
            exists a, b :: AddedAndRemoved(before, after, m, Key(Cousin("buy")), a, b)
  {
    var before := map["e1" := Cousin("buy"), "e2" := Cousin("sell")];
    var after := map["e3" := Cousin("kaufen"), "e4" := Cousin("verkaufen")];
    var key := Key(Cousin("buy"));
    assert AreTwins(before, after, key, "e3", "e4", "e1", "e2");
    AddedAndRemovedIffTwins(before, after, m, key);
  }

  // ---------- the diff ----------

  ghost predicate Within(before: Refs, after: Refs, m: Matching) {
    forall ref | ref in m :: ref in after && m[ref] in before
  }

  /** What counts as changed: a shared ref with new data, and every pair matched by key. */
  ghost function ChangeSet(before: Refs, after: Refs, m: Matching): set<Change>
    requires Within(before, after, m)
  {
    set ref | ref in m && (m[ref] != ref || Changed(before[ref], after[ref])) :: Change(ref, before[m[ref]], after[ref])
  }

  lemma ChangeSetGrows(before: Refs, after: Refs, m: Matching, ref: string, old': string)
    requires Within(before, after, m) && ref !in m && ref in after && old' in before
    ensures var c := Change(ref, before[old'], after[ref]);
            && Within(before, after, m[ref := old']) && c !in ChangeSet(before, after, m)
            && ChangeSet(before, after, m[ref := old']) ==
               ChangeSet(before, after, m) + if old' != ref || Changed(before[ref], after[ref]) then {c} else {}
  {
    var m' := m[ref := old'];
    var c := Change(ref, before[old'], after[ref]);
    assert forall r | r in m :: m'[r] == m[r];
    forall x | x in ChangeSet(before, after, m) ensures x in ChangeSet(before, after, m') && x.ref in m {
      assert m'[x.ref] == m[x.ref];
    }
    assert c in ChangeSet(before, after, m') <==> old' != ref || Changed(before[ref], after[ref]) by {
      assert m'[ref] == old';
    }
  }

  /** Match the refs that both snapshots have. */
  method MatchShared(before: Refs, after: Refs, refs: seq<string>) returns (changed: seq<Change>, m: Matching)
    requires multiset(refs) == multiset(after.Keys)
    ensures m.Keys == before.Keys * after.Keys && forall ref | ref in m :: m[ref] == ref
    ensures Within(before, after, m) && multiset(changed) == multiset(ChangeSet(before, after, m))
  {
    ListingOfSet(after.Keys, refs);
    changed, m := [], map[];
    for i := 0 to |refs|
      invariant m.Keys <= before.Keys && (forall ref | ref in m :: m[ref] == ref)
      invariant forall j | 0 <= j < i && refs[j] in before :: refs[j] in m
      invariant forall j | i <= j < |refs| :: refs[j] !in m
      invariant Within(before, after, m) && multiset(changed) == multiset(ChangeSet(before, after, m))
    {
      var ref := refs[i];
      assert ref in refs;
      if ref in before {
        ChangeSetGrows(before, after, m, ref, ref);
        if Changed(before[ref], after[ref]) {
          ListOneMore(changed, ChangeSet(before, after, m), Change(ref, before[ref], after[ref]));
          changed := changed + [Change(ref, before[ref], after[ref])];
        }
        m := m[ref := ref];
      }
    }
    assert forall ref | ref in after && ref in before :: ref in refs;
  }

  lemma ListOneMore<T>(xs: seq<T>, s: set<T>, x: T)
    requires multiset(xs) == multiset(s) && x !in s
    ensures multiset(xs + [x]) == multiset(s + {x})
  {
  }

  /** Structural keys of the vanished refs, each leading to one ref that has it. */
  ghost predicate IndexesGone(before: Refs, after: Refs, byKey: map<string, string>) {
    && (forall k | k in byKey :: Only(before, after, byKey[k]) && Key(before[byKey[k]]) == k)
    && (forall ref | Only(before, after, ref) :: Key(before[ref]) in byKey)
  }

  /** Index the vanished refs in any order; a later one with the same key replaces an earlier one. */
  method IndexGone(before: Refs, after: Refs) returns (byKey: map<string, string>)
    ensures IndexesGone(before, after, byKey)
  {
    byKey := map[];
    var rest := before.Keys;
    while rest != {}
      invariant rest <= before.Keys
      invariant forall k | k in byKey :: Only(before, after, byKey[k]) && Key(before[byKey[k]]) == k
      invariant forall ref | Only(before, after, ref) && ref !in rest :: Key(before[ref]) in byKey
      decreases rest
    {
      var ref :| ref in rest;
      if ref !in after {
        byKey := byKey[Key(before[ref]) := ref];
      }
      rest := rest - {ref};
    }
  }

  /** A pair was made for the key of `ref`, and its later ref comes no later by name. */
  ghost predicate Served(before: Refs, after: Refs, m: Matching, ref: string)
    requires ref in after && Within(before, after, m)
  {
    exists first | first in m && first !in before :: Key(after[first]) == Key(after[ref]) && StringLeq(first, ref)
  }

  /** Pairs lead where the index says, at most one for each key. */
  ghost predicate PairsFollow(before: Refs, after: Refs, byKey: map<string, string>, m: Matching)
    requires Within(before, after, m)
  {
    && (forall a | a in m && a !in before :: Key(after[a]) in byKey && m[a] == byKey[Key(after[a])])
    && (forall a, b | a in m && b in m && a !in before && b !in before && a != b :: Key(after[a]) != Key(after[b]))
  }

  /** The refs from position `i` on are unpaired and come after every paired one. */
  ghost predicate Ahead(before: Refs, refs: seq<string>, i: nat, m: Matching) {
    forall j | i <= j < |refs| ::
      (refs[j] !in before ==> refs[j] !in m) && forall a | a in m && a !in before :: StringLeq(a, refs[j])
  }

  ghost predicate PairedUpTo(before: Refs, after: Refs, byKey: map<string, string>, refs: seq<string>, i: nat,
    m: Matching) {
    && i <= |refs| && Within(before, after, m) && PairsFollow(before, after, byKey, m) && Ahead(before, refs, i, m)
    && (forall j | 0 <= j < i && Only(after, before, refs[j]) && Key(after[refs[j]]) in byKey ::
      Served(before, after, m, refs[j]))
  }

  lemma PairNext(before: Refs, after: Refs, byKey: map<string, string>, refs: seq<string>, i: nat, m: Matching)
    requires i < |refs| && Only(after, before, refs[i]) && PairedUpTo(before, after, byKey, refs, i, m)
    requires Sorted(refs, StringLeq) && (forall j, k | 0 <= j < k < |refs| :: refs[j] != refs[k])
             && StringLeq(refs[i], refs[i])
    requires Key(after[refs[i]]) in byKey && byKey[Key(after[refs[i]])] in before
             && byKey[Key(after[refs[i]])] !in m.Values
    ensures PairedUpTo(before, after, byKey, refs, i + 1, m[refs[i] := byKey[Key(after[refs[i]])]])
  {
    var ref, key := refs[i], Key(after[refs[i]]);
    var m' := m[ref := byKey[key]];
    forall a | a in m && a !in before ensures Key(after[a]) != key {
      assert m[a] in m.Values;
    }
    assert PairsFollow(before, after, byKey, m');
    assert Ahead(before, refs, i + 1, m');
    forall j | 0 <= j < i + 1 && Only(after, before, refs[j]) && Key(after[refs[j]]) in byKey
      ensures Served(before, after, m', refs[j])
    {
      if j == i {
        assert ref in m' && ref !in before;
      } else {
        ServedStays(before, after, m, ref, byKey[key], refs[j]);
      }
    }
  }

  lemma ServedStays(before: Refs, after: Refs, m: Matching, ref: string, gone: string, r: string)
    requires Within(before, after, m) && ref in after && gone in before && ref !in m && r in after
             && Served(before, after, m, r)
    ensures Served(before, after, m[ref := gone], r)
  {
    var first :| first in m && first !in before && Key(after[first]) == Key(after[r]) && StringLeq(first, r);
    assert first in m[ref := gone];
  }

  lemma SkipNext(before: Refs, after: Refs, byKey: map<string, string>, refs: seq<string>, i: nat, m: Matching)
    requires i < |refs| && PairedUpTo(before, after, byKey, refs, i, m) && IndexesGone(before, after, byKey)
    requires forall ref | ref in m && ref in before :: m[ref] == ref && ref in after
    requires Only(after, before, refs[i]) && Key(after[refs[i]]) in byKey ==> byKey[Key(after[refs[i]])] in m.Values
    ensures PairedUpTo(before, after, byKey, refs, i + 1, m)
  {
    if Only(after, before, refs[i]) && Key(after[refs[i]]) in byKey {
      var a :| a in m && m[a] == byKey[Key(after[refs[i]])];
      assert a !in before;
      assert Key(after[a]) == Key(after[refs[i]]) && StringLeq(a, refs[i]);
    }
  }

  ghost predicate SharedKept(before: Refs, after: Refs, m: Matching) {
    before.Keys * after.Keys <= m.Keys && forall ref | ref in m && ref in before :: m[ref] == ref && ref in after
  }

  ghost predicate ChangesListed(before: Refs, after: Refs, m: Matching, changed: seq<Change>) {
    Within(before, after, m) && multiset(changed) == multiset(ChangeSet(before, after, m))
  }

  /** Pair one ref, unless it is matched, has a new key, or its key is taken. */
  method PairOne(before: Refs, after: Refs, byKey: map<string, string>, refs: seq<string>, i: nat, changed: seq<Change>,
    m: Matching)
    returns (changed': seq<Change>, m': Matching)
    requires i < |refs| && refs[i] in after && PairedUpTo(before, after, byKey, refs, i, m)
             && IndexesGone(before, after, byKey)
    requires Sorted(refs, StringLeq) && (forall j, k | 0 <= j < k < |refs| :: refs[j] != refs[k])
             && StringLeq(refs[i], refs[i])
    requires SharedKept(before, after, m) && ChangesListed(before, after, m, changed)
    ensures PairedUpTo(before, after, byKey, refs, i + 1, m')
    ensures SharedKept(before, after, m') && ChangesListed(before, after, m', changed')
  {
    var ref := refs[i];
    var key := Key(after[ref]);
    if ref in m || key !in byKey || byKey[key] in m.Values {
      SkipNext(before, after, byKey, refs, i, m);
      return changed, m;
    }
    ChangeSetGrows(before, after, m, ref, byKey[key]);
    ListOneMore(changed, ChangeSet(before, after, m), Change(ref, before[byKey[key]], after[ref]));
    PairNext(before, after, byKey, refs, i, m);
    return changed + [Change(ref, before[byKey[key]], after[ref])], m[ref := byKey[key]];
  }

  /** Pair the remaining refs by structural key, going through the later ones in order of name. */
  method PairRest(before: Refs, after: Refs, refs: seq<string>, changed0: seq<Change>, m0: Matching)
    returns (changed: seq<Change>, m: Matching)
    requires multiset(refs) == multiset(after.Keys) && Sorted(refs, StringLeq) && TotalOrder(StringLeq)
    requires m0.Keys == before.Keys * after.Keys && SharedKept(before, after, m0)
             && ChangesListed(before, after, m0, changed0)
    ensures IsMatching(before, after, true, m) && ChangesListed(before, after, m, changed)
  {
    ListingOfSet(after.Keys, refs);
    var byKey := IndexGone(before, after);
    changed, m := changed0, m0;
    for i := 0 to |refs|
      invariant PairedUpTo(before, after, byKey, refs, i, m)
      invariant SharedKept(before, after, m) && ChangesListed(before, after, m, changed)
    {
      assert refs[i] in refs;
      changed, m := PairOne(before, after, byKey, refs, i, changed, m);
    }
    PairedAllIsMatching(before, after, byKey, refs, m);
  }

  lemma PairedAllIsMatching(before: Refs, after: Refs, byKey: map<string, string>, refs: seq<string>, m: Matching)
    requires PairedUpTo(before, after, byKey, refs, |refs|, m) && IndexesGone(before, after, byKey)
    requires (forall ref | ref in after :: ref in refs) && SharedKept(before, after, m)
    ensures IsMatching(before, after, true, m)
  {
    forall ref, gone | Only(after, before, ref) && Only(before, after, gone) && Key(after[ref]) == Key(before[gone])
      ensures exists first | first in m && first !in before ::
              Key(after[first]) == Key(after[ref]) && StringLeq(first, ref)
    {
      var j :| 0 <= j < |refs| && refs[j] == ref;
      assert Served(before, after, m, refs[j]);
    }
  }

  ghost function Having(refs: Refs, names: set<string>, x: SnapshotRef): set<string>
    requires names <= refs.Keys
  {
    set name | name in names && refs[name] == x
  }

  /** The data behind some refs of a snapshot, as often as it occurs there. */
  ghost predicate Counts(xs: multiset<SnapshotRef>, refs: Refs, names: set<string>)
    requires names <= refs.Keys
  {
    |xs| == |names| && forall x :: xs[x] == |Having(refs, names, x)|
  }

  /** The data behind some refs of a snapshot, in key order. */
  ghost predicate Lists(xs: seq<SnapshotRef>, refs: Refs, names: set<string>)
    requires names <= refs.Keys
  {
    Counts(multiset(xs), refs, names) && forall i, j | 0 <= i < j < |xs| :: StringLeq(xs[i].refKey, xs[j].refKey)
  }

  lemma CountOneMore(xs: multiset<SnapshotRef>, refs: Refs, names: set<string>, name: string)
    requires names <= refs.Keys && Counts(xs, refs, names) && name in refs && name !in names
    ensures Counts(xs + multiset{refs[name]}, refs, names + {name})
  {
    forall x ensures (xs + multiset{refs[name]})[x] == |Having(refs, names + {name}, x)| {
      HavingOneMore(refs, names, name, x);
    }
  }

  lemma HavingOneMore(refs: Refs, names: set<string>, name: string, x: SnapshotRef)
    requires names <= refs.Keys && name in refs && name !in names
    ensures |Having(refs, names + {name}, x)| == |Having(refs, names, x)| + if refs[name] == x then 1 else 0
  {
    if refs[name] == x {
      assert Having(refs, names + {name}, x) == Having(refs, names, x) + {name};
    } else {
      assert Having(refs, names + {name}, x) == Having(refs, names, x);
    }
  }

  /** Collect the data behind some refs, in any order, and sort it by key. */
  method Collect(refs: Refs, names: set<string>) returns (xs: seq<SnapshotRef>)
    requires names <= refs.Keys && TotalOrder(StringLeq)
    ensures Lists(xs, refs, names)
  {
    var listed := Gather(refs, names);
    var leq := (a: SnapshotRef, b: SnapshotRef) => StringLeq(a.refKey, b.refKey);
    SortKeepsElements(listed, leq);
    SortSorts(listed, leq);
    xs := Sort(listed, leq);
  }

  method Gather(refs: Refs, names: set<string>) returns (listed: seq<SnapshotRef>)
    requires names <= refs.Keys
    ensures Counts(multiset(listed), refs, names)
  {
    listed := [];
    var rest := names;
    while rest != {}
      invariant rest <= names && Counts(multiset(listed), refs, names - rest)
      decreases rest
    {
      var name :| name in rest;
      CountOneMore(multiset(listed), refs, names - rest, name);
      assert names - (rest - {name}) == names - rest + {name};
      listed, rest := listed + [refs[name]], rest - {name};
    }
    assert names - {} == names;
  }

  method InOrder(changes: seq<Change>) returns (sorted: seq<Change>)
    ensures multiset(sorted) == multiset(changes)
    ensures forall i, j | 0 <= i < j < |sorted| :: StringLeq(sorted[i].ref, sorted[j].ref)
  {
    StringOrder();
    var leq := (a: Change, b: Change) => StringLeq(a.ref, b.ref);
    SortKeepsElements(changes, leq);
    SortSorts(changes, leq);
    sorted := Sort(changes, leq);
  }

  lemma ChangesShow(before: Refs, after: Refs, m: Matching, changed: seq<Change>)
    requires Within(before, after, m) && multiset(changed) == multiset(ChangeSet(before, after, m))
    requires KeepsShared(before, after, m) && forall ref | ref in m && ref !in before :: m[ref] != ref
    ensures forall ref | ref in before && ref in after ::
              Change(ref, before[ref], after[ref]) in changed <==> Changed(before[ref], after[ref])
    ensures forall ref | ref in m && ref !in before :: Change(ref, before[m[ref]], after[ref]) in changed
  {
    assert forall c :: c in changed <==> c in multiset(changed);
  }

  /** Two elements that a key can pair: equal ordinals and, unless a role has a bar in it, equal roles and paths. */
  predicate SamePlace(a: SnapshotRef, b: SnapshotRef) {
    && a.siblingOrdinal == b.siblingOrdinal
    && ('|' !in a.role && '|' !in b.role ==> a.role == b.role && Strip(a.domPath) == Strip(b.domPath))
  }

  lemma PairsHaveOnePlace(before: Refs, after: Refs, sameEpoch: bool, m: Matching)
    requires IsMatching(before, after, sameEpoch, m) && Within(before, after, m)
    ensures forall ref | ref in m && ref !in before :: SamePlace(before[m[ref]], after[ref])
  {
    forall ref | ref in m && ref !in before ensures SamePlace(before[m[ref]], after[ref]) {
      KeysGivePlace(before[m[ref]], after[ref]);
    }
  }

  /** On the same page, elements in the same place of which one vanished and one is new are never both left over. */
  lemma SamePlaceIsPaired(before: Refs, after: Refs, m: Matching, ref: string, gone: string) returns (first: string)
    requires IsMatching(before, after, true, m) && Only(after, before, ref) && Only(before, after, gone)
    requires '|' !in after[ref].role && '|' !in before[gone].role && SamePlace(before[gone], after[ref])
    ensures first in m && first !in before && StringLeq(first, ref)
    ensures m[first] in before && SamePlace(before[m[first]], before[gone])
  {
    EqualKeysIff(before[gone], after[ref]);
    first := PairedFirst(before, after, m, ref, gone);
    KeysGivePlace(before[m[first]], before[gone]);
  }

  lemma PairedFirst(before: Refs, after: Refs, m: Matching, ref: string, gone: string) returns (first: string)
    requires PairsByKey(before, after, m) && Only(after, before, ref) && Only(before, after, gone)
    requires Key(after[ref]) == Key(before[gone])
    ensures first in m && first !in before && StringLeq(first, ref)
    ensures m[first] in before && Key(before[m[first]]) == Key(before[gone])
  {
    first :| first in m && first !in before && Key(after[first]) == Key(after[ref]) && StringLeq(first, ref);
  }

  lemma KeysGivePlace(a: SnapshotRef, b: SnapshotRef)
    requires Key(a) == Key(b)
    ensures SamePlace(a, b)
  {
    EqualKeysEqualOrdinals(a, b);
    if '|' !in a.role && '|' !in b.role {
      EqualKeysIff(a, b);
    }
  }

  /**
   The diff is a one-to-one matching of the two snapshots: what it leaves unmatched on the later
   side is added, on the earlier side removed, and the matched pairs that differ are changed.
   */
  method DiffSnapshots(before: Refs, after: Refs, sameEpoch: bool)
    returns (added: seq<SnapshotRef>, removed: seq<SnapshotRef>, changed: seq<Change>, m: Matching)
    ensures IsMatching(before, after, sameEpoch, m) && Within(before, after, m)
    ensures Lists(added, after, after.Keys - m.Keys)
    ensures Lists(removed, before, before.Keys - m.Values)
    ensures multiset(changed) == multiset(ChangeSet(before, after, m))
    ensures forall i, j | 0 <= i < j < |changed| :: StringLeq(changed[i].ref, changed[j].ref)
    ensures |before| - |removed| == |after| - |added|
    ensures forall ref | ref in before && ref in after ::
              Change(ref, before[ref], after[ref]) in changed <==>
              || before[ref].name != after[ref].name || before[ref].state != after[ref].state
              || before[ref].value != after[ref].value || before[ref].visible != after[ref].visible
    ensures forall ref | ref in m && ref !in before :: Change(ref, before[m[ref]], after[ref]) in changed
    ensures forall ref | ref in m && ref !in before :: SamePlace(before[m[ref]], after[ref])
  {
    StringOrder();
    var refs := SortedElements(after.Keys, StringLeq);
    changed, m := MatchShared(before, after, refs);
    if sameEpoch {
      changed, m := PairRest(before, after, refs, changed, m);
    }
    added := Collect(after, after.Keys - m.Keys);
    removed := Collect(before, before.Keys - m.Values);
    changed := InOrder(changed);
    DiffConserves(before, after, sameEpoch, m);
    ChangesShow(before, after, m, changed);
    PairsHaveOnePlace(before, after, sameEpoch, m);
  }
}
