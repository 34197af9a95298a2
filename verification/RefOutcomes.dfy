/**
 How much the outcome of a snapshot is left to chance. The code walks maps in any order, so
 elements that share a key compete for its ref, and an element without a ref name can make the code
 pass over its key. Both effects have exact conditions.
 */
module RefOutcomes {
  import opened RefModel
  import opened Snapshots
  import opened Sorting

  // ---------- picks in key order ----------

  /** The last of picks in key order has the greatest key. */
  lemma LastIsGreatest(picks: seq<SnapshotRef>, key: string)
    requires picks != [] && InKeyOrder(picks) && key in PickedKeys(picks)
    ensures StringLeq(key, picks[|picks| - 1].refKey)
  {
    PickedKeysAre(picks);
    var i :| 0 <= i < |picks| && picks[i].refKey == key;
    if i == |picks| - 1 {
      StringOrder();
    }
  }

  lemma SameLastKey(a: seq<SnapshotRef>, b: seq<SnapshotRef>)
    requires a != [] && b != [] && InKeyOrder(a) && InKeyOrder(b) && PickedKeys(a) == PickedKeys(b)
    ensures a[|a| - 1].refKey == b[|b| - 1].refKey
  {
    LastIsGreatest(a, b[|b| - 1].refKey);
    LastIsGreatest(b, a[|a| - 1].refKey);
    StringOrder();
  }

  // ---------- elements that share a key ----------

  /** Elements that share a key all have ref names and are alike, so that it does not matter which is picked. */
  ghost predicate KeysAgree(refs: Refs) {
    forall a, b | a in refs && b in refs && a != b && refs[a].refKey == refs[b].refKey ::
      a != "" && b != "" && refs[a] == refs[b]
  }

  lemma OneForEachKey(refs: Refs, a: SnapshotRef, b: SnapshotRef)
    requires KeysAgree(refs) && From(refs, a) && From(refs, b) && a.refKey == b.refKey
    ensures a == b
  {
  }

  ghost predicate AllFrom(refs: Refs, picks: seq<SnapshotRef>) {
    forall i | 0 <= i < |picks| :: From(refs, picks[i])
  }

  /** With as many keys as picks, the last key is not picked before. */
  lemma WithoutLast(picks: seq<SnapshotRef>, refs: Refs)
    requires picks != [] && |PickedKeys(picks)| == |picks| && InKeyOrder(picks) && AllFrom(refs, picks)
    ensures var init := picks[..|picks| - 1];
            && |PickedKeys(init)| == |init| && PickedKeys(init) == PickedKeys(picks) - {picks[|picks| - 1].refKey}
            && InKeyOrder(init) && AllFrom(refs, init)
  {
    PickedKeysAre(picks[..|picks| - 1]);
  }

  lemma {:induction false} PicksAreUnique(a: seq<SnapshotRef>, b: seq<SnapshotRef>, refs: Refs)
    requires AllFrom(refs, a) && AllFrom(refs, b) && KeysAgree(refs)
    requires InKeyOrder(a) && InKeyOrder(b) && PickedKeys(a) == PickedKeys(b)
    requires |PickedKeys(a)| == |a| && |a| == |b|
    ensures a == b
  {
    if a != [] {
      var n := |a| - 1;
      SameLastKey(a, b);
      OneForEachKey(refs, a[n], b[n]);
      WithoutLast(a, refs);
      WithoutLast(b, refs);
      PicksAreUnique(a[..n], b[..n], refs);
      SameUpToLast(a, b, n);
    }
  }

  lemma SameUpToLast<T>(a: seq<T>, b: seq<T>, n: nat)
    requires |a| == |b| == n + 1 && a[..n] == b[..n] && a[n] == b[n]
    ensures a == b
  {
    assert a == a[..n] + [a[n]] && b == b[..n] + [b[n]];
  }

  /** Installing the same pick again changes nothing. */
  lemma InstallTwice(reg: Registry, pick: SnapshotRef)
    ensures Install(Install(reg, pick.refKey, pick), pick.refKey, pick) == Install(reg, pick.refKey, pick)
  {
  }

  /** The picks without immediate repetitions. */
  function Once(picks: seq<SnapshotRef>): seq<SnapshotRef> {
    if |picks| <= 1 then picks
    else
      var init, last := picks[..|picks| - 1], picks[|picks| - 1];
      if picks[|picks| - 2] == last then Once(init) else Once(init) + [last]
  }

  /** Two lists of picks with the same effect and the same keys. */
  ghost predicate SameEffect(reg: Registry, a: seq<SnapshotRef>, b: seq<SnapshotRef>) {
    InstallAll(reg, a) == InstallAll(reg, b) && StableAll(reg, a) == StableAll(reg, b) && PickedKeys(a) == PickedKeys(b)
  }

  lemma RepeatHasNoEffect(reg: Registry, picks: seq<SnapshotRef>, pick: SnapshotRef)
    ensures SameEffect(reg, picks + [pick], picks + [pick] + [pick])
  {
    InstallOneMore(reg, picks, pick);
    InstallOneMore(reg, picks + [pick], pick);
    InstallTwice(InstallAll(reg, picks), pick);
  }

  lemma SameEffectOneMore(reg: Registry, a: seq<SnapshotRef>, b: seq<SnapshotRef>, pick: SnapshotRef)
    requires SameEffect(reg, a, b)
    ensures SameEffect(reg, a + [pick], b + [pick])
  {
    InstallOneMore(reg, a, pick);
    InstallOneMore(reg, b, pick);
  }

  lemma {:induction false} OnceInstallsTheSame(reg: Registry, picks: seq<SnapshotRef>)
    ensures SameEffect(reg, Once(picks), picks)
  {
    if |picks| > 1 {
      var n := |picks| - 1;
      var init, last := picks[..n], picks[n];
      OnceInstallsTheSame(reg, init);
      assert init + [last] == picks;
      if picks[n - 1] == last {
        assert init[..n - 1] + [last] == init;
        RepeatHasNoEffect(reg, init[..n - 1], last);
        SameEffectChains(reg, Once(init), init, picks);
      } else {
        SameEffectOneMore(reg, Once(init), init, last);
      }
    }
  }

  lemma SameEffectChains(reg: Registry, a: seq<SnapshotRef>, b: seq<SnapshotRef>, c: seq<SnapshotRef>)
    requires SameEffect(reg, a, b) && SameEffect(reg, b, c)
    ensures SameEffect(reg, a, c)
  {
  }

  lemma {:induction false} OnceIsStrict(picks: seq<SnapshotRef>, refs: Refs)
    requires InKeyOrder(picks) && AllFrom(refs, picks) && KeysAgree(refs)
    ensures InKeyOrder(Once(picks)) && AllFrom(refs, Once(picks)) && |PickedKeys(Once(picks))| == |Once(picks)|
    ensures forall pick | pick in Once(picks) :: pick in picks
  {
    if |picks| == 1 {
      assert PickedKeys(picks) == PickedKeys([]) + {picks[0].refKey};
    } else if |picks| > 1 {
      var n := |picks| - 1;
      var init, last := picks[..n], picks[n];
      OnceIsStrict(init, refs);
      if picks[n - 1] != last {
        LastIsNew(picks, refs);
        OneMoreIsStrict(Once(init), last, refs);
      }
    }
  }

  lemma LastIsNew(picks: seq<SnapshotRef>, refs: Refs)
    requires |picks| > 1 && InKeyOrder(picks) && AllFrom(refs, picks) && KeysAgree(refs)
             && picks[|picks| - 2] != picks[|picks| - 1]
    ensures var init, last := picks[..|picks| - 1], picks[|picks| - 1];
            last.refKey !in PickedKeys(Once(init)) && forall pick | pick in init :: StringLeq(pick.refKey, last.refKey)
  {
    var n := |picks| - 1;
    var init, prev, last := picks[..n], picks[n - 1], picks[n];
    OnceInstallsTheSame(Empty, init);
    if prev.refKey == last.refKey {
      OneForEachKey(refs, prev, last);
    }
    if last.refKey in PickedKeys(init) {
      LastIsGreatest(init, last.refKey);
      StringOrder();
    }
  }

  lemma OneMoreIsStrict(picks: seq<SnapshotRef>, pick: SnapshotRef, refs: Refs)
    requires InKeyOrder(picks) && AllFrom(refs, picks) && From(refs, pick) && |PickedKeys(picks)| == |picks|
    requires pick.refKey !in PickedKeys(picks) && forall p | p in picks :: StringLeq(p.refKey, pick.refKey)
    ensures InKeyOrder(picks + [pick]) && AllFrom(refs, picks + [pick])
            && |PickedKeys(picks + [pick])| == |picks + [pick]|
  {
    InstallOneMore(Empty, picks, pick);
  }

  /** When they are, a snapshot has one outcome, however its refs are traversed. */
  lemma AlikeMeansOneOutcome(reg: Registry, refs: Refs, a: Registry, stableA: Refs, b: Registry, stableB: Refs)
    requires KeysAgree(refs) && AppliedAny(reg, refs, a, stableA) && AppliedAny(reg, refs, b, stableB)
    ensures a == b && stableA == stableB
  {
    var p :| AppliedAnyBy(reg, refs, p, a, stableA);
    var q :| AppliedAnyBy(reg, refs, q, b, stableB);
    OnceInstallsTheSame(BuryMissing(reg, refs), p);
    OnceInstallsTheSame(BuryMissing(reg, refs), q);
    CoversInOneWay(p, q, refs);
  }

  lemma CoversInOneWay(p: seq<SnapshotRef>, q: seq<SnapshotRef>, refs: Refs)
    requires KeysAgree(refs) && PartlyCovers(p, refs) && PartlyCovers(q, refs)
    ensures Once(p) == Once(q)
  {
    PickedAreNamed(p, refs);
    PickedAreNamed(q, refs);
    OnceIsStrict(p, refs);
    OnceIsStrict(q, refs);
    OnceInstallsTheSame(Empty, p);
    OnceInstallsTheSame(Empty, q);
    PicksAreUnique(Once(p), Once(q), refs);
  }

  /** Then exactly the keys of the named elements are picked. */
  lemma PickedAreNamed(picks: seq<SnapshotRef>, refs: Refs)
    requires KeysAgree(refs) && PartlyCovers(picks, refs)
    ensures PickedKeys(picks) == KeysOf(refs - {""}) && AllFrom(refs, picks)
  {
    PickedKeysAre(picks);
    forall i | 0 <= i < |picks| ensures From(refs, picks[i]) && picks[i].refKey in KeysOf(refs - {""}) {
      assert FromNamed(refs, picks[i]);
      var ref :| ref in refs && ref != "" && refs[ref] == picks[i];
      assert ref in refs - {""};
    }
    forall key | key in KeysOf(refs - {""}) ensures key in PickedKeys(picks) {
      var ref :| ref in refs && ref != "" && refs[ref].refKey == key;
      assert key in KeysOf(refs);
    }
  }

  // ---------- picks of one's choice ----------

  predicate KeyLeq(a: SnapshotRef, b: SnapshotRef) {
    StringLeq(a.refKey, b.refKey)
  }

  lemma KeyPreorder()
    ensures TotalPreorder(KeyLeq)
  {
    StringOrder();
    forall a, b, c | KeyLeq(a, b) && KeyLeq(b, c) ensures KeyLeq(a, c) {
      assert StringLeq(a.refKey, b.refKey) && StringLeq(b.refKey, c.refKey);
    }
    forall a, b ensures KeyLeq(a, b) || KeyLeq(b, a) {
      assert StringLeq(a.refKey, b.refKey) || StringLeq(b.refKey, a.refKey);
    }
  }

  /** One datum for each name. */
  ghost predicate IsListing(xs: seq<SnapshotRef>, names: set<string>, datum: string -> SnapshotRef) {
    && |xs| == |names|
    && (forall name {:trigger datum(name)} | name in names :: datum(name) in xs)
    && (forall x | x in xs :: ComesFrom(x, names, datum))
  }

  ghost predicate ComesFrom(x: SnapshotRef, names: set<string>, datum: string -> SnapshotRef) {
    exists name :: name in names && datum(name) == x
  }

  lemma {:induction false} Listing(names: set<string>, datum: string -> SnapshotRef) returns (xs: seq<SnapshotRef>)
    ensures IsListing(xs, names, datum)
  {
    xs := [];
    if name :| name in names {
      var rest := Listing(names - {name}, datum);
      xs := rest + [datum(name)];
      forall x | x in xs ensures ComesFrom(x, names, datum) {
        if x in rest {
          assert ComesFrom(x, names - {name}, datum);
        }
      }
    }
  }

  lemma SortedListing(names: set<string>, datum: string -> SnapshotRef) returns (picks: seq<SnapshotRef>)
    ensures IsListing(picks, names, datum) && InKeyOrder(picks)
  {
    var xs := Listing(names, datum);
    picks := Sort(xs, KeyLeq);
    SortKeepsElements(xs, KeyLeq);
    KeyPreorder();
    SortSorts(xs, KeyLeq);
    SameElements(xs, picks);
    forall i, j | 0 <= i < j < |picks| ensures StringLeq(picks[i].refKey, picks[j].refKey) {
      assert KeyLeq(picks[i], picks[j]);
    }
  }

  lemma SameElements<T>(xs: seq<T>, ys: seq<T>)
    requires multiset(xs) == multiset(ys)
    ensures |xs| == |ys| && forall x :: x in xs <==> x in ys
  {
    assert |multiset(xs)| == |multiset(ys)|;
    forall x ensures x in xs <==> x in ys {
      assert x in multiset(xs) <==> x in multiset(ys);
    }
  }

  lemma ListingKeys(picks: seq<SnapshotRef>, names: set<string>, datum: string -> SnapshotRef, key: string)
    requires IsListing(picks, names, datum)
    ensures key in PickedKeys(picks) <==> exists name :: name in names && datum(name).refKey == key
  {
    PickedKeysAre(picks);
    if key in PickedKeys(picks) {
      var i :| 0 <= i < |picks| && picks[i].refKey == key;
      assert ComesFrom(picks[i], names, datum);
    }
    if name :| name in names && datum(name).refKey == key {
      assert datum(name) in picks;
    }
  }

  // ---------- two outcomes ----------

  /** Picks that show one given element for its key. */
  lemma PicksShowing(refs: Refs, ref: string) returns (picks: seq<SnapshotRef>)
    requires ref in refs
    ensures Covers(picks, refs) && forall pick | pick in picks && pick.refKey == refs[ref].refKey :: pick == refs[ref]
  {
    var datum := (name: string) => if name in refs && refs[name].refKey != refs[ref].refKey then refs[name]
      else refs[ref];
    picks := SortedListing(refs.Keys, datum);
    ListingCovers(picks, refs, datum, ref);
    forall pick | pick in picks && pick.refKey == refs[ref].refKey ensures pick == refs[ref] {
      assert ComesFrom(pick, refs.Keys, datum);
    }
  }

  lemma ListingCovers(picks: seq<SnapshotRef>, refs: Refs, datum: string -> SnapshotRef, ref: string)
    requires IsListing(picks, refs.Keys, datum) && InKeyOrder(picks) && ref in refs
    requires forall name {:trigger datum(name)} | name in refs :: datum(name) == refs[name] || datum(name) == refs[ref]
    requires forall name {:trigger datum(name)} | name in refs :: datum(name).refKey == refs[name].refKey
    ensures Covers(picks, refs)
  {
    forall pick | pick in picks ensures From(refs, pick) {
      assert ComesFrom(pick, refs.Keys, datum);
    }
    ListingHasKeys(picks, refs, datum);
    assert |refs| == |refs.Keys|;
  }

  lemma ListingHasKeys(picks: seq<SnapshotRef>, refs: Refs, datum: string -> SnapshotRef)
    requires IsListing(picks, refs.Keys, datum)
    requires forall name {:trigger datum(name)} | name in refs :: datum(name).refKey == refs[name].refKey
    ensures PickedKeys(picks) == KeysOf(refs)
  {
    forall key ensures key in PickedKeys(picks) <==> key in KeysOf(refs) {
      ListingKeys(picks, refs.Keys, datum, key);
      if name :| name in refs && refs[name].refKey == key {
        assert datum(name).refKey == key;
      }
    }
  }

  lemma CoversNamed(picks: seq<SnapshotRef>, refs: Refs)
    requires Covers(picks, refs - {""})
    ensures PartlyCovers(picks, refs)
  {
    var named := refs - {""};
    forall pick | pick in picks ensures FromNamed(refs, pick) {
      assert From(named, pick);
    }
    forall key | key in KeysOf(refs) ensures key in PickedKeys(picks) || Skippable(refs, key) {
      var ref :| ref in refs && refs[ref].refKey == key;
      assert ref != "" ==> ref in named;
    }
    SmallerSet(named.Keys, refs.Keys);
    assert |named| == |named.Keys| && |refs| == |refs.Keys|;
    assert "" !in refs ==> named == refs;
  }

  /** The key is current after the snapshot, and its ref is handed out with this data. */
  ghost predicate Showing(reg: Registry, stable: Refs, x: SnapshotRef) {
    x.refKey in reg.current && reg.current[x.refKey] in stable && stable[reg.current[x.refKey]] == x
  }

  /** Whichever named element has a key, it can be the one that is shown. */
  lemma EachCanBeShown(reg: Registry, refs: Refs, ref: string) returns (reg': Registry, stable: Refs)
    requires Inv(reg) && ref in refs && ref != ""
    ensures AppliedAny(reg, refs, reg', stable) && Showing(reg', stable, refs[ref])
  {
    var picks := PicksShowing(refs - {""}, ref);
    CoversNamed(picks, refs);
    var buried, key := BuryMissing(reg, refs), refs[ref].refKey;
    var shown := InstallAll(buried, picks);
    stable := StableAll(buried, picks);
    reg' := Swept(shown, stable);
    assert AppliedAnyBy(reg, refs, picks, reg', stable);
    BuryKeepsInv(reg, reg.current.Keys - Seen(refs), "removed", false);
    assert ref in refs - {""};
    InstallAllShows(buried, picks, key);
    StableRefsArePicked(buried, picks, shown.current[key]);
  }

  /** A key that an element without a ref name has can be passed over. */
  lemma CanBePassedOver(reg: Registry, refs: Refs) returns (reg': Registry, stable: Refs)
    requires Inv(reg) && "" in refs
    ensures AppliedAny(reg, refs, reg', stable)
    ensures forall ref | ref in stable :: stable[ref].refKey != refs[""].refKey
  {
    var picks := PicksPassingOver(refs);
    var buried := BuryMissing(reg, refs);
    stable := StableAll(buried, picks);
    reg' := Swept(InstallAll(buried, picks), stable);
    assert AppliedAnyBy(reg, refs, picks, reg', stable);
    BuryKeepsInv(reg, reg.current.Keys - Seen(refs), "removed", false);
    PickedKeysAre(picks);
    forall ref | ref in stable ensures stable[ref].refKey != refs[""].refKey {
      StableRefsArePicked(buried, picks, ref);
    }
  }

  ghost predicate OneOutcome(reg: Registry, refs: Refs) {
    forall a, stableA, b, stableB | AppliedAny(reg, refs, a, stableA) && AppliedAny(reg, refs, b, stableB) ::
      a == b && stableA == stableB
  }

  lemma ClashHasTwoOutcomes(reg: Registry, refs: Refs, x: string, y: string)
    requires Inv(reg) && x in refs && y in refs && x != y && x != "" && refs[x].refKey == refs[y].refKey
    requires y == "" || refs[x] != refs[y]
    ensures !OneOutcome(reg, refs)
  {
    var a, stableA := EachCanBeShown(reg, refs, x);
    if y == "" {
      var b, stableB := CanBePassedOver(reg, refs);
    } else {
      var b, stableB := EachCanBeShown(reg, refs, y);
    }
  }

  /**
   A snapshot has exactly one outcome, whatever the map order, exactly when elements that share a
   key all have ref names and are alike.
   */
  lemma SnapshotIsDeterministicIff(reg: Registry, refs: Refs)
    requires Inv(reg)
    ensures OneOutcome(reg, refs) <==> KeysAgree(refs)
  {
    if KeysAgree(refs) {
      forall a, stableA, b, stableB | AppliedAny(reg, refs, a, stableA) && AppliedAny(reg, refs, b, stableB)
        ensures a == b && stableA == stableB
      {
        AlikeMeansOneOutcome(reg, refs, a, stableA, b, stableB);
      }
    } else {
      var x, y :| x in refs && y in refs && x != y && refs[x].refKey == refs[y].refKey
                  && (x == "" || y == "" || refs[x] != refs[y]);
      if x != "" {
        ClashHasTwoOutcomes(reg, refs, x, y);
      } else {
        ClashHasTwoOutcomes(reg, refs, y, x);
      }
    }
  }

  // ---------- the element without a ref name ----------

  /** Nothing current is passed over: no element without a ref name has a current key. */
  predicate NothingPassedOver(reg: Registry, refs: Refs) {
    "" in refs ==> refs[""].refKey == "" || refs[""].refKey !in reg.current
  }

  lemma SweepDropsNothing(reg: Registry, stable: Refs)
    requires forall key | key in reg.current :: reg.current[key] in stable
    ensures Swept(reg, stable) == reg
  {
    assert Swept(reg, stable).current == reg.current;
  }

  lemma CurrentArePicked(reg: Registry, refs: Refs, picks: seq<SnapshotRef>)
    requires NothingPassedOver(reg, refs) && PartlyCovers(picks, refs)
    ensures BuryMissing(reg, refs).current.Keys <= PickedKeys(picks)
  {
    forall key | key in BuryMissing(reg, refs).current ensures key in PickedKeys(picks) {
      assert key in reg.current && key in Seen(refs);
      assert key in KeysOf(refs) && key != "";
    }
  }

  /** Then the registry stays sound, what was handed out is what is live, and the cleanup drops nothing. */
  lemma NothingPassedOverIsSound(reg: Registry, refs: Refs, picks: seq<SnapshotRef>, reg': Registry, stable: Refs)
    requires Inv(reg) && NothingPassedOver(reg, refs) && AppliedAnyBy(reg, refs, picks, reg', stable)
    ensures Inv(reg') && stable == LiveRefs(reg') && reg' == InstallAll(BuryMissing(reg, refs), picks)
  {
    var buried := BuryMissing(reg, refs);
    BuryKeepsInv(reg, reg.current.Keys - Seen(refs), "removed", false);
    CurrentArePicked(reg, refs, picks);
    InstallAllEvolves(buried, picks);
    StableIsLive(buried, picks);
    LiveIsCurrent(InstallAll(buried, picks));
    SweepDropsNothing(InstallAll(buried, picks), stable);
  }

  /** When all elements have ref names, taking a snapshot is the step of the model. */
  lemma NamedRefsAreApplied(reg: Registry, refs: Refs, reg': Registry, stable: Refs)
    requires Inv(reg) && "" !in refs
    ensures AppliedAny(reg, refs, reg', stable) <==> Applied(reg, refs, reg', stable)
  {
    if picks :| AppliedAnyBy(reg, refs, picks, reg', stable) {
      NothingPassedOverIsSound(reg, refs, picks, reg', stable);
      PartlyCoversAll(picks, refs);
      assert AppliedBy(reg, refs, picks, reg', stable);
    }
    if picks :| AppliedBy(reg, refs, picks, reg', stable) {
      PartlyCoversAll(picks, refs);
      CurrentAreHandedOut(reg, refs, reg', stable);
      SweepDropsNothing(reg', stable);
      assert AppliedAnyBy(reg, refs, picks, reg', stable);
    }
  }

  /** So runs of the service object on snapshots with named elements are runs of the model. */
  lemma NamedSnapshotIsStep(s: Service, refs: Refs, reg': Registry, stable: Refs)
    requires ServiceInv(s) && "" !in refs
    ensures AppliedAny(s.registry, refs, reg', stable) <==> Step(s, Snapshot(refs), Service(reg', stable, s.epoch))
  {
    NamedRefsAreApplied(s.registry, refs, reg', stable);
  }

  /** Picks that pass over the key of the element without a name. */
  lemma PicksPassingOver(refs: Refs) returns (picks: seq<SnapshotRef>)
    requires "" in refs
    ensures PartlyCovers(picks, refs) && refs[""].refKey !in PickedKeys(picks)
  {
    var skipped := refs[""].refKey;
    var names := set name | name in refs && refs[name].refKey != skipped;
    var datum := (name: string) => if name in refs then refs[name] else refs[""];
    picks := SortedListing(names, datum);
    forall pick | pick in picks ensures FromNamed(refs, pick) {
      assert ComesFrom(pick, names, datum);
    }
    forall key ensures key in PickedKeys(picks) <==> key in KeysOf(refs) && key != skipped {
      ListingKeys(picks, names, datum, key);
      if name :| name in refs && refs[name].refKey == key != skipped {
        assert name in names && datum(name).refKey == key;
      }
    }
    SmallerSet(names, refs.Keys);
    assert |refs| == |refs.Keys|;
  }

  lemma {:induction false} SmallerSet<T>(a: set<T>, b: set<T>)
    requires a <= b
    ensures |a| <= |b|
  {
    assert b == a + (b - a);
  }

  /** Passing over a current key leaves a ref alive that was not handed out. */
  lemma PassedOverStaysAlive(reg: Registry, refs: Refs) returns (reg': Registry, stable: Refs, ref: string)
    requires Inv(reg) && !NothingPassedOver(reg, refs)
    ensures AppliedAny(reg, refs, reg', stable) && Live(reg', ref) && ref !in stable
  {
    var picks := PicksPassingOver(refs);
    var buried, key := BuryMissing(reg, refs), refs[""].refKey;
    BuryKeepsInv(reg, reg.current.Keys - Seen(refs), "removed", false);
    InstallAllEvolves(buried, picks);
    stable := StableAll(buried, picks);
    reg' := Swept(InstallAll(buried, picks), stable);
    assert AppliedAnyBy(reg, refs, picks, reg', stable);
    assert key in Seen(refs);
    assert key in buried.current;
    ref := buried.current[key];
    assert RecordInv(buried, ref, buried.records[ref]);
    InstallAllLeavesOthers(buried, picks, ref);
    if ref in stable {
      StableRefsArePicked(buried, picks, ref);
      PickedKeysAre(picks);
    }
  }

  lemma OutcomeIsSound(reg: Registry, refs: Refs, reg': Registry, stable: Refs)
    requires Inv(reg) && NothingPassedOver(reg, refs) && AppliedAny(reg, refs, reg', stable)
    ensures Inv(reg') && stable == LiveRefs(reg')
  {
    var picks :| AppliedAnyBy(reg, refs, picks, reg', stable);
    NothingPassedOverIsSound(reg, refs, picks, reg', stable);
  }

  lemma SoundOutcome(reg: Registry, refs: Refs, reg': Registry, stable: Refs)
    requires Inv(reg) && AppliedAny(reg, refs, reg', stable)
    ensures NothingPassedOver(reg, refs) ==> Inv(reg') && stable == LiveRefs(reg')
  {
    if NothingPassedOver(reg, refs) {
      OutcomeIsSound(reg, refs, reg', stable);
    }
  }

  /**
   Every outcome of a snapshot hands out exactly the live refs of a sound registry exactly when
   nothing current is passed over.
   */
  lemma SoundIffNothingPassedOver(reg: Registry, refs: Refs)
    requires Inv(reg)
    ensures (forall reg', stable | AppliedAny(reg, refs, reg', stable) :: Inv(reg') && stable == LiveRefs(reg'))
            <==> NothingPassedOver(reg, refs)
  {
    if NothingPassedOver(reg, refs) {
      forall reg', stable | AppliedAny(reg, refs, reg', stable) ensures Inv(reg') && stable == LiveRefs(reg') {
        OutcomeIsSound(reg, refs, reg', stable);
      }
    } else {
      var reg', stable, ref := PassedOverStaysAlive(reg, refs);
      assert ref in LiveRefs(reg');
    }
  }

  // ---------- a ref that outlives a navigation ----------

  lemma SnapshotCanHappen(reg: Registry, refs: Refs) returns (reg': Registry, stable: Refs)
    ensures Applied(reg, refs, reg', stable)
  {
    var picks := [];
    if ref :| ref in refs {
      picks := PicksShowing(refs, ref);
    } else {
      assert KeysOf(refs) == {} && |refs| == |refs.Keys| == 0;
    }
    assert Covers(picks, refs);
    reg', stable := InstallAll(BuryMissing(reg, refs), picks), StableAll(BuryMissing(reg, refs), picks);
    assert AppliedBy(reg, refs, picks, reg', stable);
  }

  lemma RunGoesOn(states: seq<Service>, events: seq<Event>, e: Event, s: Service)
    requires IsRun(states, events) && Step(states[|events|], e, s)
    ensures IsRun(states + [s], events + [e])
  {
    var states', events' := states + [s], events + [e];
    forall i | 0 <= i < |events'| ensures StepAt(states', events', i) {
      assert i < |events| ==> StepAt(states, events, i);
    }
  }

  lemma RunTakesSnapshot(states: seq<Service>, events: seq<Event>, refs: Refs) returns (s: Service)
    requires IsRun(states, events) && "" !in refs
    ensures IsRun(states + [s], events + [Snapshot(refs)])
  {
    var now := states[|events|];
    var reg', stable := SnapshotCanHappen(now.registry, refs);
    s := Service(reg', stable, now.epoch);
    RunGoesOn(states, events, Snapshot(refs), s);
  }

  /** A ref that no navigation met alive comes back with its key. */
  lemma NotMetComesBack(states: seq<Service>, events: seq<Event>, i: nat, j: nat, ref: string)
    requires IsRun(states, events) && i <= j < |events| && ref in states[i].registry.records
    requires events[j].Snapshot? && states[i].registry.records[ref].key in KeysOf(events[j].refs)
    requires forall k | 0 <= k < j :: !NavigatedWhileLive(states, events, ref, k)
    ensures ref in states[j + 1].refs
  {
    KeyGetsItsRefBack(states, events, i, j, ref);
    RunKeepsInv(states, events, j + 1);
    LiveIsCurrent(states[j + 1].registry);
  }

  /** A page shows an element, drops it, navigates away, and shows it again. */
  function Comeback(x: SnapshotRef): seq<Event> {
    [Snapshot(map["e1" := x])] + [Snapshot(map[])] + [Invalidation(NAVIGATED)] + [Snapshot(map["e1" := x])]
  }

  lemma ComebackHappens(x: SnapshotRef) returns (states: seq<Service>)
    ensures IsRun(states, Comeback(x))
  {
    states := [Service(Empty, map[], 0)];
    var events: seq<Event> := [];
    var s1 := RunTakesSnapshot(states, events, map["e1" := x]);
    states, events := states + [s1], events + [Snapshot(map["e1" := x])];
    var s2 := RunTakesSnapshot(states, events, map[]);
    states, events := states + [s2], events + [Snapshot(map[])];
    var s3 := Service(Invalidate(s2.registry, NAVIGATED), map[], s2.epoch + 1);
    RunGoesOn(states, events, Invalidation(NAVIGATED), s3);
    states, events := states + [s3], events + [Invalidation(NAVIGATED)];
    var s4 := RunTakesSnapshot(states, events, map["e1" := x]);
    states, events := states + [s4], events + [Snapshot(map["e1" := x])];
    assert events == Comeback(x);
  }

  /** The first ref of the run. */
  lemma ShownFirst(states: seq<Service>, events: seq<Event>, x: SnapshotRef) returns (ref: string)
    requires IsRun(states, events) && events != [] && events[0] == Snapshot(map["e1" := x])
    ensures ref in states[1].refs && ref in states[1].registry.records
            && states[1].registry.records[ref].key == x.refKey
  {
    assert StepAt(states, events, 0);
    RunKeepsInv(states, events, 0);
    SnapshotSetsLive(states[0].registry, events[0].refs, states[1].registry, states[1].refs);
    assert events[0].refs["e1"] == x && x.refKey in KeysOf(events[0].refs);
    ref := states[1].registry.current[x.refKey];
    LiveIsCurrent(states[1].registry);
  }

  lemma EmptySnapshotLeavesNothing(states: seq<Service>, events: seq<Event>, i: nat)
    requires IsRun(states, events) && i < |events| && events[i] == Snapshot(map[])
    ensures states[i + 1].refs == map[]
  {
    LiveAreTheLatest(states, events, i);
    var live := states[i + 1].refs;
    assert KeysOf(events[i].refs) == {};
    assert forall ref | ref in live :: live[ref].refKey in (set r | r in live :: live[r].refKey);
  }

  /** The ref of the element is not retired by the navigation, because it was not live then: it comes back. */
  lemma RemovedRefOutlivesNavigation(x: SnapshotRef, states: seq<Service>) returns (ref: string)
    requires IsRun(states, Comeback(x))
    ensures ref in states[1].refs && ref !in states[2].refs && ref !in states[3].refs && ref in states[4].refs
  {
    var events := Comeback(x);
    ref := ShownFirst(states, events, x);
    EmptySnapshotLeavesNothing(states, events, 1);
    LiveAreTheLatest(states, events, 2);
    RunKeepsInv(states, events, 2);
    assert ref !in LiveRefs(states[2].registry);
    assert events[3].refs["e1"] == x && x.refKey in KeysOf(events[3].refs);
    NotMetComesBack(states, events, 1, 3, ref);
  }
}
