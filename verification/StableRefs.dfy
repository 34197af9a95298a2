/**
 The ref registry as the navigation service holds it: records are shared heap objects reached by
 key, by ref and through the current map, and are changed in place. Every method is proved to
 take the registry from one state of the model to the next.
 */
module StableRefs {
  import opened Options
  import opened RefModel
  import opened RefOutcomes
  import opened Snapshots
  import opened Sorting

  class StableRefRecord {
    const key: string
    const ref: string
    var snapshot: SnapshotRef
    var tombstone: Option<Tombstone>
    var permanent: bool

    constructor (key: string, ref: string, snapshot: SnapshotRef)
      ensures this.key == key && this.ref == ref && View() == Record(key, snapshot, None, false)
    {
      this.key, this.ref, this.snapshot, tombstone, permanent := key, ref, snapshot, None, false;
    }

    ghost function View(): Record
      reads this
    {
      Record(key, snapshot, tombstone, permanent)
    }

    method SetTombstone(reason: string, permanent: bool)
      modifies this
      ensures View() == Bury(ref, old(View()), reason, permanent)
    {
      match tombstone {
        case None => tombstone := Some(Tombstone(key, ref, snapshot.role, snapshot.name, reason));
        case Some(t) => tombstone := Some(t.(reason := reason));
      }
      this.permanent := permanent;
    }

    method Show(snapshot: SnapshotRef)
      modifies this
      ensures View() == old(View()).(tombstone := None, snapshot := snapshot)
    {
      if tombstone.Some? {
        tombstone := None;
      }
      this.snapshot := snapshot;
    }
  }

  class StableRefRegistry {
    var byKey: map<string, StableRefRecord>
    var byRef: map<string, StableRefRecord>
    var current: map<string, StableRefRecord>
    var next: nat
    ghost var model: Registry

    /** The three maps share their records and agree with the model. */
    ghost predicate Valid()
      reads this, byRef.Values
    {
      && next == model.next
      && byRef.Keys == model.records.Keys
      && (forall ref | ref in byRef :: byRef[ref].ref == ref && byRef[ref].View() == model.records[ref])
      && Indexes(byKey, model.byKey) && Indexes(current, model.current)
    }

    /** A map from keys to records that leads to the same refs as the model's map. */
    ghost predicate Indexes(m: map<string, StableRefRecord>, refs: map<string, string>)
      reads this
    {
      && m.Keys == refs.Keys
      && (forall key | key in m ::
        m[key].key == key && m[key].ref == refs[key] && refs[key] in byRef && byRef[refs[key]] == m[key])
    }

    constructor ()
      ensures Valid() && model == Empty && fresh(byRef.Values)
    {
      byKey, byRef, current, next, model := map[], map[], map[], 1, Empty;
    }

    /** Bury the current record of one key, if it has one. */
    method Entomb(key: string, reason: string, permanent: bool)
      requires Valid()
      modifies this`current, this`model, byRef.Values
      ensures Valid() && model == BuryKey(old(model), key, reason, permanent)
    {
      if key !in current {
        return;
      }
      EntombRecord(current[key], reason, permanent);
      DropCurrent(key);
    }

    method EntombRecord(record: StableRefRecord, reason: string, permanent: bool)
      requires Valid() && record.ref in byRef && byRef[record.ref] == record
      modifies this`model, record
      ensures Valid() && byRef.Values == old(byRef.Values)
      ensures var ref, records := record.ref, old(model).records;
              model == old(model).(records := records[ref := RefModel.Bury(ref, records[ref], reason, permanent)])
    {
      record.SetTombstone(reason, permanent);
      model := model.(records := model.records[record.ref := record.View()]);
    }

    method DropCurrent(key: string)
      requires Valid()
      modifies this`current, this`model
      ensures Valid() && model == old(model).(current := old(model).current - {key})
    {
      current := current - {key};
      model := model.(current := model.current - {key});
    }

    /** Bury the records of some keys, one after the other. */
    method EntombKeys(keys: seq<string>, reason: string, permanent: bool)
      requires Valid()
      modifies this`current, this`model, byRef.Values
      ensures Valid() && model == BuryEach(old(model), keys, reason, permanent)
    {
      ghost var before := model;
      for i := 0 to |keys|
        invariant Valid() && model == BuryEach(before, keys[..i], reason, permanent)
      {
        Entomb(keys[i], reason, permanent);
        BuryEachNext(before, keys, i, reason, permanent);
      }
      assert keys[..|keys|] == keys;
    }

    /** Bury everything, in key order; a navigation buries for good. */
    method Invalidate(reason: string)
      requires Valid()
      modifies this`current, this`model, byRef.Values
      ensures Valid() && model == RefModel.Invalidate(old(model), reason)
    {
      var listed := Elements(current.Keys);
      var keys := Sort(listed, StringLeq);
      SortKeepsElements(listed, StringLeq);
      ListingOfSet(current.Keys, keys);
      BuryEachIsBuryKeys(model, keys, current.Keys, reason, reason == NAVIGATED);
      EntombKeys(keys, reason, reason == NAVIGATED);
    }

    /** Bury the current records whose key is not among the seen ones, in any order. */
    method EntombMissing(seen: set<string>)
      requires Valid()
      modifies this`current, this`model, byRef.Values
      ensures Valid() && model == BuryKeys(old(model), old(model).current.Keys - seen, "removed", false)
    {
      var missing := Elements(current.Keys - seen);
      ListingOfSet(current.Keys - seen, missing);
      BuryEachIsBuryKeys(model, missing, current.Keys - seen, "removed", false);
      EntombKeys(missing, "removed", false);
    }

    /** Enter a record under its ref. */
    method EnterRef(record: StableRefRecord)
      requires Valid() && record.ref !in byRef
      modifies this`byRef, this`next, this`model
      ensures Valid() && byRef == old(byRef)[record.ref := record]
      ensures model
              == old(model).(records := old(model).records[record.ref := record.View()], next := old(model).next + 1)
    {
      next := next + 1;
      byRef := byRef[record.ref := record];
      model := model.(records := model.records[record.ref := record.View()], next := model.next + 1);
    }

    /** Make a record the one of its key. */
    method EnterKey(record: StableRefRecord)
      requires Valid() && record.ref in byRef && byRef[record.ref] == record
      modifies this`byKey, this`model
      ensures Valid() && byKey == old(byKey)[record.key := record]
      ensures model == old(model).(byKey := old(model).byKey[record.key := record.ref])
    {
      byKey := byKey[record.key := record];
      model := model.(byKey := model.byKey[record.key := record.ref]);
    }

    method MakeCurrent(key: string) returns (ref: string)
      requires Valid() && key in byKey
      modifies this`current, this`model
      ensures Valid() && model == old(model).(current := old(model).current[key := model.byKey[key]])
      ensures ref == model.byKey[key]
    {
      current := current[key := byKey[key]];
      model := model.(current := model.current[key := model.byKey[key]]);
      ref := byKey[key].ref;
    }

    /** Show a key under the next number. */
    method ShowNew(key: string, snapshot: SnapshotRef) returns (ref: string)
      requires Valid() && RefName(next) !in byRef
      modifies this
      ensures Valid() && model == Issue(old(model), key, snapshot)
      ensures ref == RefName(old(next))
      ensures forall r | r in byRef :: fresh(byRef[r]) || (r in old(byRef) && byRef[r] == old(byRef[r]))
    {
      var record := new StableRefRecord(key, RefName(next), snapshot);
      ref := ShowRecord(record);
    }

    /** Enter a new record and make it current. */
    method ShowRecord(record: StableRefRecord) returns (ref: string)
      requires Valid() && record.ref == RefName(next) && record.ref !in byRef
      requires record.View() == Record(record.key, record.snapshot, None, false)
      modifies this`byRef, this`byKey, this`current, this`next, this`model
      ensures Valid() && model == Issue(old(model), record.key, record.snapshot)
      ensures ref == record.ref && byRef == old(byRef)[record.ref := record]
    {
      Enter(record);
      ref := MakeCurrent(record.key);
    }

    /** Enter a record under its ref and its key. */
    method Enter(record: StableRefRecord)
      requires Valid() && record.ref !in byRef
      modifies this`byRef, this`byKey, this`next, this`model
      ensures Valid() && byRef == old(byRef)[record.ref := record] && record.key in byKey
      ensures model == old(model).(
                records := old(model).records[record.ref := record.View()],
                byKey := old(model).byKey[record.key := record.ref], next := old(model).next + 1)
    {
      EnterRef(record);
      EnterKey(record);
    }

    /** Show a key under the ref it has, reviving it if it was buried. */
    method ShowAgain(key: string, snapshot: SnapshotRef) returns (ref: string)
      requires Valid() && key in byKey && !byKey[key].permanent
      modifies this`current, this`model, byKey[key]
      ensures Valid() && Reusable(old(model), key) && model == Reuse(old(model), key, snapshot)
      ensures ref == model.byKey[key]
    {
      var record := byKey[key];
      record.Show(snapshot);
      model := model.(records := model.records[record.ref := record.View()]);
      ref := MakeCurrent(key);
    }

    /** Show one key: with its own ref, revived if need be, or with a new one. */
    method InstallKey(key: string, snapshot: SnapshotRef) returns (ref: string)
      requires Valid() && Inv(model)
      modifies this, byRef.Values
      ensures Valid() && model == Install(old(model), key, snapshot)
      ensures key in model.current && ref == model.current[key]
      ensures forall r | r in byRef :: fresh(byRef[r]) || (r in old(byRef) && byRef[r] == old(byRef[r]))
    {
      if key !in byKey || byKey[key].permanent {
        NumbersAreFresh(next, next);
        ref := ShowNew(key, snapshot);
      } else {
        assert byKey[key] in byRef.Values;
        ref := ShowAgain(key, snapshot);
      }
    }
  
    /** The keys of a snapshot, sorted, one for each of its refs. */
    static method SortedKeys(refs: Refs) returns (keys: seq<string>)
      ensures forall k :: k in keys <==> k in KeysOf(refs)
      ensures |keys| == |refs| && Sorted(keys, StringLeq)
    {
      var names := Elements(refs.Keys);
      ListingOfSet(refs.Keys, names);
      var listed := seq(|names|, i requires 0 <= i < |names| => assert names[i] in names; refs[names[i]].refKey);
      keys := Sort(listed, StringLeq);
      SortKeepsElements(listed, StringLeq);
      StringOrder();
      SortSorts(listed, StringLeq);
      SameSize(keys, listed);
      SizeOfListing(names, refs);
      forall k ensures k in keys <==> k in KeysOf(refs) {
        assert k in keys <==> k in multiset(keys);
        assert k in listed <==> k in multiset(listed);
        if r :| r in refs && refs[r].refKey == k {
          var i :| 0 <= i < |names| && names[i] == r;
          assert listed[i] == k;
        }
      }
    }

    static lemma SameSize<T>(xs: seq<T>, ys: seq<T>)
      requires multiset(xs) == multiset(ys)
      ensures |xs| == |ys|
    {
      assert |multiset(xs)| == |multiset(ys)|;
    }

    static lemma SizeOfListing(names: seq<string>, refs: Refs)
      requires multiset(names) == multiset(refs.Keys)
      ensures |names| == |refs|
    {
      assert |multiset(names)| == |multiset(refs.Keys)|;
    }

    /**
     The data to show for each key, in key order; which of several refs with one key is picked is left
     open, and a key is passed over when the ref without a name is picked for it.
     */
    static method Pick(refs: Refs) returns (picks: seq<SnapshotRef>)
      ensures PartlyCovers(picks, refs)
    {
      var keys := SortedKeys(refs);
      picks := [];
      ghost var at: seq<nat> := [];
      for i := 0 to |keys|
        invariant PickedAt(picks, keys, at, refs) && forall j | 0 <= j < |at| :: at[j] < i
        invariant forall j: nat | j < i :: j in at || Skippable(refs, keys[j])
        invariant "" !in refs ==> |at| == i
      {
        assert keys[i] in keys;
        var oldRef :| oldRef in refs && refs[oldRef].refKey == keys[i];
        if oldRef == "" {
          continue;
        }
        PickedAtNext(picks, keys, at, refs, i, oldRef);
        picks, at := picks + [refs[oldRef]], at + [i];
      }
      PickedAtCovers(picks, keys, at, refs);
    }

    /** Show the picked data, key by key. */
    method InstallPicks(picks: seq<SnapshotRef>) returns (stable: Refs)
      requires Valid() && Inv(model)
      modifies this, byRef.Values
      ensures Valid() && model == InstallAll(old(model), picks) && stable == StableAll(old(model), picks)
      ensures forall r | r in byRef :: fresh(byRef[r]) || (r in old(byRef) && byRef[r] == old(byRef[r]))
    {
      stable := map[];
      ghost var before := model;
      for i := 0 to |picks|
        invariant Valid() && model == InstallAll(before, picks[..i]) && stable == StableAll(before, picks[..i])
        invariant forall r | r in byRef :: fresh(byRef[r]) || (r in old(byRef) && byRef[r] == old(byRef[r]))
      {
        assert picks[..i + 1] == picks[..i] + [picks[i]];
        stable := ShowPick(picks[i].refKey, picks[i], stable, before, picks[..i]);
      }
      assert picks[..|picks|] == picks;
    }

    /** Show one key with the data picked for it, and hand out its ref. */
    method ShowPick(key: string, snapshot: SnapshotRef, stable: Refs, ghost before: Registry,
      ghost picks: seq<SnapshotRef>) returns (stable': Refs)
      requires Valid() && Inv(before) && snapshot.refKey == key
      requires model == InstallAll(before, picks) && stable == StableAll(before, picks)
      modifies this, byRef.Values
      ensures Valid() && model == InstallAll(before, picks + [snapshot])
              && stable' == StableAll(before, picks + [snapshot])
      ensures forall r | r in byRef :: fresh(byRef[r]) || (r in old(byRef) && byRef[r] == old(byRef[r]))
    {
      InstallOneMore(before, picks, snapshot);
      InstallAllEvolves(before, picks);
      var ref := InstallKey(key, snapshot);
      stable' := stable[ref := snapshot];
    }

    /** The entries of a map whose record was handed out. */
    static method Keep(m: map<string, StableRefRecord>, stable: Refs) returns (kept: map<string, StableRefRecord>)
      ensures forall key :: key in kept <==> key in m && m[key].ref in stable
      ensures forall key | key in kept :: kept[key] == m[key]
    {
      kept := m;
      var rest := m.Keys;
      while rest != {}
        invariant rest <= kept.Keys <= m.Keys
        invariant forall key | key in kept :: kept[key] == m[key]
        invariant forall key | key in m && key !in rest :: key in kept <==> m[key].ref in stable
        decreases rest
      {
        var key :| key in rest;
        if m[key].ref !in stable {
          kept := kept - {key};
        }
        rest := rest - {key};
      }
    }

    /** The final cleanup drops what was not handed out. */
    method Sweep(stable: Refs)
      requires Valid()
      modifies this`current, this`model
      ensures Valid() && model == Swept(old(model), stable)
    {
      current := Keep(current, stable);
      model := Swept(model, stable);
    }

    /** Bury the current records that the snapshot lacks. */
    method BuryAbsent(refs: Refs)
      requires Valid() && Inv(model)
      modifies this`current, this`model, byRef.Values
      ensures Valid() && model == BuryMissing(old(model), refs) && Inv(model)
    {
      BuryKeepsInv(model, model.current.Keys - Seen(refs), "removed", false);
      if |current| > 0 {
        var seen := set ref | ref in refs && refs[ref].refKey != "" :: refs[ref].refKey;
        assert seen == Seen(refs);
        EntombMissing(seen);
      } else {
        assert model.current.Keys - Seen(refs) == {};
        BuryNone(model, "removed", false);
      }
    }

    /** Bury what the snapshot lacks and show what it has. */
    method Refresh(refs: Refs) returns (stable: Refs)
      requires Valid() && Inv(model)
      modifies this, byRef.Values
      ensures Valid() && Shown(old(model), refs, model, stable)
      ensures forall r | r in byRef :: fresh(byRef[r]) || (r in old(byRef) && byRef[r] == old(byRef[r]))
    {
      BuryAbsent(refs);
      var picks := Pick(refs);
      stable := InstallPicks(picks);
      assert ShownBy(old(model), refs, picks, model, stable);
    }

    /** Take in a snapshot, and in the end drop what was not handed out. */
    method Apply(refs: Refs) returns (stable: Refs)
      requires Valid() && Inv(model)
      modifies this, byRef.Values
      ensures Valid() && AppliedAny(old(model), refs, model, stable)
      ensures forall r | r in byRef :: fresh(byRef[r]) || (r in old(byRef) && byRef[r] == old(byRef[r]))
    {
      stable := Refresh(refs);
      ghost var shown := model;
      Sweep(stable);
      CleanupCompletes(old(model), refs, shown, stable);
    }

    method ResolveRef(ref: string) returns (r: Resolution)
      requires Valid()
      ensures r == Resolve(model, ref)
      ensures r.Unknown? <==> ref !in byRef
      ensures r.Stale? ==> byRef[ref].tombstone == Some(r.tombstone)
      ensures r.Alive? ==> byRef[ref].tombstone.None? && r.snapshot == byRef[ref].snapshot
    {
      if ref !in byRef {
        return Unknown;
      }
      var record := byRef[ref];
      match record.tombstone
      case Some(t) => return Stale(t);
      case None => return Alive(record.snapshot);
    }
  }

  datatype Target = Target(nodeId: string, backendNodeId: int) | StaleRef(tombstone: Tombstone) | UnknownRef

  /** The part of the navigation service that owns refs. */
  class NavigationService {
    const registry: StableRefRegistry
    var refs: Refs
    var snapshotEpoch: nat

    ghost function Model(): Service
      reads this, registry
    {
      Service(registry.model, refs, snapshotEpoch)
    }

    ghost predicate Valid()
      reads this, registry, registry.byRef.Values
    {
      registry.Valid() && ServiceInv(Model())
    }

    constructor ()
      ensures Valid() && fresh(registry) && fresh(registry.byRef.Values)
      ensures Model() == Service(Empty, map[], 0)
    {
      registry := new StableRefRegistry();
      refs, snapshotEpoch := map[], 0;
    }

    /** Taking a snapshot keeps the ref map equal to the live refs, unless a current key is passed over. */
    method ApplyStableSnapshot(snapshot: Refs) returns (stable: Refs)
      requires Valid()
      modifies this`refs, registry, registry.byRef.Values
      ensures registry.Valid() && stable == refs && AppliedAny(old(registry.model), snapshot, registry.model, refs)
      ensures NothingPassedOver(old(registry.model), snapshot) ==> ServiceInv(Model())
      ensures forall r | r in registry.byRef ::
              fresh(registry.byRef[r]) || (r in old(registry.byRef) && registry.byRef[r] == old(registry.byRef[r]))
    {
      ghost var before := registry.model;
      stable := TakeRefs(snapshot);
      SoundOutcome(before, snapshot, registry.model, refs);
    }

    method TakeRefs(snapshot: Refs) returns (stable: Refs)
      requires registry.Valid() && Inv(registry.model)
      modifies this`refs, registry, registry.byRef.Values
      ensures registry.Valid() && stable == refs && AppliedAny(old(registry.model), snapshot, registry.model, refs)
      ensures forall r | r in registry.byRef ::
              fresh(registry.byRef[r]) || (r in old(registry.byRef) && registry.byRef[r] == old(registry.byRef[r]))
    {
      stable := registry.Apply(snapshot);
      refs := stable;
    }

    method InvalidateSnapshotRefs(reason: string)
      requires Valid()
      modifies this`refs, this`snapshotEpoch, registry, registry.byRef.Values
      ensures Valid() && Step(old(Model()), Invalidation(reason), Model())
      ensures registry.byRef == old(registry.byRef) && refs == map[] && snapshotEpoch == old(snapshotEpoch) + 1
    {
      BuryAndForget(reason);
      StepKeepsServiceInv(old(Model()), Invalidation(reason), Model());
    }

    method BuryAndForget(reason: string)
      requires registry.Valid()
      modifies this`refs, this`snapshotEpoch, registry, registry.byRef.Values
      ensures registry.Valid() && registry.byRef == old(registry.byRef)
      ensures Model() == Service(Invalidate(old(registry.model), reason), map[], old(snapshotEpoch) + 1)
    {
      registry.Invalidate(reason);
      snapshotEpoch := snapshotEpoch + 1;
      refs := map[];
    }

    /** Where an interaction with a ref goes: both the ref map and the registry are consulted, and they agree. */
    method ResolveInteractionTarget(ref: string) returns (target: Target)
      requires Valid()
      ensures target.Target? <==> ref in refs
      ensures target.Target? ==> target == Target(refs[ref].nodeId, refs[ref].backendNodeId)
      ensures target.StaleRef? <==> ref in registry.model.records && ref !in refs
      ensures target.StaleRef? ==> Resolve(registry.model, ref) == Stale(target.tombstone)
    {
      var found := if ref in refs then Some(refs[ref]) else None;
      var fromRegistry := registry.ResolveRef(ref);
      match fromRegistry {
        case Stale(t) => return StaleRef(t);
        case Alive(s) => found := Some(s);
        case Unknown =>
      }
      match found
      case None => return UnknownRef;
      case Some(s) => return Target(s.nodeId, s.backendNodeId);
    }
  }
}
