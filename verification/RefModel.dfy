/**
 Stable element refs as a state machine on values. A registry issues numbered refs, buries them
 when their element disappears, revives them when it comes back, and retires them for good when
 the page navigates away under them.
 */
module RefModel {
  import opened Options
  import opened Snapshots
  import opened Sorting

  datatype Tombstone = Tombstone(key: string, ref: string, role: string, name: string, reason: string)

  datatype Record = Record(key: string, snapshot: SnapshotRef, tombstone: Option<Tombstone>, permanent: bool)

  /** `records` is keyed by ref; `byKey` and `current` lead from keys to refs. */
  datatype Registry = Registry(records: map<string, Record>, byKey: map<string, string>, current: map<string, string>,
    next: nat)

  const NAVIGATED := "navigated"

  function Decimal(n: nat): string {
    if n < 10 then [Digit(n)] else Decimal(n / 10) + [Digit(n % 10)]
  }

  function Digit(d: nat): char
    requires d < 10
  {
    '0' + d as char
  }

  function RefName(n: nat): string { "e" + Decimal(n) }

  lemma {:induction false} DecimalInjective(m: nat, n: nat)
    requires Decimal(m) == Decimal(n)
    ensures m == n
  {
    var dm, dn := Decimal(m), Decimal(n);
    assert dm[|dm| - 1] == Digit(m % 10) && dn[|dn| - 1] == Digit(n % 10);
    DecimalNonEmpty(m / 10);
    DecimalNonEmpty(n / 10);
    if m >= 10 && n >= 10 {
      assert dm[..|dm| - 1] == Decimal(m / 10) && dn[..|dn| - 1] == Decimal(n / 10);
      DecimalInjective(m / 10, n / 10);
    }
  }

  lemma DecimalNonEmpty(n: nat)
    ensures |Decimal(n)| > 0
  {
  }

  lemma RefNameInjective(m: nat, n: nat)
    requires RefName(m) == RefName(n)
    ensures m == n
  {
    assert RefName(m)[1..] == Decimal(m) && RefName(n)[1..] == Decimal(n);
    DecimalInjective(m, n);
  }

  // ---------- steps ----------

  const Empty := Registry(map[], map[], map[], 1)

  function Bury(ref: string, record: Record, reason: string, permanent: bool): Record {
    record.(
      tombstone := Some(match record.tombstone
                        case None => Tombstone(record.key, ref, record.snapshot.role, record.snapshot.name, reason)
                        case Some(t) => t.(reason := reason)),
      permanent := permanent)
  }

  /** Bury the current records of the given keys. */
  ghost function BuryKeys(reg: Registry, keys: set<string>, reason: string, permanent: bool): Registry {
    reg.(
      records := map ref | ref in reg.records ::
        var record := reg.records[ref];
        if record.key in keys && record.key in reg.current && reg.current[record.key] == ref
        then Bury(ref, record, reason, permanent) else record,
      current := reg.current - keys)
  }

  /** Bury the current record of one key. */
  function BuryKey(reg: Registry, key: string, reason: string, permanent: bool): Registry {
    if key in reg.current && reg.current[key] in reg.records then
      var ref := reg.current[key];
      reg.(records := reg.records[ref := Bury(ref, reg.records[ref], reason, permanent)],
        current := reg.current - {key})
    else reg
  }

  function BuryEach(reg: Registry, keys: seq<string>, reason: string, permanent: bool): Registry {
    if keys == [] then reg
    else BuryKey(BuryEach(reg, keys[..|keys| - 1], reason, permanent), keys[|keys| - 1], reason, permanent)
  }

  lemma BuryEachNext(reg: Registry, keys: seq<string>, i: nat, reason: string, permanent: bool)
    requires i < |keys|
    ensures BuryEach(reg, keys[..i + 1], reason, permanent)
            == BuryKey(BuryEach(reg, keys[..i], reason, permanent), keys[i], reason, permanent)
  {
    assert keys[..i + 1][..i] == keys[..i];
  }

  lemma BuryOne(reg: Registry, key: string, reason: string, permanent: bool)
    requires key in reg.current && reg.current[key] in reg.records && reg.records[reg.current[key]].key == key
    ensures BuryKeys(reg, {key}, reason, permanent) == BuryKey(reg, key, reason, permanent)
  {
  }

  /** Current refs lead to records of their own key. */
  ghost predicate CurrentFits(reg: Registry) {
    forall key | key in reg.current :: reg.current[key] in reg.records && reg.records[reg.current[key]].key == key
  }

  lemma BuryKeysFits(reg: Registry, keys: set<string>, reason: string, permanent: bool)
    requires CurrentFits(reg)
    ensures CurrentFits(BuryKeys(reg, keys, reason, permanent))
  {
  }

  /** Burying keys one after the other buries them all at once. */
  lemma {:induction false} BuryEachIsBuryKeys(reg: Registry, keys: seq<string>, all: set<string>, reason: string,
    permanent: bool)
    requires CurrentFits(reg) && (forall k :: k in all <==> k in keys) && all <= reg.current.Keys
    requires forall i, j | 0 <= i < j < |keys| :: keys[i] != keys[j]
    ensures BuryEach(reg, keys, reason, permanent) == BuryKeys(reg, all, reason, permanent)
    decreases |keys|
  {
    if keys == [] {
      assert all == {};
      BuryNone(reg, reason, permanent);
    } else {
      var init, last := keys[..|keys| - 1], keys[|keys| - 1];
      var some := all - {last};
      assert forall k :: k in some <==> k in init;
      BuryEachIsBuryKeys(reg, init, some, reason, permanent);
      BuryKeysFits(reg, some, reason, permanent);
      BuryOne(BuryKeys(reg, some, reason, permanent), last, reason, permanent);
      BuryOneMore(reg, some, last, reason, permanent);
      assert some + {last} == all;
    }
  }

  lemma BuryNone(reg: Registry, reason: string, permanent: bool)
    ensures BuryKeys(reg, {}, reason, permanent) == reg
  {
  }

  lemma BuryOneMore(reg: Registry, keys: set<string>, key: string, reason: string, permanent: bool)
    requires key !in keys
    ensures BuryKeys(BuryKeys(reg, keys, reason, permanent), {key}, reason, permanent)
            == BuryKeys(reg, keys + {key}, reason, permanent)
  {
  }

  ghost function Invalidate(reg: Registry, reason: string): Registry {
    BuryKeys(reg, reg.current.Keys, reason, reason == NAVIGATED)
  }

  predicate Reusable(reg: Registry, key: string) {
    key in reg.byKey && reg.byKey[key] in reg.records && !reg.records[reg.byKey[key]].permanent
  }

  /** One key of a snapshot: reuse its ref unless it is retired, else issue the next one. */
  function Install(reg: Registry, key: string, snapshot: SnapshotRef): Registry {
    if Reusable(reg, key) then Reuse(reg, key, snapshot) else Issue(reg, key, snapshot)
  }

  function Reuse(reg: Registry, key: string, snapshot: SnapshotRef): Registry
    requires Reusable(reg, key)
  {
    var ref := reg.byKey[key];
    reg.(
      records := reg.records[ref := reg.records[ref].(tombstone := None, snapshot := snapshot)],
      current := reg.current[key := ref])
  }

  function Issue(reg: Registry, key: string, snapshot: SnapshotRef): Registry {
    var ref := RefName(reg.next);
    Registry(
      reg.records[ref := Record(key, snapshot, None, false)],
      reg.byKey[key := ref], reg.current[key := ref], reg.next + 1)
  }

  function InstallAll(reg: Registry, picks: seq<SnapshotRef>): Registry {
    if picks == [] then reg
    else
      var pick := picks[|picks| - 1];
      Install(InstallAll(reg, picks[..|picks| - 1]), pick.refKey, pick)
  }

  /** The refs handed out for the picks, with the data shown for them. */
  function StableAll(reg: Registry, picks: seq<SnapshotRef>): Refs {
    if picks == [] then map[]
    else
      var pick := picks[|picks| - 1];
      var reg' := InstallAll(reg, picks);
      StableAll(reg, picks[..|picks| - 1])[reg'.current[pick.refKey] := pick]
  }

  ghost function KeysOf(refs: Refs): set<string> {
    set ref | ref in refs :: refs[ref].refKey
  }

  /** The keys a snapshot counts as seen; the empty key never is, so its record is buried and revived. */
  ghost function Seen(refs: Refs): set<string> {
    KeysOf(refs) - {""}
  }

  ghost function BuryMissing(reg: Registry, refs: Refs): Registry {
    BuryKeys(reg, reg.current.Keys - Seen(refs), "removed", false)
  }

  ghost function PickedKeys(picks: seq<SnapshotRef>): set<string> {
    if picks == [] then {} else PickedKeys(picks[..|picks| - 1]) + {picks[|picks| - 1].refKey}
  }

  lemma InstallOneMore(reg: Registry, picks: seq<SnapshotRef>, pick: SnapshotRef)
    ensures InstallAll(reg, picks + [pick]) == Install(InstallAll(reg, picks), pick.refKey, pick)
    ensures var reg' := InstallAll(reg, picks + [pick]);
            StableAll(reg, picks + [pick]) == StableAll(reg, picks)[reg'.current[pick.refKey] := pick]
    ensures PickedKeys(picks + [pick]) == PickedKeys(picks) + {pick.refKey}
  {
    assert (picks + [pick])[..|picks|] == picks;
  }

  /** The picks cover the keys of the snapshot in key order, each with data the snapshot holds for that key. */
  ghost predicate Covers(picks: seq<SnapshotRef>, refs: Refs) {
    && (forall pick | pick in picks :: From(refs, pick)) && PickedKeys(picks) == KeysOf(refs)
    && |picks| == |refs| && InKeyOrder(picks)
  }

  ghost predicate From(refs: Refs, pick: SnapshotRef) {
    exists ref :: ref in refs && refs[ref] == pick
  }

  ghost predicate InKeyOrder(picks: seq<SnapshotRef>) {
    forall i, j | 0 <= i < j < |picks| :: StringLeq(picks[i].refKey, picks[j].refKey)
  }

  /** Taking a snapshot; elements that share a key are not told apart, so the outcome may vary. */
  ghost predicate Applied(reg: Registry, refs: Refs, reg': Registry, stable: Refs) {
    exists picks :: AppliedBy(reg, refs, picks, reg', stable)
  }

  ghost predicate AppliedBy(reg: Registry, refs: Refs, picks: seq<SnapshotRef>, reg': Registry, stable: Refs) {
    Covers(picks, refs) && reg' == InstallAll(BuryMissing(reg, refs), picks)
      && stable == StableAll(BuryMissing(reg, refs), picks)
  }

  // ---------- which picks a snapshot allows ----------

  lemma {:induction false} PickedKeysAre(picks: seq<SnapshotRef>)
    ensures forall pick | pick in picks :: pick.refKey in PickedKeys(picks)
    ensures forall key | key in PickedKeys(picks) :: exists i :: 0 <= i < |picks| && picks[i].refKey == key
    ensures |PickedKeys(picks)| <= |picks|
  {
    if picks != [] {
      var init, last := picks[..|picks| - 1], picks[|picks| - 1];
      PickedKeysAre(init);
      assert picks == init + [last];
      forall key | key in PickedKeys(picks) ensures exists i :: 0 <= i < |picks| && picks[i].refKey == key {
        if key == last.refKey {
          assert picks[|picks| - 1].refKey == key;
        } else {
          var i :| 0 <= i < |init| && init[i].refKey == key;
          assert picks[i].refKey == key;
        }
      }
    }
  }

  /** Only the element without a ref name can have its key left out. */
  ghost predicate Skippable(refs: Refs, key: string) {
    "" in refs && refs[""].refKey == key
  }

  /** The picks in general: named elements in key order, for all keys that cannot be skipped. */
  ghost predicate PartlyCovers(picks: seq<SnapshotRef>, refs: Refs) {
    && (forall pick | pick in picks :: FromNamed(refs, pick))
    && PickedKeys(picks) <= KeysOf(refs)
    && (forall key | key in KeysOf(refs) :: key in PickedKeys(picks) || Skippable(refs, key))
    && |picks| <= |refs| && ("" !in refs ==> |picks| == |refs|) && InKeyOrder(picks)
  }

  ghost predicate FromNamed(refs: Refs, pick: SnapshotRef) {
    exists ref :: ref in refs && ref != "" && refs[ref] == pick
  }

  /** The picks have the keys at some positions of the key list, in order. */
  ghost predicate PickedAt(picks: seq<SnapshotRef>, keys: seq<string>, at: seq<nat>, refs: Refs) {
    && |at| == |picks| && (forall j | 0 <= j < |at| :: at[j] < |keys|)
    && (forall i, j | 0 <= i < j < |at| :: at[i] < at[j])
    && forall j | 0 <= j < |picks| :: picks[j].refKey == keys[at[j]] && FromNamed(refs, picks[j])
  }

  lemma PickedAtNext(picks: seq<SnapshotRef>, keys: seq<string>, at: seq<nat>, refs: Refs, i: nat, ref: string)
    requires PickedAt(picks, keys, at, refs) && (forall j | 0 <= j < |at| :: at[j] < i) && i < |keys|
    requires ref in refs && ref != "" && refs[ref].refKey == keys[i]
    ensures PickedAt(picks + [refs[ref]], keys, at + [i], refs)
  {
    assert FromNamed(refs, refs[ref]);
  }

  lemma PickedAtCovers(picks: seq<SnapshotRef>, keys: seq<string>, at: seq<nat>, refs: Refs)
    requires (forall k :: k in keys <==> k in KeysOf(refs)) && |keys| == |refs| && Sorted(keys, StringLeq)
    requires PickedAt(picks, keys, at, refs) && ("" !in refs ==> |at| == |keys|)
    requires forall j: nat | j < |keys| :: j in at || Skippable(refs, keys[j])
    ensures PartlyCovers(picks, refs)
  {
    PickedKeysAre(picks);
    forall key | key in KeysOf(refs) && !Skippable(refs, key) ensures key in PickedKeys(picks) {
      var j: nat :| j < |keys| && keys[j] == key;
      var i :| 0 <= i < |at| && at[i] == j;
      assert picks[i] in picks;
    }
    forall key | key in PickedKeys(picks) ensures key in KeysOf(refs) {
      var j :| 0 <= j < |picks| && picks[j].refKey == key;
      assert keys[at[j]] in keys;
    }
    AscendingIsShort(at, |keys|);
  }

  lemma {:induction false} AscendingIsShort(at: seq<nat>, n: nat)
    requires (forall i, j | 0 <= i < j < |at| :: at[i] < at[j]) && forall j | 0 <= j < |at| :: at[j] < n
    ensures |at| <= n
  {
    if at != [] {
      AscendingIsShort(at[..|at| - 1], at[|at| - 1]);
    }
  }

  lemma PartlyCoversAll(picks: seq<SnapshotRef>, refs: Refs)
    requires "" !in refs
    ensures PartlyCovers(picks, refs) <==> Covers(picks, refs)
  {
    if Covers(picks, refs) {
      forall pick | pick in picks ensures FromNamed(refs, pick) {
        assert From(refs, pick);
      }
    }
    if PartlyCovers(picks, refs) {
      forall pick | pick in picks ensures From(refs, pick) {
        assert FromNamed(refs, pick);
      }
      assert PickedKeys(picks) == KeysOf(refs);
    }
  }

  /** The final cleanup: drop what was not handed out. */
  ghost function Swept(reg: Registry, stable: Refs): Registry {
    reg.(current := map key | key in reg.current && reg.current[key] in stable :: reg.current[key])
  }

  /** What taking a snapshot does, whatever the refs are called. */
  ghost predicate AppliedAny(reg: Registry, refs: Refs, reg': Registry, stable: Refs) {
    exists picks :: AppliedAnyBy(reg, refs, picks, reg', stable)
  }

  ghost predicate AppliedAnyBy(reg: Registry, refs: Refs, picks: seq<SnapshotRef>, reg': Registry, stable: Refs) {
    ShownBy(reg, refs, picks, InstallAll(BuryMissing(reg, refs), picks), stable)
      && reg' == Swept(InstallAll(BuryMissing(reg, refs), picks), stable)
  }

  /** Before the cleanup. */
  ghost predicate Shown(reg: Registry, refs: Refs, reg': Registry, stable: Refs) {
    exists picks :: ShownBy(reg, refs, picks, reg', stable)
  }

  ghost predicate ShownBy(reg: Registry, refs: Refs, picks: seq<SnapshotRef>, reg': Registry, stable: Refs) {
    && PartlyCovers(picks, refs)
    && reg' == InstallAll(BuryMissing(reg, refs), picks) && stable == StableAll(BuryMissing(reg, refs), picks)
  }

  lemma CleanupCompletes(reg: Registry, refs: Refs, mid: Registry, stable: Refs)
    requires Shown(reg, refs, mid, stable)
    ensures AppliedAny(reg, refs, Swept(mid, stable), stable)
  {
    var picks :| ShownBy(reg, refs, picks, mid, stable);
    assert AppliedAnyBy(reg, refs, picks, Swept(mid, stable), stable);
  }

  // ---------- what every step keeps ----------

  ghost predicate Live(reg: Registry, ref: string) {
    ref in reg.records && reg.records[ref].tombstone.None?
  }

  /** The refs with numbers below `next`. */
  ghost function Issued(next: nat): set<string> {
    if next <= 1 then {} else Issued(next - 1) + {RefName(next - 1)}
  }

  lemma {:induction false} NumbersAreFresh(next: nat, n: nat)
    requires next <= n
    ensures RefName(n) !in Issued(next)
  {
    if next > 1 {
      NumbersAreFresh(next - 1, n);
      if RefName(n) == RefName(next - 1) {
        RefNameInjective(n, next - 1);
      }
    }
  }

  ghost predicate Inv(reg: Registry) {
    && reg.next >= 1
    && reg.records.Keys == Issued(reg.next)
    && (forall key | key in reg.byKey :: reg.byKey[key] in reg.records && reg.records[reg.byKey[key]].key == key)
    && (forall key | key in reg.current :: key in reg.byKey && reg.current[key] == reg.byKey[key])
    && (forall ref | ref in reg.records :: RecordInv(reg, ref, reg.records[ref]))
  }

  /** Live records are exactly the current ones, and a record that lost its key is retired. */
  ghost predicate RecordInv(reg: Registry, ref: string, record: Record) {
    && (record.tombstone.None? <==> record.key in reg.current && reg.current[record.key] == ref)
    && (record.permanent ==> record.tombstone.Some?)
    && (!record.permanent ==> record.key in reg.byKey && reg.byKey[record.key] == ref)
  }

  lemma BuryKeepsInv(reg: Registry, keys: set<string>, reason: string, permanent: bool)
    requires Inv(reg)
    ensures Inv(BuryKeys(reg, keys, reason, permanent))
  {
  }

  lemma ReuseKeepsInv(reg: Registry, key: string, snapshot: SnapshotRef)
    requires Inv(reg) && Reusable(reg, key)
    ensures Inv(Reuse(reg, key, snapshot))
  {
  }

  lemma IssueKeepsInv(reg: Registry, key: string, snapshot: SnapshotRef)
    requires Inv(reg) && !Reusable(reg, key)
    ensures Inv(Issue(reg, key, snapshot))
  {
    NumbersAreFresh(reg.next, reg.next);
  }

  /** Refs are never lost or bound to another key, and retired records never change. */
  ghost predicate Evolves(reg: Registry, reg': Registry) {
    && reg.next <= reg'.next
    && forall ref | ref in reg.records ::
         && ref in reg'.records && reg'.records[ref].key == reg.records[ref].key
         && (reg.records[ref].permanent ==> reg'.records[ref] == reg.records[ref])
  }

  lemma BuryEvolves(reg: Registry, keys: set<string>, reason: string, permanent: bool)
    requires Inv(reg)
    ensures Evolves(reg, BuryKeys(reg, keys, reason, permanent))
  {
  }

  lemma EvolvesTransitive(a: Registry, b: Registry, c: Registry)
    requires Evolves(a, b) && Evolves(b, c)
    ensures Evolves(a, c)
  {
  }

  lemma InstallEvolves(reg: Registry, key: string, snapshot: SnapshotRef)
    requires Inv(reg)
    ensures Inv(Install(reg, key, snapshot)) && Evolves(reg, Install(reg, key, snapshot))
    ensures Install(reg, key, snapshot).current.Keys == reg.current.Keys + {key}
  {
    if Reusable(reg, key) {
      ReuseKeepsInv(reg, key, snapshot);
    } else {
      IssueKeepsInv(reg, key, snapshot);
    }
    InstallOnlyAdds(reg, key, snapshot);
  }

  lemma InstallOnlyAdds(reg: Registry, key: string, snapshot: SnapshotRef)
    requires Inv(reg)
    ensures Evolves(reg, Install(reg, key, snapshot))
  {
    NumbersAreFresh(reg.next, reg.next);
    forall ref | ref in reg.records ensures ref != RefName(reg.next) {
      assert ref in Issued(reg.next);
    }
  }

  lemma InstallEvolvesFrom(reg: Registry, mid: Registry, pick: SnapshotRef)
    requires Inv(mid) && Evolves(reg, mid)
    ensures var reg' := Install(mid, pick.refKey, pick);
            Inv(reg') && Evolves(reg, reg') && reg'.current.Keys == mid.current.Keys + {pick.refKey}
  {
    InstallEvolves(mid, pick.refKey, pick);
    EvolvesTransitive(reg, mid, Install(mid, pick.refKey, pick));
  }

  lemma {:induction false} InstallAllEvolves(reg: Registry, picks: seq<SnapshotRef>)
    requires Inv(reg)
    ensures Inv(InstallAll(reg, picks)) && Evolves(reg, InstallAll(reg, picks))
    ensures InstallAll(reg, picks).current.Keys == reg.current.Keys + PickedKeys(picks)
  {
    if picks != [] {
      var init, pick := picks[..|picks| - 1], picks[|picks| - 1];
      InstallAllEvolves(reg, init);
      InstallEvolvesFrom(reg, InstallAll(reg, init), pick);
    }
  }

  /** The current ref of `key` is among the stable ones and shows a pick for that key. */
  ghost predicate Shows(reg: Registry, stable: Refs, key: string) {
    && key in reg.current && reg.current[key] in stable && reg.current[key] in reg.records
    && stable[reg.current[key]] == reg.records[reg.current[key]].snapshot
    && stable[reg.current[key]].refKey == key
  }

  lemma InstallShows(reg: Registry, stable: Refs, pick: SnapshotRef)
    requires Inv(reg)
    ensures var reg' := Install(reg, pick.refKey, pick);
            && pick.refKey in reg'.current
            && Shows(reg', stable[reg'.current[pick.refKey] := pick], pick.refKey)
            && forall key | key != pick.refKey && key in reg.current ::
                 && reg'.current[key] == reg.current[key] != reg'.current[pick.refKey]
                 && (Shows(reg, stable, key) ==> Shows(reg', stable[reg'.current[pick.refKey] := pick], key))
  {
    NumbersAreFresh(reg.next, reg.next);
  }

  /** Every picked key has a current ref that shows one of the picks for that key. */
  lemma {:induction false} InstallAllShows(reg: Registry, picks: seq<SnapshotRef>, key: string)
    requires Inv(reg) && key in PickedKeys(picks)
    ensures Shows(InstallAll(reg, picks), StableAll(reg, picks), key)
  {
    var init, pick := picks[..|picks| - 1], picks[|picks| - 1];
    InstallAllEvolves(reg, init);
    InstallShows(InstallAll(reg, init), StableAll(reg, init), pick);
    if key != pick.refKey {
      InstallAllShows(reg, init, key);
    }
  }

  /** Only current refs of picked keys are handed out, and only with picked data. */
  lemma {:induction false} StableRefsArePicked(reg: Registry, picks: seq<SnapshotRef>, ref: string)
    requires Inv(reg) && ref in StableAll(reg, picks)
    ensures StableAll(reg, picks)[ref] in picks
    ensures var reg', pick := InstallAll(reg, picks), StableAll(reg, picks)[ref];
            pick.refKey in reg'.current && reg'.current[pick.refKey] == ref
  {
    var init, pick := picks[..|picks| - 1], picks[|picks| - 1];
    InstallAllEvolves(reg, init);
    InstallShows(InstallAll(reg, init), StableAll(reg, init), pick);
    if ref != InstallAll(reg, picks).current[pick.refKey] {
      StableRefsArePicked(reg, init, ref);
    }
  }

  ghost function LiveRefs(reg: Registry): Refs {
    map ref | ref in reg.records && reg.records[ref].tombstone.None? :: reg.records[ref].snapshot
  }

  lemma StableIsLive(reg: Registry, picks: seq<SnapshotRef>)
    requires Inv(reg) && reg.current.Keys <= PickedKeys(picks)
    ensures StableAll(reg, picks) == LiveRefs(InstallAll(reg, picks))
  {
    var reg', stable := InstallAll(reg, picks), StableAll(reg, picks);
    InstallAllEvolves(reg, picks);
    LiveIsCurrent(reg');
    forall ref | ref in LiveRefs(reg') ensures ref in stable && stable[ref] == LiveRefs(reg')[ref] {
      InstallAllShows(reg, picks, reg'.records[ref].key);
    }
    forall ref | ref in stable ensures ref in LiveRefs(reg') {
      StableRefsArePicked(reg, picks, ref);
    }
  }

  lemma MissingAreBuried(reg: Registry, refs: Refs, picks: seq<SnapshotRef>)
    requires Inv(reg) && PickedKeys(picks) == KeysOf(refs)
    ensures var buried, reg' := BuryMissing(reg, refs), InstallAll(BuryMissing(reg, refs), picks);
            && Inv(buried) && Inv(reg') && Evolves(reg, reg')
            && buried.current.Keys <= KeysOf(refs) && reg'.current.Keys == KeysOf(refs)
  {
    var buried, missing := BuryMissing(reg, refs), reg.current.Keys - Seen(refs);
    BuryKeepsInv(reg, missing, "removed", false);
    BuryEvolves(reg, missing, "removed", false);
    InstallAllEvolves(buried, picks);
    EvolvesTransitive(reg, buried, InstallAll(buried, picks));
  }

  /**
   After a snapshot the live refs are exactly the refs handed out, with the data of that snapshot,
   one for each of its keys; nothing that was current before survives in any other way.
   */
  lemma SnapshotSetsLive(reg: Registry, refs: Refs, reg': Registry, stable: Refs)
    requires Inv(reg) && Applied(reg, refs, reg', stable)
    ensures Inv(reg') && Evolves(reg, reg')
    ensures stable == LiveRefs(reg')
    ensures reg'.current.Keys == KeysOf(refs)
    ensures forall key | key in reg'.current :: reg'.current[key] in stable
    ensures forall ref | ref in stable :: stable[ref] in refs.Values && reg'.records[ref].key == stable[ref].refKey
  {
    var picks :| AppliedBy(reg, refs, picks, reg', stable);
    var buried := BuryMissing(reg, refs);
    MissingAreBuried(reg, refs, picks);
    StableIsLive(buried, picks);
    LiveIsCurrent(reg');
    forall ref | ref in stable ensures stable[ref] in refs.Values && reg'.records[ref].key == stable[ref].refKey {
      StableRefsArePicked(buried, picks, ref);
    }
  }

  lemma CurrentAreHandedOut(reg: Registry, refs: Refs, reg': Registry, stable: Refs)
    requires Inv(reg) && Applied(reg, refs, reg', stable)
    ensures forall key | key in reg'.current :: reg'.current[key] in stable
  {
    SnapshotSetsLive(reg, refs, reg', stable);
  }

  lemma LiveIsCurrent(reg: Registry)
    requires Inv(reg)
    ensures forall ref :: ref in LiveRefs(reg) <==>
              ref in reg.records && reg.records[ref].key in reg.current && reg.current[reg.records[ref].key] == ref
    ensures forall key | key in reg.current ::
            reg.current[key] in LiveRefs(reg) && reg.records[reg.current[key]].key == key
  {
    forall ref | ref in reg.records ensures RecordInv(reg, ref, reg.records[ref]) {
    }
  }

  /** An invalidation buries every live ref, for good if the page navigated away, and no other. */
  lemma InvalidationBuriesLive(reg: Registry, reason: string)
    requires Inv(reg)
    ensures var reg' := Invalidate(reg, reason);
            && Inv(reg') && Evolves(reg, reg') && LiveRefs(reg') == map[] && reg'.records.Keys == reg.records.Keys
            && forall ref | ref in reg.records ::
                 var r := reg.records[ref];
                 reg'.records[ref]
                 == if Live(reg, ref)
                    then r.(tombstone := Some(Tombstone(r.key, ref, r.snapshot.role, r.snapshot.name, reason)),
                            permanent := reason == NAVIGATED)
                    else r
  {
    BuryKeepsInv(reg, reg.current.Keys, reason, reason == NAVIGATED);
    BuryEvolves(reg, reg.current.Keys, reason, reason == NAVIGATED);
    forall ref | ref in reg.records ensures RecordInv(reg, ref, reg.records[ref]) {
    }
  }

  /** A key in the snapshot keeps any ref it had, unless that ref was retired. */
  lemma SnapshotKeepsRef(reg: Registry, refs: Refs, reg': Registry, stable: Refs, ref: string)
    requires Inv(reg) && Applied(reg, refs, reg', stable) && ref in reg.records && reg.records[ref].key in KeysOf(refs)
    ensures var key := reg.records[ref].key;
            key in reg'.current && (reg'.current[key] == ref <==> !reg.records[ref].permanent)
    ensures ref in reg'.records && reg'.records[ref].permanent == reg.records[ref].permanent
  {
    var key := reg.records[ref].key;
    SnapshotSetsLive(reg, refs, reg', stable);
    var picks :| AppliedBy(reg, refs, picks, reg', stable);
    var buried := BuryMissing(reg, refs);
    BuryKeepsInv(reg, reg.current.Keys - Seen(refs), "removed", false);
    assert RecordInv(reg, ref, reg.records[ref]);
    assert buried.records[ref].permanent == reg.records[ref].permanent;
    InstallAllReuses(buried, picks, ref);
    assert RecordInv(reg', ref, reg'.records[ref]);
  }

  lemma {:induction false} InstallAllReuses(reg: Registry, picks: seq<SnapshotRef>, ref: string)
    requires Inv(reg) && ref in reg.records
    ensures var reg' := InstallAll(reg, picks);
            ref in reg'.records && reg'.records[ref].key == reg.records[ref].key
            && reg'.records[ref].permanent == reg.records[ref].permanent
  {
    if picks != [] {
      var init := picks[..|picks| - 1];
      InstallAllReuses(reg, init, ref);
      InstallAllEvolves(reg, init);
      InstallReuses(InstallAll(reg, init), picks[|picks| - 1], ref);
    }
  }

  lemma InstallReuses(reg: Registry, pick: SnapshotRef, ref: string)
    requires Inv(reg) && ref in reg.records
    ensures var reg' := Install(reg, pick.refKey, pick);
            ref in reg'.records && reg'.records[ref].key == reg.records[ref].key
            && reg'.records[ref].permanent == reg.records[ref].permanent
  {
    NumbersAreFresh(reg.next, reg.next);
  }

  /** A live ref whose key the snapshot lacks is buried as removed, and may come back. */
  lemma SnapshotBuriesMissing(reg: Registry, refs: Refs, reg': Registry, stable: Refs, ref: string)
    requires Inv(reg) && Applied(reg, refs, reg', stable) && Live(reg, ref) && reg.records[ref].key !in KeysOf(refs)
    ensures var r := reg.records[ref];
            ref in reg'.records && reg'.records[ref] ==
            r.(tombstone := Some(Tombstone(r.key, ref, r.snapshot.role, r.snapshot.name, "removed")),
              permanent := false)
  {
    var picks :| AppliedBy(reg, refs, picks, reg', stable);
    MissingAreBuried(reg, refs, picks);
    assert RecordInv(reg, ref, reg.records[ref]);
    InstallAllLeavesOthers(BuryMissing(reg, refs), picks, ref);
  }

  lemma {:induction false} InstallAllLeavesOthers(reg: Registry, picks: seq<SnapshotRef>, ref: string)
    requires Inv(reg) && ref in reg.records && reg.records[ref].key !in PickedKeys(picks)
    ensures ref in InstallAll(reg, picks).records && InstallAll(reg, picks).records[ref] == reg.records[ref]
  {
    if picks != [] {
      var init, pick := picks[..|picks| - 1], picks[|picks| - 1];
      InstallAllLeavesOthers(reg, init, ref);
      InstallAllEvolves(reg, init);
      InstallLeavesOthers(InstallAll(reg, init), pick, ref);
    }
  }

  lemma InstallLeavesOthers(reg: Registry, pick: SnapshotRef, ref: string)
    requires Inv(reg) && ref in reg.records && reg.records[ref].key != pick.refKey
    ensures ref in Install(reg, pick.refKey, pick).records
            && Install(reg, pick.refKey, pick).records[ref] == reg.records[ref]
  {
    NumbersAreFresh(reg.next, reg.next);
  }

  // ---------- runs ----------

  /** The navigation service: its registry, its map of usable refs, and how often it was invalidated. */
  datatype Service = Service(registry: Registry, refs: Refs, epoch: nat)

  datatype Event = Snapshot(refs: Refs) | Invalidation(reason: string)

  ghost predicate Step(s: Service, e: Event, s': Service) {
    match e
    case Snapshot(refs) => "" !in refs && Applied(s.registry, refs, s'.registry, s'.refs) && s'.epoch == s.epoch
    case Invalidation(reason) => s' == Service(Invalidate(s.registry, reason), map[], s.epoch + 1)
  }

  ghost predicate StepAt(states: seq<Service>, events: seq<Event>, i: nat) {
    i < |events| && i + 1 < |states| && Step(states[i], events[i], states[i + 1])
  }

  ghost predicate IsRun(states: seq<Service>, events: seq<Event>) {
    && |states| == |events| + 1 && states[0] == Service(Empty, map[], 0)
    && forall i | 0 <= i < |events| :: StepAt(states, events, i)
  }

  ghost predicate ServiceInv(s: Service) {
    Inv(s.registry) && s.refs == LiveRefs(s.registry)
  }

  /** What one step does to the records: it retires the live ones on navigation and adds only live ones. */
  ghost predicate Effect(reg: Registry, e: Event, reg': Registry) {
    && (forall ref | ref in reg.records ::
          && ref in reg'.records
          && (reg'.records[ref].permanent <==>
              reg.records[ref].permanent || (e == Invalidation(NAVIGATED) && Live(reg, ref))))
    && (forall ref | ref in reg'.records && ref !in reg.records :: Live(reg', ref) && !reg'.records[ref].permanent)
  }

  lemma SnapshotKeepsPermanence(reg: Registry, refs: Refs, picks: seq<SnapshotRef>, ref: string)
    requires Inv(reg) && Covers(picks, refs) && ref in reg.records
    ensures var reg' := InstallAll(BuryMissing(reg, refs), picks);
            ref in reg'.records && reg'.records[ref].permanent == reg.records[ref].permanent
  {
    MissingAreBuried(reg, refs, picks);
    assert RecordInv(reg, ref, reg.records[ref]);
    InstallAllReuses(BuryMissing(reg, refs), picks, ref);
  }

  lemma SnapshotEffect(reg: Registry, refs: Refs, reg': Registry, stable: Refs)
    requires Inv(reg) && Applied(reg, refs, reg', stable)
    ensures Effect(reg, Snapshot(refs), reg')
  {
    var picks :| AppliedBy(reg, refs, picks, reg', stable);
    forall ref | ref in reg.records
      ensures ref in reg'.records && reg'.records[ref].permanent == reg.records[ref].permanent
    {
      SnapshotKeepsPermanence(reg, refs, picks, ref);
    }
    MissingAreBuried(reg, refs, picks);
    forall ref | ref in reg'.records && ref !in reg.records ensures Live(reg', ref) && !reg'.records[ref].permanent {
      NewRecordsAreLive(BuryMissing(reg, refs), picks, ref);
    }
  }

  lemma {:induction false} NewRecordsAreLive(reg: Registry, picks: seq<SnapshotRef>, ref: string)
    requires Inv(reg) && ref !in reg.records && ref in InstallAll(reg, picks).records
    ensures InstallAll(reg, picks).records[ref].tombstone.None? && !InstallAll(reg, picks).records[ref].permanent
  {
    var init := picks[..|picks| - 1];
    if ref in InstallAll(reg, init).records {
      NewRecordsAreLive(reg, init, ref);
    }
  }

  lemma StepKeepsInv(s: Service, e: Event, s': Service)
    requires ServiceInv(s) && Step(s, e, s')
    ensures ServiceInv(s') && Evolves(s.registry, s'.registry) && Effect(s.registry, e, s'.registry)
  {
    match e
    case Snapshot(refs) =>
      SnapshotSetsLive(s.registry, refs, s'.registry, s'.refs);
      SnapshotEffect(s.registry, refs, s'.registry, s'.refs);
    case Invalidation(reason) =>
      InvalidationBuriesLive(s.registry, reason);
  }

  lemma StepKeepsServiceInv(s: Service, e: Event, s': Service)
    requires ServiceInv(s) && Step(s, e, s')
    ensures ServiceInv(s')
  {
    StepKeepsInv(s, e, s');
  }

  lemma {:induction false} RunKeepsInv(states: seq<Service>, events: seq<Event>, i: nat)
    requires IsRun(states, events) && i < |states|
    ensures ServiceInv(states[i])
    ensures i > 0 ==> Evolves(states[i - 1].registry, states[i].registry)
    ensures i > 0 ==> Effect(states[i - 1].registry, events[i - 1], states[i].registry)
  {
    if i > 0 {
      RunKeepsInv(states, events, i - 1);
      assert StepAt(states, events, i - 1);
      StepKeepsInv(states[i - 1], events[i - 1], states[i]);
    }
  }

  /** In every run a ref, once issued, is bound to one key for ever; its number is never issued again. */
  lemma {:induction false} RefKeepsItsKey(states: seq<Service>, events: seq<Event>, i: nat, j: nat)
    requires IsRun(states, events) && i <= j < |states|
    ensures Evolves(states[i].registry, states[j].registry)
  {
    if i < j {
      RefKeepsItsKey(states, events, i, j - 1);
      RunKeepsInv(states, events, j);
      EvolvesTransitive(states[i].registry, states[j - 1].registry, states[j].registry);
    }
  }

  ghost predicate NavigatedWhileLive(states: seq<Service>, events: seq<Event>, ref: string, i: nat) {
    i < |events| < |states| && events[i] == Invalidation(NAVIGATED) && Live(states[i].registry, ref)
  }

  /** A ref is retired exactly when some navigation happened while it was live. */
  lemma {:induction false} RetiredIffNavigatedWhileLive(states: seq<Service>, events: seq<Event>, j: nat, ref: string)
    requires IsRun(states, events) && j < |states| && ref in states[j].registry.records
    ensures states[j].registry.records[ref].permanent
            <==> exists i | 0 <= i < j :: NavigatedWhileLive(states, events, ref, i)
  {
    if j > 0 {
      RunKeepsInv(states, events, j);
      if ref in states[j - 1].registry.records {
        RetiredIffNavigatedWhileLive(states, events, j - 1, ref);
        assert NavigatedWhileLive(states, events, ref, j - 1) <==>
               events[j - 1] == Invalidation(NAVIGATED) && Live(states[j - 1].registry, ref);
      } else {
        forall i | 0 <= i < j ensures !NavigatedWhileLive(states, events, ref, i) {
          RefKeepsItsKey(states, events, i, j - 1);
        }
      }
    }
  }

  /** A ref that was live at a navigation is stale in every later state. */
  lemma NavigationRetiresForGood(states: seq<Service>, events: seq<Event>, i: nat, j: nat, ref: string)
    requires IsRun(states, events) && i < j < |states| && NavigatedWhileLive(states, events, ref, i)
    ensures ref in states[j].registry.records && !Live(states[j].registry, ref) && ref !in states[j].refs
  {
    RefKeepsItsKey(states, events, i, j);
    RetiredIffNavigatedWhileLive(states, events, j, ref);
    RunKeepsInv(states, events, j);
    assert RecordInv(states[j].registry, ref, states[j].registry.records[ref]);
  }

  /** A key that reappears gets its old ref back, unless a navigation happened while that ref was live. */
  lemma KeyGetsItsRefBack(states: seq<Service>, events: seq<Event>, i: nat, j: nat, ref: string)
    requires IsRun(states, events) && i <= j < |events| && ref in states[i].registry.records
    requires events[j].Snapshot? && states[i].registry.records[ref].key in KeysOf(events[j].refs)
    ensures var key := states[i].registry.records[ref].key;
            key in states[j + 1].registry.current
            && (states[j + 1].registry.current[key] == ref
              <==> !exists k | 0 <= k < j :: NavigatedWhileLive(states, events, ref, k))
  {
    RefKeepsItsKey(states, events, i, j);
    RunKeepsInv(states, events, j);
    RetiredIffNavigatedWhileLive(states, events, j, ref);
    assert StepAt(states, events, j);
    SnapshotKeepsRef(states[j].registry, events[j].refs, states[j + 1].registry, states[j + 1].refs, ref);
  }

  datatype Resolution = Unknown | Stale(tombstone: Tombstone) | Alive(snapshot: SnapshotRef)

  function Resolve(reg: Registry, ref: string): Resolution {
    if ref !in reg.records then Unknown
    else match reg.records[ref].tombstone
      case Some(t) => Stale(t)
      case None => Alive(reg.records[ref].snapshot)
  }

  /**
   In every reachable state a ref resolves live exactly when the service's own map holds it, with
   the same data, and to a tombstone exactly when it was issued and is not live.
   */
  lemma ResolveMeaning(states: seq<Service>, events: seq<Event>, i: nat, ref: string)
    requires IsRun(states, events) && i < |states|
    ensures var r := Resolve(states[i].registry, ref);
            && (r.Alive? <==> ref in states[i].refs) && (r.Alive? ==> r.snapshot == states[i].refs[ref])
            && (r.Stale? <==> ref in states[i].registry.records && ref !in states[i].refs)
  {
    RunKeepsInv(states, events, i);
  }

  /** The live refs are those of the latest snapshot, one for each of its keys, or none after an invalidation. */
  lemma LiveAreTheLatest(states: seq<Service>, events: seq<Event>, i: nat)
    requires IsRun(states, events) && i < |events|
    ensures var live := states[i + 1].refs;
            match events[i]
            case Snapshot(refs) =>
              && (forall ref | ref in live :: live[ref] in refs.Values)
              && (set ref | ref in live :: live[ref].refKey) == KeysOf(refs)
              && (forall r1, r2 | r1 in live && r2 in live && r1 != r2 :: live[r1].refKey != live[r2].refKey)
            case Invalidation(_) => live == map[]
  {
    RunKeepsInv(states, events, i);
    assert StepAt(states, events, i);
    if events[i].Snapshot? {
      var reg', live := states[i + 1].registry, states[i + 1].refs;
      SnapshotSetsLive(states[i].registry, events[i].refs, reg', live);
      LiveIsCurrent(reg');
      forall key | key in KeysOf(events[i].refs) ensures key in (set ref | ref in live :: live[ref].refKey) {
        assert live[reg'.current[key]].refKey == key;
      }
    }
  }

  lemma EpochStep(states: seq<Service>, events: seq<Event>, k: nat)
    requires IsRun(states, events) && k < |events|
    ensures states[k + 1].epoch == states[k].epoch + if events[k].Snapshot? then 0 else 1
  {
    assert StepAt(states, events, k);
  }

  /** Two states are in one epoch exactly when nothing was invalidated between them. */
  lemma {:induction false} SameEpochIff(states: seq<Service>, events: seq<Event>, i: nat, j: nat)
    requires IsRun(states, events) && i <= j < |states|
    ensures states[i].epoch <= states[j].epoch
    ensures states[i].epoch == states[j].epoch <==> forall k | i <= k < j :: events[k].Snapshot?
  {
    if i < j {
      SameEpochIff(states, events, i, j - 1);
      EpochStep(states, events, j - 1);
    }
  }
}
