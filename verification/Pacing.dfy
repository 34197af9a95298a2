/**
 Per-host pacing of form runs: each call is granted a slot at least one interval after the slot
 granted before it for the same host, and the slot is recorded before the caller sleeps.
 */
module Pacing {

  /** Times count from the clock's zero time, which also stands for the slot before the first one. */
  const ZERO_TIME := 0
  const DEFAULT_MIN_HOST_INTERVAL := 5_000_000_000

  type Slots = map<string, int>

  datatype Call = Call(host: string, now: int)

  function LastOf(last: Slots, host: string): int {
    if host in last then last[host] else ZERO_TIME
  }

  /** The slot a call gets: now, or one interval after the previous slot if that is later. */
  function SlotAfter(interval: int, previous: int, now: int): int {
    if previous + interval > now then previous + interval else now
  }

  class Pacer {
    const minInterval: int
    var last: Slots
    ghost var calls: seq<Call>

    ghost predicate Valid()
      reads this
    {
      minInterval > 0 && last == LastAfter(minInterval, calls)
    }

    constructor (minInterval: int)
      ensures Valid() && calls == []
      ensures this.minInterval == if minInterval <= 0 then DEFAULT_MIN_HOST_INTERVAL else minInterval
    {
      this.minInterval := if minInterval <= 0 then DEFAULT_MIN_HOST_INTERVAL else minInterval;
      last, calls := map[], [];
    }

    /** The locked part of a call and the time it then sleeps. */
    method Wait(host: string, now: int) returns (sleep: int)
      requires Valid()
      modifies this
      ensures Valid() && calls == old(calls) + [Call(host, now)]
      ensures sleep >= 0 && now + sleep == Granted(minInterval, calls)[|calls| - 1]
    {
      calls := calls + [Call(host, now)];
      assert calls[..|calls| - 1] == old(calls);
      var deadline := LastOf(last, host) + minInterval;
      last := last[host := now];
      if deadline > now {
        last := last[host := deadline];
        return deadline - now;
      }
      return 0;
    }
  }

  /** The slots recorded after a sequence of calls. */
  function LastAfter(interval: int, calls: seq<Call>): Slots {
    if calls == [] then map[]
    else
      var before, call := LastAfter(interval, calls[..|calls| - 1]), calls[|calls| - 1];
      before[call.host := SlotAfter(interval, LastOf(before, call.host), call.now)]
  }

  /** The slot granted to each call. */
  function Granted(interval: int, calls: seq<Call>): (slots: seq<int>)
    ensures |slots| == |calls|
  {
    if calls == [] then []
    else
      var call := calls[|calls| - 1];
      Granted(interval, calls[..|calls| - 1])
        + [SlotAfter(interval, LastOf(LastAfter(interval, calls[..|calls| - 1]), call.host), call.now)]
  }

  // ---------- one host on its own ----------

  /** The slots of one host, from its arrival times alone. */
  function HostSlots(interval: int, arrivals: seq<int>): (slots: seq<int>)
    ensures |slots| == |arrivals|
  {
    if arrivals == [] then []
    else
      var before := HostSlots(interval, arrivals[..|arrivals| - 1]);
      before + [SlotAfter(interval, if before == [] then ZERO_TIME else before[|before| - 1], arrivals[|arrivals| - 1])]
  }

  /** The arrival times of one host's calls. */
  function Arrivals(calls: seq<Call>, host: string): seq<int> {
    if calls == [] then []
    else Arrivals(calls[..|calls| - 1], host) + if calls[|calls| - 1].host == host then [calls[|calls| - 1].now] else []
  }

  /** The slots granted to one host's calls. */
  function GrantedTo(interval: int, calls: seq<Call>, host: string): seq<int> {
    if calls == [] then []
    else GrantedTo(interval, calls[..|calls| - 1], host) +
         if calls[|calls| - 1].host == host then [Granted(interval, calls)[|calls| - 1]] else []
  }

  /** Hosts do not affect each other: a host's slots are what it would get alone. */
  lemma {:induction false} HostsAreIndependent(interval: int, calls: seq<Call>, host: string)
    ensures GrantedTo(interval, calls, host) == HostSlots(interval, Arrivals(calls, host))
    ensures var slots := HostSlots(interval, Arrivals(calls, host));
            LastOf(LastAfter(interval, calls), host) == if slots == [] then ZERO_TIME else slots[|slots| - 1]
  {
    if calls != [] {
      var before, call := calls[..|calls| - 1], calls[|calls| - 1];
      HostsAreIndependent(interval, before, host);
      if call.host == host {
        var arrivals := Arrivals(calls, host);
        assert arrivals[..|arrivals| - 1] == Arrivals(before, host);
      } else {
        assert Arrivals(calls, host) == Arrivals(before, host);
      }
    }
  }

  /** The i-th and the j-th slot of a host are at least j - i intervals apart, whatever the clock reads. */
  lemma {:induction false} SlotsAreSpaced(interval: int, arrivals: seq<int>, i: nat, j: nat)
    requires interval > 0 && i <= j < |arrivals|
    ensures HostSlots(interval, arrivals)[j] - HostSlots(interval, arrivals)[i] >= (j - i) * interval
    ensures HostSlots(interval, arrivals)[j] >= arrivals[j]
    decreases |arrivals|, j
  {
    var n := |arrivals| - 1;
    var before := arrivals[..n];
    if j < n {
      SlotsAreSpaced(interval, before, i, j);
    } else if i < j {
      SlotsAreSpaced(interval, before, i, j - 1);
      assert (j - i) * interval == (j - 1 - i) * interval + interval;
    }
  }

  /** A schedule for one host: no slot before its call arrives, and neighbouring slots one interval apart. */
  ghost predicate IsSchedule(interval: int, arrivals: seq<int>, slots: seq<int>) {
    && |slots| == |arrivals|
    && (forall i | 0 <= i < |slots| :: slots[i] >= arrivals[i])
    && (forall i | 0 <= i < |slots| - 1 :: slots[i + 1] >= slots[i] + interval)
  }

  ghost predicate NoLater(a: seq<int>, b: seq<int>) {
    |a| == |b| && forall i | 0 <= i < |a| :: a[i] <= b[i]
  }

  lemma HostSlotsAreSchedule(interval: int, arrivals: seq<int>)
    requires interval > 0
    ensures IsSchedule(interval, arrivals, HostSlots(interval, arrivals))
  {
    forall i | 0 <= i < |arrivals| ensures HostSlots(interval, arrivals)[i] >= arrivals[i] {
      SlotsAreSpaced(interval, arrivals, i, i);
    }
    forall i | 0 <= i < |arrivals| - 1
      ensures HostSlots(interval, arrivals)[i + 1] >= HostSlots(interval, arrivals)[i] + interval
    {
      SlotsAreSpaced(interval, arrivals, i, i + 1);
    }
  }

  /** No schedule that starts at least one interval after the zero time grants any slot earlier. */
  lemma {:induction false} SlotsAreEarliest(interval: int, arrivals: seq<int>, slots: seq<int>, i: nat)
    requires IsSchedule(interval, arrivals, slots) && i < |arrivals| && slots[0] >= ZERO_TIME + interval
    ensures HostSlots(interval, arrivals)[i] <= slots[i]
    decreases |arrivals|
  {
    var n := |arrivals| - 1;
    if i < n {
      SlotsAreEarliest(interval, arrivals[..n], slots[..n], i);
    } else if i > 0 {
      SlotsAreEarliest(interval, arrivals[..n], slots[..n], i - 1);
      assert slots[(i - 1) + 1] >= slots[i - 1] + interval;
    }
  }

  /**
   The slots are the earliest of all schedules exactly when the first call comes no sooner than one
   interval after the zero time, which every real clock guarantees.
   */
  lemma EarliestIffClockStarted(interval: int, arrivals: seq<int>)
    requires interval > 0 && arrivals != []
    ensures (forall slots | IsSchedule(interval, arrivals, slots) :: NoLater(HostSlots(interval, arrivals), slots)) <==>
            arrivals[0] >= ZERO_TIME + interval
  {
    if arrivals[0] >= ZERO_TIME + interval {
      forall slots | IsSchedule(interval, arrivals, slots) ensures NoLater(HostSlots(interval, arrivals), slots) {
        forall i | 0 <= i < |slots| ensures HostSlots(interval, arrivals)[i] <= slots[i] {
          SlotsAreEarliest(interval, arrivals, slots, i);
        }
      }
    } else {
      var late := HostSlots(interval, arrivals);
      HostSlotsAreSchedule(interval, arrivals);
      FirstSlot(interval, arrivals);
      var early := late[0 := arrivals[0]];
      assert IsSchedule(interval, arrivals, early);
      assert early[0] < late[0];
      assert !NoLater(late, early);
    }
  }

  lemma {:induction false} FirstSlot(interval: int, arrivals: seq<int>)
    requires arrivals != []
    ensures HostSlots(interval, arrivals)[0] == SlotAfter(interval, ZERO_TIME, arrivals[0])
  {
    if |arrivals| > 1 {
      FirstSlot(interval, arrivals[..|arrivals| - 1]);
    }
  }
}
