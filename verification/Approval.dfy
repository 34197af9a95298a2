/**
 Out-of-band approval. A policy gate asks a human through a prompt and waits; humans, clocks and
 cancellations race to finish the prompt. Every lock-protected section is one atomic step, and the
 steps of waiters and finishers interleave freely.
 */
module Approval {
  import opened Options

  // ---------- the prompt manager ----------

  datatype Status = Pending | Completed | Cancelled | TimedOut

  /** A prompt; `owner` is the gate call it belongs to, kept for the proof. */
  datatype Prompt = Prompt(status: Status, createdAt: int, timeout: int, owner: Option<nat>)

  /** Prompts by number: prompt `n` is called oob-n. */
  datatype Store = Store(next: nat, prompts: map<nat, Prompt>)

  function CreateIn(store: Store, createdAt: int, timeout: int, owner: Option<nat>): Store {
    Store(store.next + 1, store.prompts[store.next + 1 := Prompt(Pending, createdAt, timeout, owner)])
  }

  /** Finishing succeeds only on a pending prompt. */
  predicate CanFinish(store: Store, id: nat) {
    id in store.prompts && store.prompts[id].status.Pending?
  }

  function FinishIn(store: Store, id: nat, status: Status): Store {
    if CanFinish(store, id) then store.(prompts := store.prompts[id := store.prompts[id].(status := status)]) else store
  }

  class Manager {
    var next: nat
    var prompts: map<nat, Prompt>

    function Contents(): Store
      reads this
    {
      Store(next, prompts)
    }

    /** Prompts are numbered from one and never removed. */
    ghost predicate Valid()
      reads this
    {
      forall id: nat :: id in prompts <==> 1 <= id <= next
    }

    constructor ()
      ensures Valid() && Contents() == Store(0, map[])
    {
      next, prompts := 0, map[];
    }

    /** A new prompt has a number that was never used and is pending. */
    method Create(now: int, timeout: int, owner: Option<nat>) returns (id: nat)
      requires Valid()
      modifies this
      ensures Valid() && Contents() == CreateIn(old(Contents()), now, timeout, owner)
      ensures id !in old(prompts) && id in prompts && prompts[id] == Prompt(Pending, now, timeout, owner)
      ensures forall other | other in old(prompts) :: other in prompts && prompts[other] == old(prompts[other])
    {
      next := next + 1;
      prompts := prompts[next := Prompt(Pending, now, timeout, owner)];
      return next;
    }

    /** A prompt can be read exactly when its number was issued, whatever became of it. */
    method Get(id: nat) returns (prompt: Option<Prompt>)
      requires Valid()
      ensures prompt.Some? <==> 1 <= id <= next
      ensures prompt.Some? ==> id in prompts && prompt.value == prompts[id]
    {
      if id !in prompts {
        return None;
      }
      return Some(prompts[id]);
    }

    /** At most the first finish of a prompt takes effect. */
    method Finish(id: nat, status: Status) returns (prompt: Option<Prompt>)
      requires Valid()
      modifies this`prompts
      ensures Valid() && Contents() == FinishIn(old(Contents()), id, status)
      ensures prompt.Some? <==> id in old(prompts) && old(prompts)[id].status.Pending?
      ensures prompt.Some? ==>
                prompt == Some(old(prompts)[id].(status := status)) && prompts == old(prompts)[id := prompt.value]
      ensures prompt.None? ==> prompts == old(prompts)
    {
      if id !in prompts || prompts[id].status != Pending {
        return None;
      }
      prompts := prompts[id := prompts[id].(status := status)];
      return Some(prompts[id]);
    }
  }

  // ---------- the decision ----------

  datatype Decision = Allow | Deny | Confirm | Unknown

  datatype Decider = ByGuard | ByPolicy | ByHuman

  datatype Guard = NoGuard | GuardFails | GuardSays(decision: Decision)

  /** What the decision rests on: whether the command has a risk class, the guard, and the local policy. */
  datatype Basis = Basis(classified: bool, guard: Guard, local: Decision)

  /** The guard wins if there is one, and denies if it fails. */
  function Decide(basis: Basis): Option<(Decision, Decider)> {
    if !basis.classified then None
    else match basis.guard
      case GuardFails => Some((Deny, ByGuard))
      case GuardSays(d) => Some((d, ByGuard))
      case NoGuard => Some((basis.local, ByPolicy))
  }

  // ---------- gate calls as threads ----------

  /** Where a gate call stands; `seen` is the status in the copy of the prompt that the wait read last. */
  datatype Pc =
    | Deciding(basis: Basis)
    | Asking(decider: Decider)
    | Asked(prompt: nat, decider: Decider)
    | Polling(prompt: nat, deadline: Option<int>, decider: Decider)
    | Expiring(prompt: nat, seen: Status, decider: Decider)
    | Sleeping(prompt: nat, seen: Status, deadline: Option<int>, decider: Decider)
    | Returned(allowed: bool, decision: Option<Decision>, decider: Decider, asked: Option<nat>)

  /** `finishes` is the history of successful finishes, `bases` what each gate call was asked to decide. */
  datatype State = State(store: Store, threads: seq<Pc>, bases: seq<Basis>, finishes: seq<(nat, Status)>)

  const Init := State(Store(0, map[]), [], [], [])

  datatype Event =
    | Request(basis: Basis)
    | OtherPrompt(now: int, timeout: int)
    | Finish(prompt: nat, status: Status)
    | Judge(thread: nat)
    | Ask(thread: nat, now: int, timeout: int)
    | ReadDeadline(thread: nat)
    | Poll(thread: nat, now: int)
    | Expire(thread: nat)
    | Tick(thread: nat)
    | CancelWait(thread: nat, canceled: bool)

  function At(st: State, t: nat): Pc {
    if t < |st.threads| then st.threads[t] else Returned(false, None, ByPolicy, None)
  }

  predicate Enabled(st: State, e: Event) {
    match e
    case Request(_) => true
    case OtherPrompt(_, _) => true
    case Finish(_, status) => !status.Pending?
    case Judge(t) => At(st, t).Deciding?
    case Ask(t, _, _) => At(st, t).Asking?
    case ReadDeadline(t) => At(st, t).Asked? && At(st, t).prompt in st.store.prompts
    case Poll(t, _) => At(st, t).Polling? && At(st, t).prompt in st.store.prompts
    case Expire(t) => At(st, t).Expiring?
    case Tick(t) => At(st, t).Sleeping?
    case CancelWait(t, _) => At(st, t).Sleeping?
  }

  function Goto(st: State, t: nat, pc: Pc): State
    requires t < |st.threads|
  {
    st.(threads := st.threads[t := pc])
  }

  function FinishStep(st: State, id: nat, status: Status): State {
    if CanFinish(st.store, id)
    then st.(store := FinishIn(st.store, id, status), finishes := st.finishes + [(id, status)])
    else st
  }

  /** The gate's branch on the decision: only a confirmation asks the human. */
  function JudgeStep(st: State, t: nat): State
    requires t < |st.threads| && st.threads[t].Deciding?
  {
    match Decide(st.threads[t].basis)
    case None => Goto(st, t, Returned(false, None, ByPolicy, None))
    case Some((Allow, decider)) => Goto(st, t, Returned(true, Some(Allow), decider, None))
    case Some((Confirm, decider)) => Goto(st, t, Asking(decider))
    case Some((decision, decider)) => Goto(st, t, Returned(false, Some(decision), decider, None))
  }

  /** The end of a wait: only the status `completed` allows, and then the human decided. */
  function Answer(st: State, t: nat, id: nat, status: Status, decider: Decider): State
    requires t < |st.threads|
  {
    Goto(st, t, Returned(status.Completed?, Some(Confirm), if status.Completed? then ByHuman else decider, Some(id)))
  }

  /** One round of waiting: a finished prompt answers, a deadline passed leads to expiry, else sleep. */
  function PollStep(st: State, t: nat, now: int): State
    requires t < |st.threads| && st.threads[t].Polling? && st.threads[t].prompt in st.store.prompts
  {
    var pc := st.threads[t];
    var status := st.store.prompts[pc.prompt].status;
    if !status.Pending? then Answer(st, t, pc.prompt, status, pc.decider)
    else if pc.deadline.Some? && now > pc.deadline.value then Goto(st, t, Expiring(pc.prompt, status, pc.decider))
    else Goto(st, t, Sleeping(pc.prompt, status, pc.deadline, pc.decider))
  }

  /** A prompt with a timeout has a deadline. */
  function Deadline(prompt: Prompt): Option<int> {
    if prompt.timeout > 0 then Some(prompt.createdAt + prompt.timeout) else None
  }

  function Next(st: State, e: Event): State
    requires Enabled(st, e)
  {
    match e
    case Request(basis) => st.(threads := st.threads + [Deciding(basis)], bases := st.bases + [basis])
    case OtherPrompt(now, timeout) => st.(store := CreateIn(st.store, now, timeout, None))
    case Finish(id, status) => FinishStep(st, id, status)
    case Judge(t) => JudgeStep(st, t)
    case Ask(t, now, timeout) =>
      Goto(st.(store := CreateIn(st.store, now, timeout, Some(t))), t, Asked(st.store.next + 1, st.threads[t].decider))
    case ReadDeadline(t) =>
      var pc := st.threads[t];
      Goto(st, t, Polling(pc.prompt, Deadline(st.store.prompts[pc.prompt]), pc.decider))
    case Poll(t, now) => PollStep(st, t, now)
    case Expire(t) =>
      // An expiry that comes too late answers with the copy read before it.
      var pc := st.threads[t];
      var answered := if CanFinish(st.store, pc.prompt) then TimedOut else pc.seen;
      Answer(FinishStep(st, pc.prompt, TimedOut), t, pc.prompt, answered, pc.decider)
    case Tick(t) => Goto(st, t, Polling(st.threads[t].prompt, st.threads[t].deadline, st.threads[t].decider))
    case CancelWait(t, canceled) =>
      // A canceled context answers with the copy read before it; any other end of the context is an error.
      var pc := st.threads[t];
      if canceled then Answer(st, t, pc.prompt, pc.seen, pc.decider)
      else Goto(st, t, Returned(false, Some(Confirm), pc.decider, Some(pc.prompt)))
  }

  // ---------- what every step keeps ----------

  function PromptOf(pc: Pc): Option<nat> {
    match pc
    case Deciding(_) => None
    case Asking(_) => None
    case Asked(id, _) => Some(id)
    case Polling(id, _, _) => Some(id)
    case Expiring(id, _, _) => Some(id)
    case Sleeping(id, _, _, _) => Some(id)
    case Returned(_, _, _, id) => id
  }

  /** A gate call waits on its own prompt, and only for a confirmation; a positive answer has its reason. */
  ghost predicate ThreadInv(st: State, t: nat, pc: Pc) {
    && (PromptOf(pc).Some? ==>
          PromptOf(pc).value in st.store.prompts && st.store.prompts[PromptOf(pc).value].owner == Some(t))
    && t < |st.bases|
    && (pc.Expiring? || pc.Sleeping? ==> pc.seen.Pending?)
    && (pc.Deciding? ==> pc.basis == st.bases[t])
    && (pc.Asking? || (PromptOf(pc).Some?) ==> Decide(st.bases[t]).Some? && Decide(st.bases[t]).value.0.Confirm?)
    && (pc.Polling? || pc.Sleeping? ==> pc.deadline == Deadline(st.store.prompts[pc.prompt]))
    && (!pc.Deciding? && !pc.Returned? ==> pc.decider == Decide(st.bases[t]).value.1)
    && (pc.Returned? ==>
          && (pc.decision.None? <==> Decide(st.bases[t]).None?)
          && (pc.decision.Some? ==> pc.decision.value == Decide(st.bases[t]).value.0)
          && (pc.decision.Some? && !pc.allowed ==> pc.decider == Decide(st.bases[t]).value.1)
          && (pc.decision == Some(Confirm) <==> pc.asked.Some?)
          && (pc.decision == Some(Allow) ==> pc.allowed))
    && (pc.Returned? && pc.allowed ==>
          Decide(st.bases[t]).Some? &&
          match Decide(st.bases[t]).value.0
          case Allow => pc.asked.None? && pc.decider == Decide(st.bases[t]).value.1
          case Confirm => pc.asked.Some? && st.store.prompts[pc.asked.value].status.Completed? && pc.decider == ByHuman
          case _ => false)
  }

  /** The history holds each finished prompt once, with the status it still has. */
  ghost predicate HistoryInv(st: State) {
    && (forall i | 0 <= i < |st.finishes| ::
          st.finishes[i].0 in st.store.prompts && st.store.prompts[st.finishes[i].0].status == st.finishes[i].1
            && !st.finishes[i].1.Pending?)
    && (forall i, j | 0 <= i < j < |st.finishes| :: st.finishes[i].0 != st.finishes[j].0)
    && (forall id | id in st.store.prompts && !st.store.prompts[id].status.Pending? ::
      exists i :: 0 <= i < |st.finishes| && st.finishes[i].0 == id)
  }

  ghost predicate Inv(st: State) {
    && |st.bases| == |st.threads|
    && (forall id | id in st.store.prompts :: id <= st.store.next)
    && (forall t | 0 <= t < |st.threads| :: ThreadInv(st, t, st.threads[t]))
    && HistoryInv(st)
  }

  lemma InitInv()
    ensures Inv(Init)
  {
  }

  /** The store after a step: prompts are added, and pending ones may be finished, but nothing else changes. */
  ghost predicate StoreGrows(store: Store, store': Store) {
    && store.next <= store'.next
    && forall id | id in store.prompts ::
         && id in store'.prompts
         && (store'.prompts[id] == store.prompts[id]
           || (store.prompts[id].status.Pending? && store'.prompts[id].(status := Pending) == store.prompts[id]))
  }

  lemma ThreadsKeep(st: State, st': State, t: nat, pc: Pc)
    requires Inv(st) && t < |st.threads| && st'.threads == st.threads[t := pc] && st'.bases == st.bases
    requires StoreGrows(st.store, st'.store) && (forall id | id in st'.store.prompts :: id <= st'.store.next)
    requires ThreadInv(st', t, pc) && HistoryInv(st')
    ensures Inv(st')
  {
    forall u | 0 <= u < |st'.threads| ensures ThreadInv(st', u, st'.threads[u]) {
      assert ThreadInv(st, u, st.threads[u]);
    }
  }

  lemma CreateKeepsHistory(st: State, now: int, timeout: int, owner: Option<nat>)
    requires Inv(st)
    ensures HistoryInv(st.(store := CreateIn(st.store, now, timeout, owner)))
            && StoreGrows(st.store, CreateIn(st.store, now, timeout, owner))
  {
    assert st.store.next + 1 !in st.store.prompts;
  }

  lemma FinishKeepsHistory(st: State, id: nat, status: Status)
    requires Inv(st) && !status.Pending?
    ensures HistoryInv(FinishStep(st, id, status)) && StoreGrows(st.store, FinishStep(st, id, status).store)
  {
    if CanFinish(st.store, id) {
      var st' := FinishStep(st, id, status);
      forall x | x in st'.store.prompts && !st'.store.prompts[x].status.Pending?
        ensures exists i :: 0 <= i < |st'.finishes| && st'.finishes[i].0 == x
      {
        if x == id {
          assert st'.finishes[|st.finishes|].0 == x;
        } else {
          var i :| 0 <= i < |st.finishes| && st.finishes[i].0 == x;
          assert st'.finishes[i].0 == x;
        }
      }
    }
  }

  lemma RequestKeeps(st: State, basis: Basis)
    requires Inv(st)
    ensures Inv(Next(st, Request(basis)))
  {
    var st' := Next(st, Request(basis));
    forall u | 0 <= u < |st'.threads| ensures ThreadInv(st', u, st'.threads[u]) {
      assert u < |st.threads| ==> ThreadInv(st, u, st.threads[u]);
    }
  }

  lemma AskKeeps(st: State, t: nat, now: int, timeout: int)
    requires Inv(st) && Enabled(st, Ask(t, now, timeout))
    ensures Inv(Next(st, Ask(t, now, timeout))) && StoreGrows(st.store, Next(st, Ask(t, now, timeout)).store)
  {
    var st' := Next(st, Ask(t, now, timeout));
    CreateKeepsHistory(st, now, timeout, Some(t));
    assert ThreadInv(st, t, st.threads[t]);
    ThreadsKeep(st, st', t, st'.threads[t]);
  }

  lemma ExpireKeeps(st: State, t: nat)
    requires Inv(st) && Enabled(st, Expire(t))
    ensures Inv(Next(st, Expire(t))) && StoreGrows(st.store, Next(st, Expire(t)).store)
  {
    var st' := Next(st, Expire(t));
    FinishKeepsHistory(st, st.threads[t].prompt, TimedOut);
    assert ThreadInv(st, t, st.threads[t]);
    ThreadsKeep(st, st', t, st'.threads[t]);
  }

  /** The steps of a waiter that touch nothing but itself. */
  lemma WaitKeeps(st: State, e: Event)
    requires Inv(st) && Enabled(st, e) && (e.ReadDeadline? || e.Poll? || e.Tick? || e.CancelWait?)
    ensures Inv(Next(st, e)) && Next(st, e).store == st.store
  {
    var st' := Next(st, e);
    assert ThreadInv(st, e.thread, st.threads[e.thread]);
    ThreadsKeep(st, st', e.thread, st'.threads[e.thread]);
  }

  /** Every step of every waiter and finisher keeps the invariant, and only ever grows the store. */
  lemma StepKeepsInv(st: State, e: Event)
    requires Inv(st) && Enabled(st, e)
    ensures Inv(Next(st, e)) && StoreGrows(st.store, Next(st, e).store)
  {
    match e {
      case Request(basis) => RequestKeeps(st, basis);
      case OtherPrompt(now, timeout) =>
        CreateKeepsHistory(st, now, timeout, None);
        OthersKeep(st, Next(st, e));
      case Finish(id, status) =>
        FinishKeepsHistory(st, id, status);
        OthersKeep(st, Next(st, e));
      case Judge(t) => JudgeKeeps(st, t);
      case Ask(t, now, timeout) => AskKeeps(st, t, now, timeout);
      case Expire(t) => ExpireKeeps(st, t);
      case ReadDeadline(_) => WaitKeeps(st, e);
      case Poll(_, _) => WaitKeeps(st, e);
      case Tick(_) => WaitKeeps(st, e);
      case CancelWait(_, _) => WaitKeeps(st, e);
    }
  }

  lemma OthersKeep(st: State, st': State)
    requires Inv(st) && st'.threads == st.threads && st'.bases == st.bases && StoreGrows(st.store, st'.store)
    requires (forall id | id in st'.store.prompts :: id <= st'.store.next) && HistoryInv(st')
    ensures Inv(st')
  {
    forall u | 0 <= u < |st'.threads| ensures ThreadInv(st', u, st'.threads[u]) {
      assert ThreadInv(st, u, st.threads[u]);
    }
  }

  lemma JudgeKeeps(st: State, t: nat)
    requires Inv(st) && t < |st.threads| && st.threads[t].Deciding?
    ensures Inv(JudgeStep(st, t))
  {
    assert ThreadInv(st, t, st.threads[t]);
    ThreadsKeep(st, JudgeStep(st, t), t, JudgeStep(st, t).threads[t]);
  }

  // ---------- runs ----------

  ghost predicate StepAt(states: seq<State>, events: seq<Event>, i: nat) {
    i < |events| && i + 1 < |states| && Enabled(states[i], events[i]) && states[i + 1] == Next(states[i], events[i])
  }

  ghost predicate IsRun(states: seq<State>, events: seq<Event>) {
    |states| == |events| + 1 && states[0] == Init && forall i | 0 <= i < |events| :: StepAt(states, events, i)
  }

  lemma {:induction false} RunKeepsInv(states: seq<State>, events: seq<Event>, i: nat)
    requires IsRun(states, events) && i < |states|
    ensures Inv(states[i])
    ensures i > 0 ==> StoreGrows(states[i - 1].store, states[i].store)
  {
    if i == 0 {
      InitInv();
    } else {
      RunKeepsInv(states, events, i - 1);
      assert StepAt(states, events, i - 1);
      StepKeepsInv(states[i - 1], events[i - 1]);
    }
  }

  /** In every run at most one finish of a prompt takes effect. */
  lemma OneFinishPerPrompt(states: seq<State>, events: seq<Event>, n: nat, i: nat, j: nat)
    requires IsRun(states, events) && n < |states| && i < j < |states[n].finishes|
    ensures states[n].finishes[i].0 != states[n].finishes[j].0
  {
    RunKeepsInv(states, events, n);
  }

  /** Once a prompt is finished its status never changes. */
  lemma {:induction false} TerminalIsFinal(states: seq<State>, events: seq<Event>, i: nat, j: nat, id: nat)
    requires IsRun(states, events) && i <= j < |states| && id in states[i].store.prompts
             && !states[i].store.prompts[id].status.Pending?
    ensures id in states[j].store.prompts && states[j].store.prompts[id] == states[i].store.prompts[id]
  {
    if i < j {
      TerminalIsFinal(states, events, i, j - 1, id);
      RunKeepsInv(states, events, j);
    }
  }

  /** The first finish of a prompt sets its status, for good. */
  lemma FirstFinishCounts(states: seq<State>, events: seq<Event>, i: nat, j: nat, id: nat, status: Status)
    requires IsRun(states, events) && i < j < |states| && events[i] == Finish(id, status)
    requires id in states[i].store.prompts && states[i].store.prompts[id].status.Pending?
    ensures id in states[j].store.prompts && states[j].store.prompts[id].status == status
  {
    assert StepAt(states, events, i);
    TerminalIsFinal(states, events, i + 1, j, id);
  }

  /**
   A gate call allows a command only if the guard, or without one the policy, said to allow it, or
   said to confirm it and the prompt made for this very call is completed; guard failures, refusals
   and errors never allow.
   */
  lemma AllowedOnlyWithReason(states: seq<State>, events: seq<Event>, i: nat, t: nat)
    requires IsRun(states, events) && i < |states| && t < |states[i].threads|
    requires states[i].threads[t].Returned? && states[i].threads[t].allowed
    ensures t < |states[i].bases| && states[i].bases[t].classified && !states[i].bases[t].guard.GuardFails?
    ensures var basis := states[i].bases[t];
            var decision := if basis.guard.GuardSays? then basis.guard.decision else basis.local;
            var asked := states[i].threads[t].asked;
            || (decision.Allow? && asked.None?)
            || (decision.Confirm? && asked.Some? && asked.value in states[i].store.prompts
                && states[i].store.prompts[asked.value]
                   == Prompt(Completed, states[i].store.prompts[asked.value].createdAt,
                             states[i].store.prompts[asked.value].timeout, Some(t)))
  {
    RunKeepsInv(states, events, i);
    assert ThreadInv(states[i], t, states[i].threads[t]);
  }

  /** The call with number t is the t-th request, and it decides on what that request said. */
  lemma {:induction false} BasisIsRequested(states: seq<State>, events: seq<Event>, i: nat, t: nat) returns (k: nat)
    requires IsRun(states, events) && i < |states| && t < |states[i].threads|
    ensures t < |states[i].bases| && k < i && events[k] == Request(states[i].bases[t]) && |states[k].threads| == t
  {
    RunKeepsInv(states, events, i);
    assert i > 0;
    RunKeepsInv(states, events, i - 1);
    assert StepAt(states, events, i - 1);
    if t < |states[i - 1].threads| {
      k := BasisIsRequested(states, events, i - 1, t);
    } else {
      k := i - 1;
    }
  }

  /**
   What a call reports when it returns, in terms of what it was asked to decide. The guard's word is
   reported as it is, a failing guard denies, and only without a guard the local policy counts.
   */
  lemma AnswerMatchesDecision(states: seq<State>, events: seq<Event>, i: nat, t: nat)
    requires IsRun(states, events) && i < |states| && t < |states[i].threads| && states[i].threads[t].Returned?
    ensures t < |states[i].bases|
    ensures var basis, pc := states[i].bases[t], states[i].threads[t];
            && (!basis.classified ==> pc.decision.None? && !pc.allowed && pc.asked.None?)
            && (basis.classified && basis.guard.GuardSays? ==> pc.decision == Some(basis.guard.decision))
            && (basis.classified && basis.guard.GuardFails? ==> pc.decision == Some(Deny))
            && (basis.classified && basis.guard.NoGuard? ==> pc.decision == Some(basis.local))
    ensures var basis, pc := states[i].bases[t], states[i].threads[t];
            basis.classified ==>
              pc.decider == if pc.allowed && pc.decision == Some(Confirm) then ByHuman
                            else if basis.guard.NoGuard? then ByPolicy else ByGuard
    ensures var pc := states[i].threads[t];
            pc.allowed <==>
              || pc.decision == Some(Allow)
              || (pc.decision == Some(Confirm) && pc.asked.Some? && pc.decider == ByHuman)
  {
    RunKeepsInv(states, events, i);
    assert ThreadInv(states[i], t, states[i].threads[t]);
  }

  /** Nothing overrules a guard that denies or fails. */
  lemma GuardIsNotOverruled(states: seq<State>, events: seq<Event>, i: nat, t: nat)
    requires IsRun(states, events) && i < |states| && t < |states[i].threads| && t < |states[i].bases|
    requires states[i].bases[t].guard == GuardFails || states[i].bases[t].guard == GuardSays(Deny)
    ensures states[i].threads[t].Deciding? || (states[i].threads[t].Returned? && !states[i].threads[t].allowed)
  {
    RunKeepsInv(states, events, i);
    assert ThreadInv(states[i], t, states[i].threads[t]);
  }

  /** A prompt that was cancelled or timed out denies its call in every later state. */
  lemma CancelledOrTimedOutDenies(states: seq<State>, events: seq<Event>, i: nat, j: nat, t: nat, id: nat)
    requires IsRun(states, events) && i <= j < |states| && t < |states[j].threads|
    requires id in states[i].store.prompts
             && (states[i].store.prompts[id].status.Cancelled? || states[i].store.prompts[id].status.TimedOut?)
    requires PromptOf(states[j].threads[t]) == Some(id)
    ensures states[j].threads[t].Returned? ==> !states[j].threads[t].allowed
  {
    TerminalIsFinal(states, events, i, j, id);
    RunKeepsInv(states, events, j);
    assert ThreadInv(states[j], t, states[j].threads[t]);
  }

  lemma ReturnedStays(st: State, e: Event, t: nat)
    requires Enabled(st, e) && t < |st.threads| && st.threads[t].Returned?
    ensures t < |Next(st, e).threads| && Next(st, e).threads[t] == st.threads[t]
  {
  }

  /** A gate call that has returned is never heard of again. */
  lemma {:induction false} ReturnedIsFinal(states: seq<State>, events: seq<Event>, i: nat, j: nat, t: nat)
    requires IsRun(states, events) && i <= j < |states| && t < |states[i].threads| && states[i].threads[t].Returned?
    ensures t < |states[j].threads| && states[j].threads[t] == states[i].threads[t]
  {
    if i < j {
      ReturnedIsFinal(states, events, i, j - 1, t);
      assert StepAt(states, events, j - 1);
      ReturnedStays(states[j - 1], events[j - 1], t);
    }
  }

  /**
   Once a waiter expires its prompt its call is refused for ever, whether the expiry takes effect or
   the prompt was finished first, even by a completion that then stands.
   */
  lemma LostExpiryRaceDenies(states: seq<State>, events: seq<Event>, i: nat, j: nat, t: nat)
    requires IsRun(states, events) && i < j < |states| && events[i] == Expire(t)
    ensures t < |states[i].threads| && states[i].threads[t].Expiring? && t < |states[j].threads|
    ensures var id := states[i].threads[t].prompt;
            && states[j].threads[t].Returned? && !states[j].threads[t].allowed && states[j].threads[t].asked == Some(id)
            && id in states[i].store.prompts && id in states[j].store.prompts
            && states[j].store.prompts[id].status ==
               (if states[i].store.prompts[id].status.Pending? then TimedOut else states[i].store.prompts[id].status)
  {
    RunKeepsInv(states, events, i);
    assert StepAt(states, events, i);
    assert ThreadInv(states[i], t, states[i].threads[t]);
    ReturnedIsFinal(states, events, i + 1, j, t);
    TerminalIsFinal(states, events, i + 1, j, states[i].threads[t].prompt);
  }

  /** Giving up the wait refuses the call for ever, even if the prompt is completed later. */
  lemma CancelledWaitDenies(states: seq<State>, events: seq<Event>, i: nat, j: nat, t: nat)
    requires IsRun(states, events) && i < j < |states| && events[i].CancelWait? && events[i].thread == t
    ensures t < |states[j].threads| && states[j].threads[t].Returned? && !states[j].threads[t].allowed
  {
    RunKeepsInv(states, events, i);
    assert StepAt(states, events, i);
    assert ThreadInv(states[i], t, states[i].threads[t]);
    ReturnedIsFinal(states, events, i + 1, j, t);
  }

  // ---------- what a waiter sees ----------

  /** Only asking gives a call a prompt, and then it keeps it. */
  lemma PromptStays(st: State, e: Event, t: nat)
    requires Enabled(st, e) && t < |Next(st, e).threads| && PromptOf(Next(st, e).threads[t]).Some?
    requires !(e.Ask? && e.thread == t)
    ensures t < |st.threads| && PromptOf(st.threads[t]) == PromptOf(Next(st, e).threads[t])
  {
  }

  lemma OwnPrompt(states: seq<State>, events: seq<Event>, i: nat, t: nat) returns (id: nat)
    requires IsRun(states, events) && i < |states| && t < |states[i].threads| && PromptOf(states[i].threads[t]).Some?
    ensures PromptOf(states[i].threads[t]) == Some(id) && id in states[i].store.prompts
  {
    RunKeepsInv(states, events, i);
    assert ThreadInv(states[i], t, states[i].threads[t]);
    id := PromptOf(states[i].threads[t]).value;
  }

  /** The prompt of a call was made by its own request for approval, and keeps the time and timeout of it. */
  lemma {:induction false} PromptIsAsked(states: seq<State>, events: seq<Event>, i: nat, t: nat)
    returns (id: nat, k: nat)
    requires IsRun(states, events) && i < |states| && t < |states[i].threads| && PromptOf(states[i].threads[t]).Some?
    ensures PromptOf(states[i].threads[t]) == Some(id) && id in states[i].store.prompts && k < i
    ensures events[k] == Ask(t, states[i].store.prompts[id].createdAt, states[i].store.prompts[id].timeout)
  {
    id := OwnPrompt(states, events, i, t);
    assert i > 0;
    assert StepAt(states, events, i - 1);
    if events[i - 1].Ask? && events[i - 1].thread == t {
      k := i - 1;
    } else {
      PromptStays(states[i - 1], events[i - 1], t);
      var id';
      id', k := PromptIsAsked(states, events, i - 1, t);
      StoreOnlyGrows(states, events, i);
    }
  }

  lemma StoreOnlyGrows(states: seq<State>, events: seq<Event>, i: nat)
    requires IsRun(states, events) && 0 < i < |states|
    ensures StoreGrows(states[i - 1].store, states[i].store)
  {
    RunKeepsInv(states, events, i);
  }

  /**
   What a waiter makes of its prompt. A completed prompt allows the call and any other end refuses
   it, for good. A pending one expires exactly when it has a timeout and its time is up.
   */
  lemma PollOutcome(states: seq<State>, events: seq<Event>, i: nat, j: nat, t: nat, now: int)
    requires IsRun(states, events) && i < j < |states| && events[i] == Poll(t, now)
    ensures t < |states[i].threads| && states[i].threads[t].Polling? && t < |states[j].threads|
    ensures t < |states[i + 1].threads| && states[i].threads[t].prompt in states[i].store.prompts
    ensures var id := states[i].threads[t].prompt;
            var prompt := states[i].store.prompts[id];
            && (!prompt.status.Pending? ==>
                  && states[j].threads[t].Returned? && states[j].threads[t].asked == Some(id)
                  && (states[j].threads[t].allowed <==> prompt.status.Completed?))
            && (prompt.status.Pending? && prompt.timeout > 0 && now > prompt.createdAt + prompt.timeout <==>
                states[i + 1].threads[t].Expiring?)
            && (prompt.status.Pending? && (prompt.timeout <= 0 || now <= prompt.createdAt + prompt.timeout) <==>
                states[i + 1].threads[t].Sleeping?)
  {
    RunKeepsInv(states, events, i);
    assert StepAt(states, events, i);
    assert ThreadInv(states[i], t, states[i].threads[t]);
    if states[i + 1].threads[t].Returned? {
      ReturnedIsFinal(states, events, i + 1, j, t);
    } else {
      ThreadsStay(states, events, i, j);
    }
  }

  lemma {:induction false} ThreadsStay(states: seq<State>, events: seq<Event>, i: nat, j: nat)
    requires IsRun(states, events) && i <= j < |states|
    ensures |states[i].threads| <= |states[j].threads|
  {
    if i < j {
      ThreadsStay(states, events, i, j - 1);
      assert StepAt(states, events, j - 1);
    }
  }
}
