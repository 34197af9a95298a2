/**
 Ownership of browser sessions. Every change is journaled before it is made, so the journal alone
 determines all sessions; who may act in a session follows from the order of its entries.
 */
module Lifecycle {
  import opened Options
  import opened Text

  datatype Control = Agent | Delegated | User

  datatype Completion = Completion(keep: bool, completed: int)

  datatype Session = Session(id: string, controlId: string, control: Control, active: bool, handoffReason: string,
    updatedAt: int, completion: Option<Completion>)

  datatype Action = Create | Handoff | Claim | Takeover | Complete | Timeout

  /** One journal entry. A creation has no previous control state. */
  datatype Transition = Transition(
    id: string, action: Action, from: Option<Control>, to: Control, controlId: string, reason: string, confirmed: bool,
    keep: Option<bool>, at: int)

  type Sessions = map<string, Session>

  // ---------- the journal and what it says ----------

  /** What an entry other than a creation does to its session. */
  function Updated(s: Session, t: Transition): Session {
    var s := s.(updatedAt := t.at);
    match t.action
    case Create => s
    case Handoff => s.(control := t.to, handoffReason := t.reason)
    case Claim => s.(control := t.to, controlId := t.controlId)
    case Takeover => s.(control := t.to, controlId := t.controlId, handoffReason := "")
    case Complete => s.(
      active := false, completion := if t.keep.Some? then Some(Completion(t.keep.value, t.at)) else None)
    case Timeout => s.(active := false)
  }

  /** The effect of one journal entry. */
  function ReplayOne(m: Sessions, t: Transition): Sessions {
    if t.action.Create? then m[t.id := Session(t.id, t.controlId, t.to, true, "", t.at, None)]
    else if t.id in m then m[t.id := Updated(m[t.id], t)]
    else m
  }

  function Replay(log: seq<Transition>): Sessions {
    if log == [] then map[] else ReplayOne(Replay(log[..|log| - 1]), log[|log| - 1])
  }

  /** Whether an entry may be made in the given situation. */
  predicate Allowed(m: Sessions, t: Transition) {
    if t.action.Create? then
      t.id !in m && t.from.None? && t.to.Agent? && t.confirmed && TrimSpace(t.id) != "" && TrimSpace(t.controlId) != ""
    else
      && t.id in m && m[t.id].active && t.from == Some(m[t.id].control)
      && match t.action
         case Handoff =>
           && m[t.id].control.Agent? && m[t.id].controlId == t.controlId
           && t.to.Delegated? && t.confirmed && TrimSpace(t.reason) != ""
         case Claim => m[t.id].control.Delegated? && t.to.User? && t.confirmed && TrimSpace(t.controlId) != ""
         case Takeover => !m[t.id].control.Agent? && t.to.Agent? && t.confirmed && TrimSpace(t.controlId) != ""
         case Complete => t.to == m[t.id].control && m[t.id].controlId == t.controlId && t.confirmed && t.keep.Some?
         case Timeout =>
           && m[t.id].control.Delegated? && m[t.id].controlId == t.controlId
           && t.to.Delegated? && !t.confirmed
  }

  ghost predicate AllowedAt(log: seq<Transition>, i: nat) {
    i < |log| && Allowed(Replay(log[..i]), log[i])
  }

  ghost predicate Legal(log: seq<Transition>) {
    forall i | 0 <= i < |log| :: AllowedAt(log, i)
  }

  lemma LegalExtends(log: seq<Transition>, t: Transition)
    requires Legal(log) && Allowed(Replay(log), t)
    ensures Legal(log + [t]) && Replay(log + [t]) == ReplayOne(Replay(log), t)
  {
    var log' := log + [t];
    assert log'[..|log|] == log;
    forall i | 0 <= i < |log'| ensures AllowedAt(log', i) {
      if i < |log| {
        assert AllowedAt(log, i);
        assert log'[..i] == log[..i];
      }
    }
  }

  // ---------- requests ----------

  datatype Error = Invalid | AlreadyExists | Inactive | UserControl | NotAwaiting | JournalFailed

  predicate Running(m: Sessions, id: string) { id in m && m[id].active }

  predicate AgentAccess(m: Sessions, id: string, controlId: string) {
    id in m && m[id].active && m[id].control.Agent? && m[id].controlId == controlId
  }

  // ---------- what every legal journal implies ----------

  /** An inactive session never changes again. */
  lemma {:induction false} InactiveIsFinal(log: seq<Transition>, i: nat, j: nat, id: string)
    requires Legal(log) && i <= j <= |log| && id in Replay(log[..i]) && !Replay(log[..i])[id].active
    ensures id in Replay(log[..j]) && Replay(log[..j])[id] == Replay(log[..i])[id]
  {
    if i < j {
      InactiveIsFinal(log, i, j - 1, id);
      assert AllowedAt(log, j - 1);
      assert log[..j][..j - 1] == log[..j - 1];
    }
  }

  /** No session is ever nameless or in nobody's hands. */
  lemma {:induction false} SomebodyIsInControl(log: seq<Transition>, j: nat, id: string)
    requires Legal(log) && j <= |log| && id in Replay(log[..j])
    ensures TrimSpace(id) != "" && TrimSpace(Replay(log[..j])[id].controlId) != ""
  {
    assert j > 0;
    assert AllowedAt(log, j - 1);
    assert log[..j][..j - 1] == log[..j - 1];
    if id in Replay(log[..j - 1]) {
      SomebodyIsInControl(log, j - 1, id);
    }
  }

  ghost predicate Is(log: seq<Transition>, i: int, id: string, action: Action) {
    0 <= i < |log| && log[i].id == id && log[i].action == action
  }

  ghost predicate NoneSince(log: seq<Transition>, i: int, j: int, id: string, action: Action) {
    forall k | i < k < j :: !Is(log, k, id, action)
  }

  /** A session waits for a claim only after a handoff that no takeover has undone. */
  lemma {:induction false} DelegatedByHandoff(log: seq<Transition>, j: nat, id: string) returns (h: nat)
    requires Legal(log) && j <= |log| && id in Replay(log[..j]) && Replay(log[..j])[id].control.Delegated?
    ensures h < j && Is(log, h, id, Handoff) && NoneSince(log, h, j, id, Takeover) && NoneSince(log, h, j, id, Claim)
  {
    assert j > 0;
    assert AllowedAt(log, j - 1);
    assert log[..j][..j - 1] == log[..j - 1];
    if Is(log, j - 1, id, Handoff) {
      h := j - 1;
    } else {
      h := DelegatedByHandoff(log, j - 1, id);
      assert !Is(log, j - 1, id, Takeover) && !Is(log, j - 1, id, Claim);
    }
  }

  /** User control is reached only by a handoff and then a claim, with no takeover since the handoff. */
  lemma {:induction false} UserByHandoffAndClaim(log: seq<Transition>, j: nat, id: string) returns (h: nat, c: nat)
    requires Legal(log) && j <= |log| && id in Replay(log[..j]) && Replay(log[..j])[id].control.User?
    ensures h < c < j && Is(log, h, id, Handoff) && Is(log, c, id, Claim) && NoneSince(log, h, j, id, Takeover)
    ensures Replay(log[..j])[id].controlId == log[c].controlId
  {
    assert j > 0;
    assert AllowedAt(log, j - 1);
    assert log[..j][..j - 1] == log[..j - 1];
    if Is(log, j - 1, id, Claim) {
      c := j - 1;
      h := DelegatedByHandoff(log, j - 1, id);
    } else {
      h, c := UserByHandoffAndClaim(log, j - 1, id);
      assert !Is(log, j - 1, id, Takeover);
    }
  }

  /** An agent in control holds the control id of the latest creation or confirmed takeover, with no claim since. */
  lemma {:induction false} AgentByCreationOrTakeover(log: seq<Transition>, j: nat, id: string) returns (k: nat)
    requires Legal(log) && j <= |log| && id in Replay(log[..j]) && Replay(log[..j])[id].control.Agent?
    ensures k < j && (Is(log, k, id, Create) || (Is(log, k, id, Takeover) && log[k].confirmed))
    ensures NoneSince(log, k, j, id, Handoff) && NoneSince(log, k, j, id, Claim)
    ensures Replay(log[..j])[id].controlId == log[k].controlId
  {
    assert j > 0;
    assert AllowedAt(log, j - 1);
    assert log[..j][..j - 1] == log[..j - 1];
    if Is(log, j - 1, id, Create) || Is(log, j - 1, id, Takeover) {
      k := j - 1;
    } else {
      k := AgentByCreationOrTakeover(log, j - 1, id);
      assert !Is(log, j - 1, id, Handoff) && !Is(log, j - 1, id, Claim);
    }
  }

  /** After a claim, agent access requires a later confirmed takeover, by the agent that asks. */
  lemma AccessAfterClaimNeedsTakeover(log: seq<Transition>, c: nat, id: string, controlId: string) returns (k: nat)
    requires Legal(log) && c < |log| && Is(log, c, id, Claim) && AgentAccess(Replay(log), id, controlId)
    ensures c < k < |log| && Is(log, k, id, Takeover) && log[k].confirmed && log[k].controlId == controlId
  {
    assert log[..|log|] == log;
    k := AgentByCreationOrTakeover(log, |log|, id);
    if Is(log, k, id, Create) {
      assert AllowedAt(log, k) && AllowedAt(log, c);
      KnownStaysKnown(log, c, k, id);
    }
  }

  lemma {:induction false} KnownStaysKnown(log: seq<Transition>, i: nat, j: nat, id: string)
    requires i <= j <= |log| && id in Replay(log[..i])
    ensures id in Replay(log[..j])
  {
    if i < j {
      KnownStaysKnown(log, i, j - 1, id);
      assert log[..j][..j - 1] == log[..j - 1];
    }
  }

  // ---------- the manager ----------

  /** A session as the manager holds it: an object changed in place. */
  class LiveSession {
    const id: string
    var controlId: string
    var control: Control
    var active: bool
    var handoffReason: string
    var updatedAt: int
    var completion: Option<Completion>

    constructor (id: string, controlId: string, now: int)
      ensures View() == Session(id, controlId, Agent, true, "", now, None)
    {
      this.id, this.controlId, control, active := id, controlId, Agent, true;
      handoffReason, updatedAt, completion := "", now, None;
    }

    function View(): Session
      reads this
    {
      Session(id, controlId, control, active, handoffReason, updatedAt, completion)
    }

    /** The change that goes with a journal entry. */
    method Mutate(t: Transition)
      requires !t.action.Create? && (t.action.Complete? ==> t.keep.Some?)
      modifies this
      ensures View() == Updated(old(View()), t)
    {
      match t.action {
        case Handoff =>
          control := t.to;
          handoffReason := t.reason;
        case Claim =>
          control := t.to;
          controlId := t.controlId;
        case Takeover =>
          control := t.to;
          controlId := t.controlId;
          handoffReason := "";
        case Complete =>
          active := false;
          completion := Some(Completion(t.keep.value, t.at));
        case Timeout =>
          active := false;
      }
      updatedAt := t.at;
    }
  }

  datatype Outcome = Ok(session: Session) | TimedOut(session: Session) | Failed(error: Error)

  class Manager {
    const journaled: bool
    var sessions: map<string, LiveSession>
    var journal: seq<Transition>
    ghost var history: seq<Transition>
    ghost var model: Sessions

    /** The objects show the model. */
    ghost predicate Shows()
      reads this, sessions.Values
    {
      && sessions.Keys == model.Keys
      && (forall id | id in sessions :: sessions[id].View() == model[id] && model[id].id == id)
    }

    /** The model is what the history says, and the journal, if there is one, is the history. */
    ghost predicate Valid()
      reads this, sessions.Values
    {
      Shows() && Legal(history) && model == Replay(history) && journal == if journaled then history else []
    }

    constructor (journaled: bool)
      ensures Valid() && this.journaled == journaled && model == map[] && history == [] && fresh(sessions.Values)
    {
      this.journaled, sessions, journal, history, model := journaled, map[], [], [], map[];
    }

    /** The journal comes first: when it refuses the entry, nothing happens. */
    method Append(t: Transition, accepts: bool) returns (ok: bool)
      modifies this`journal
      ensures ok == (!journaled || accepts)
      ensures journal == if journaled && accepts then old(journal) + [t] else old(journal)
    {
      if !journaled {
        return true;
      }
      if accepts {
        journal := journal + [t];
      }
      return accepts;
    }

    /** Journal a creation and enter the session. */
    method Admit(s: LiveSession, t: Transition, accepts: bool) returns (ok: bool)
      requires Valid() && t.action.Create? && Allowed(model, t) && t.id !in sessions
      requires t.id in ReplayOne(model, t) && s.View() == ReplayOne(model, t)[t.id]
      modifies this
      ensures Valid() && ok == (!journaled || accepts)
      ensures sessions == if ok then old(sessions)[t.id := s] else old(sessions)
      ensures model == if ok then ReplayOne(old(model), t) else old(model)
      ensures history == if ok then old(history) + [t] else old(history)
    {
      LegalExtends(history, t);
      ok := Append(t, accepts);
      if ok {
        sessions := sessions[t.id := s];
        history, model := history + [t], ReplayOne(model, t);
      }
    }

    method CreateSession(id: string, controlId: string, now: int, accepts: bool) returns (r: Outcome)
      requires Valid()
      modifies this
      ensures Valid()
      ensures r == Failed(Invalid) <==> TrimSpace(id) == "" || TrimSpace(controlId) == ""
      ensures r == Failed(AlreadyExists) <==> TrimSpace(id) != "" && TrimSpace(controlId) != "" && id in old(model)
      ensures r.Ok? || r == Failed(JournalFailed) <==>
              TrimSpace(id) != "" && TrimSpace(controlId) != "" && id !in old(model)
      ensures r == Failed(JournalFailed) ==> journaled && !accepts
      ensures r.Ok? ==> (journaled ==> accepts) && r.session == Session(id, controlId, Agent, true, "", now, None)
      ensures r.Ok? ==>
                && model == old(model)[id := r.session]
                && history == old(history) + [Transition(id, Create, None, Agent, controlId, "", true, None, now)]
      ensures !r.Ok? ==> r.Failed? && model == old(model) && history == old(history)
      ensures forall x | x in sessions :: fresh(sessions[x]) || (x in old(sessions) && sessions[x] == old(sessions[x]))
    {
      if TrimSpace(id) == "" || TrimSpace(controlId) == "" {
        return Failed(Invalid);
      }
      if id in sessions {
        return Failed(AlreadyExists);
      }
      var snapshot := new LiveSession(id, controlId, now);
      var t := Transition(id, Create, None, Agent, controlId, "", true, None, now);
      var ok := Admit(snapshot, t, accepts);
      return if ok then Ok(snapshot.View()) else Failed(JournalFailed);
    }

    /** Change the session that an entry is about. */
    method Apply(s: LiveSession, t: Transition)
      requires Shows() && t.id in sessions && sessions[t.id] == s
      requires !t.action.Create? && (t.action.Complete? ==> t.keep.Some?)
      modifies this`model, s
      ensures Shows() && model == ReplayOne(old(model), t)
    {
      s.Mutate(t);
      model := ReplayOne(model, t);
    }

    /** Journal an entry, then change the session it is about. */
    method Change(s: LiveSession, t: Transition, accepts: bool) returns (ok: bool)
      requires Valid() && t.id in sessions && sessions[t.id] == s && !t.action.Create? && Allowed(model, t)
      modifies this`journal, this`history, this`model, s
      ensures Valid() && ok == (!journaled || accepts)
      ensures model == if ok then ReplayOne(old(model), t) else old(model)
      ensures history == if ok then old(history) + [t] else old(history)
    {
      LegalExtends(history, t);
      ok := Append(t, accepts);
      if ok {
        Apply(s, t);
        history := history + [t];
      }
    }

    method HandoffSession(id: string, agentControlId: string, reason: string, now: int, accepts: bool)
      returns (r: Outcome)
      requires Valid()
      modifies this`journal, this`history, this`model, sessions.Values
      ensures Valid()
      ensures r == Failed(Inactive) <==> !Running(old(model), id)
      ensures r == Failed(UserControl) <==>
              && Running(old(model), id)
              && (!old(model)[id].control.Agent? || old(model)[id].controlId != agentControlId)
      ensures r == Failed(Invalid) <==>
              && Running(old(model), id) && old(model)[id].control.Agent?
              && old(model)[id].controlId == agentControlId && TrimSpace(reason) == ""
      ensures r.Ok? || r == Failed(JournalFailed) <==>
              && Running(old(model), id) && old(model)[id].control.Agent?
              && old(model)[id].controlId == agentControlId && TrimSpace(reason) != ""
      ensures r == Failed(JournalFailed) ==> journaled && !accepts
      ensures r.Ok? ==>
                && (journaled ==> accepts)
                && r.session == old(model)[id].(control := Delegated, handoffReason := reason, updatedAt := now)
                && model == old(model)[id := r.session]
                && history == old(history) + [Transition(id, Handoff, Some(Agent), Delegated,
                                                         agentControlId, reason, true, None, now)]
      ensures !r.Ok? ==> r.Failed? && model == old(model) && history == old(history)
    {
      if id !in sessions || !sessions[id].active {
        return Failed(Inactive);
      }
      var s := sessions[id];
      assert s in sessions.Values;
      if s.control != Agent || s.controlId != agentControlId {
        return Failed(UserControl);
      }
      if TrimSpace(reason) == "" {
        return Failed(Invalid);
      }
      var ok := Change(s, Transition(id, Handoff, Some(s.control), Delegated, agentControlId, reason, true, None, now),
        accepts);
      r := if ok then Ok(s.View()) else Failed(JournalFailed);
    }

    method ClaimSession(id: string, humanControlId: string, now: int, accepts: bool) returns (r: Outcome)
      requires Valid()
      modifies this`journal, this`history, this`model, sessions.Values
      ensures Valid()
      ensures r == Failed(Invalid) <==> TrimSpace(humanControlId) == ""
      ensures r == Failed(Inactive) <==> TrimSpace(humanControlId) != "" && !Running(old(model), id)
      ensures r == Failed(UserControl) <==>
              TrimSpace(humanControlId) != "" && Running(old(model), id) && old(model)[id].control.User?
      ensures r == Failed(NotAwaiting) <==>
              TrimSpace(humanControlId) != "" && Running(old(model), id) && old(model)[id].control.Agent?
      ensures r.Ok? || r == Failed(JournalFailed) <==>
              TrimSpace(humanControlId) != "" && Running(old(model), id) && old(model)[id].control.Delegated?
      ensures r == Failed(JournalFailed) ==> journaled && !accepts
      ensures r.Ok? ==>
                && (journaled ==> accepts)
                && r.session == old(model)[id].(control := User, controlId := humanControlId, updatedAt := now)
                && model == old(model)[id := r.session]
                && history == old(history) + [Transition(id, Claim, Some(Delegated), User,
                                                         humanControlId, "", true, None, now)]
      ensures !r.Ok? ==> r.Failed? && model == old(model) && history == old(history)
    {
      if TrimSpace(humanControlId) == "" {
        return Failed(Invalid);
      }
      if id !in sessions || !sessions[id].active {
        return Failed(Inactive);
      }
      var s := sessions[id];
      assert s in sessions.Values;
      if s.control == User {
        return Failed(UserControl);
      }
      if s.control != Delegated {
        return Failed(NotAwaiting);
      }
      var ok := Change(s, Transition(id, Claim, Some(s.control), User, humanControlId, "", true, None, now), accepts);
      r := if ok then Ok(s.View()) else Failed(JournalFailed);
    }

    method TakeoverSession(id: string, agentControlId: string, confirmed: bool, now: int, accepts: bool)
      returns (r: Outcome)
      requires Valid()
      modifies this`journal, this`history, this`model, sessions.Values
      ensures Valid()
      ensures r == Failed(Invalid) <==> TrimSpace(agentControlId) == ""
      ensures r == Failed(Inactive) <==> TrimSpace(agentControlId) != "" && !Running(old(model), id)
      ensures r == Failed(UserControl) <==>
              && TrimSpace(agentControlId) != "" && Running(old(model), id)
              && !old(model)[id].control.Agent? && !confirmed
      ensures r.Ok? || r == Failed(JournalFailed) <==>
              && TrimSpace(agentControlId) != "" && Running(old(model), id)
              && (old(model)[id].control.Agent? || confirmed)
      ensures r == Failed(JournalFailed) ==> journaled && !accepts && !old(model)[id].control.Agent?
      ensures r.Ok? && old(model)[id].control.Agent? ==>
                r.session == old(model)[id] && model == old(model) && history == old(history)
      ensures r.Ok? && !old(model)[id].control.Agent? ==>
                && (journaled ==> accepts)
                && r.session == old(model)[id].(
                     control := Agent, controlId := agentControlId, handoffReason := "", updatedAt := now)
                && model == old(model)[id := r.session]
                && history == old(history) + [Transition(
                     id, Takeover, Some(old(model)[id].control), Agent, agentControlId, "", true, None, now)]
      ensures !r.Ok? ==> r.Failed? && model == old(model) && history == old(history)
    {
      if TrimSpace(agentControlId) == "" {
        return Failed(Invalid);
      }
      if id !in sessions || !sessions[id].active {
        return Failed(Inactive);
      }
      var s := sessions[id];
      assert s in sessions.Values;
      if s.control == Agent {
        return Ok(s.View());
      }
      if !confirmed {
        return Failed(UserControl);
      }
      var ok := Change(s, Transition(id, Takeover, Some(s.control), Agent, agentControlId, "", true, None, now),
        accepts);
      r := if ok then Ok(s.View()) else Failed(JournalFailed);
    }

    method CompleteSession(id: string, controlId: string, keep: bool, now: int, accepts: bool) returns (r: Outcome)
      requires Valid()
      modifies this`journal, this`history, this`model, sessions.Values
      ensures Valid()
      ensures r == Failed(Inactive) <==> !Running(old(model), id)
      ensures r == Failed(UserControl) <==> Running(old(model), id) && old(model)[id].controlId != controlId
      ensures r.Ok? || r == Failed(JournalFailed) <==> Running(old(model), id) && old(model)[id].controlId == controlId
      ensures r == Failed(JournalFailed) ==> journaled && !accepts
      ensures r.Ok? ==>
                && (journaled ==> accepts)
                && r.session == old(model)[id].(
                     active := false, completion := Some(Completion(keep, now)), updatedAt := now)
                && model == old(model)[id := r.session]
                && history == old(history) + [Transition(id, Complete, Some(r.session.control), r.session.control,
                                                         controlId, "", true, Some(keep), now)]
      ensures !r.Ok? ==> r.Failed? && model == old(model) && history == old(history)
    {
      if id !in sessions || !sessions[id].active {
        return Failed(Inactive);
      }
      var s := sessions[id];
      assert s in sessions.Values;
      if s.controlId != controlId {
        return Failed(UserControl);
      }
      var ok := Change(s, Transition(id, Complete, Some(s.control), s.control, controlId, "", true, Some(keep), now),
        accepts);
      r := if ok then Ok(s.View()) else Failed(JournalFailed);
    }

    method TimeoutSession(id: string, now: int, accepts: bool) returns (r: Outcome)
      requires Valid()
      modifies this`journal, this`history, this`model, sessions.Values
      ensures Valid()
      ensures r == Failed(Inactive) <==> !Running(old(model), id)
      ensures r == Failed(NotAwaiting) <==> Running(old(model), id) && !old(model)[id].control.Delegated?
      ensures r.TimedOut? || r == Failed(JournalFailed) <==>
              Running(old(model), id) && old(model)[id].control.Delegated?
      ensures r == Failed(JournalFailed) ==> journaled && !accepts
      ensures r.TimedOut? ==>
                && (journaled ==> accepts)
                && r.session == old(model)[id].(active := false, updatedAt := now)
                && model == old(model)[id := r.session]
                && history == old(history) + [Transition(id, Timeout, Some(Delegated), Delegated,
                                                         r.session.controlId, "", false, None, now)]
      ensures !r.TimedOut? ==> r.Failed? && model == old(model) && history == old(history)
    {
      if id !in sessions || !sessions[id].active {
        return Failed(Inactive);
      }
      var s := sessions[id];
      assert s in sessions.Values;
      if s.control != Delegated {
        return Failed(NotAwaiting);
      }
      var ok := Change(s, Transition(id, Timeout, Some(s.control), s.control, s.controlId, "", false, None, now),
        accepts);
      r := if ok then TimedOut(s.View()) else Failed(JournalFailed);
    }

    /** The guard before every agent action. */
    method CheckAgentAccess(id: string, controlId: string) returns (refusal: Option<Error>)
      requires Valid()
      ensures refusal.None? <==> AgentAccess(model, id, controlId)
      ensures refusal == Some(Inactive) <==> id !in model || !model[id].active
      ensures refusal == Some(UserControl) <==>
              Running(model, id) && (!model[id].control.Agent? || model[id].controlId != controlId)
    {
      if id !in sessions || !sessions[id].active {
        return Some(Inactive);
      }
      var s := sessions[id];
      if s.control != Agent || s.controlId != controlId {
        return Some(UserControl);
      }
      return None;
    }
  }
}
