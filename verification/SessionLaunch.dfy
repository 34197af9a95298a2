/**
 Session launch and tabs as a protocol. Every call is a thread; every lock-protected section, and
 every browser call made outside the lock, is one atomic step, and steps of different threads
 interleave freely. At most one thread launches a browser for a session; the others wait for it.
 */
module SessionLaunch {
  import opened Options

  type Session = string

  datatype Tab = Tab(engine: nat, page: nat)

  /** What a caller goes on to do once it has a service: nothing more, open a tab, or finish closing one. */
  datatype Task = Use | NewTab | FinishClose

  /** Where a thread stands. */
  datatype Pc =
    | Enter(session: Session, task: Task)
    | Waiting(session: Session, launch: nat, task: Task)
    | Launching(session: Session, launch: nat, task: Task)
    | Opened(session: Session, launch: nat, engine: nat, task: Task)
    | Failing(session: Session, launch: nat, task: Task)
    | Discarding(session: Session, engine: nat, task: Task)
    | Ready(session: Session, task: Task)
    | HasBrowser(session: Session, engine: nat)
    | Done

  /** A launch and how often its `done` channel was closed; session and owner are kept for the proof. */
  datatype Launch = Launch(session: Session, owner: nat, closes: nat)

  datatype Engine = Engine(session: Session, owner: nat, running: bool)

  datatype State = State(
    launches: map<Session, nat>, engines: map<Session, nat>, tabs: map<Session, seq<Tab>>, active: map<Session, int>,
    launchLog: seq<Launch>, engineLog: seq<Engine>, threads: seq<Pc>)

  const Init := State(map[], map[], map[], map[], [], [], [])

  datatype Event =
    | Call(session: Session, task: Task)
    | SwitchTab(session: Session, index: int)
    | CloseTab(session: Session, target: Option<int>)
    | Look(thread: nat, configured: bool)
    | Wake(thread: nat)
    | Cancel(thread: nat)
    | LaunchOk(thread: nat)
    | LaunchFails(thread: nat)
    | SetupFails(thread: nat)
    | Publish(thread: nat, page: nat)
    | GiveUp(thread: nat)
    | Discard(thread: nat)
    | ReadBrowser(thread: nat)
    | TabOpens(thread: nat, page: nat)
    | TabFails(thread: nat)

  function TabsOf(st: State, s: Session): seq<Tab> {
    if s in st.tabs then st.tabs[s] else []
  }

  function ActiveOf(st: State, s: Session): int {
    if s in st.active then st.active[s] else 0
  }

  function Goto(st: State, t: nat, pc: Pc): State
    requires t < |st.threads|
  {
    st.(threads := st.threads[t := pc])
  }

  /** Remove a launch and close its channel, if it is still the registered one. */
  function FinishLaunch(st: State, s: Session, launch: nat): State {
    if s in st.launches && st.launches[s] == launch && launch < |st.launchLog| then
      st.(launches := st.launches - {s},
          launchLog := st.launchLog[launch := st.launchLog[launch].(closes := st.launchLog[launch].closes + 1)])
    else st
  }

  function Pick(st: State, t: nat): Pc {
    if t < |st.threads| then st.threads[t] else Done
  }

  /** The events a thread or a new call can perform in a state. */
  predicate Enabled(st: State, e: Event) {
    match e
    case Call(_, _) => true
    case SwitchTab(_, _) => true
    case CloseTab(_, _) => true
    case Look(t, _) => Pick(st, t).Enter?
    case Wake(t) => Pick(st, t).Waiting? && Pick(st, t).launch < |st.launchLog|
      && st.launchLog[Pick(st, t).launch].closes > 0
    case Cancel(t) => Pick(st, t).Waiting?
    case LaunchOk(t) => Pick(st, t).Launching?
    case LaunchFails(t) => Pick(st, t).Launching?
    case SetupFails(t) => Pick(st, t).Opened? && Pick(st, t).engine < |st.engineLog|
    case Publish(t, _) => Pick(st, t).Opened?
    case GiveUp(t) => Pick(st, t).Failing?
    case Discard(t) => Pick(st, t).Discarding? && Pick(st, t).engine < |st.engineLog|
    case ReadBrowser(t) => Pick(st, t).Ready?
    case TabOpens(t, _) => Pick(st, t).HasBrowser?
    case TabFails(t) => Pick(st, t).HasBrowser?
  }

  predicate IsArrival(e: Event) { e.Call? || e.SwitchTab? || e.CloseTab? }

  function CloseEngine(st: State, engine: nat): State
    requires engine < |st.engineLog|
  {
    st.(engineLog := st.engineLog[engine := st.engineLog[engine].(running := false)])
  }

  /** The locked section at the top of the service loop: use a tab, join a launch, fail, or start a launch. */
  function LookStep(st: State, t: nat, configured: bool): State
    requires t < |st.threads| && st.threads[t].Enter?
  {
    var s, task := st.threads[t].session, st.threads[t].task;
    if TabsOf(st, s) != [] then Goto(st, t, Ready(s, task))
    else if s in st.launches then Goto(st, t, Waiting(s, st.launches[s], task))
    else if !configured then Goto(st, t, Done)
    else
      var launch := |st.launchLog|;
      Goto(st.(launches := st.launches[s := launch], launchLog := st.launchLog + [Launch(s, t, 0)]), t,
        Launching(s, launch, task))
  }

  /** The locked section after a launch: register the browser with its first tab, unless tabs exist by now. */
  function PublishStep(st: State, t: nat, page: nat): State
    requires t < |st.threads| && st.threads[t].Opened?
  {
    var pc := st.threads[t];
    if TabsOf(st, pc.session) != [] then
      Goto(FinishLaunch(st, pc.session, pc.launch), t, Discarding(pc.session, pc.engine, pc.task))
    else
      var registered := st.(
        engines := st.engines[pc.session := pc.engine],
        tabs := st.tabs[pc.session := [Tab(pc.engine, page)]],
        active := st.active[pc.session := 0]);
      Goto(FinishLaunch(registered, pc.session, pc.launch), t, Ready(pc.session, pc.task))
  }

  /** Closing a tab drops it and keeps the active index in range; the last tab stays. */
  function CloseTabStep(st: State, s: Session, target: Option<int>): State {
    var tabs := TabsOf(st, s);
    if |tabs| <= 1 then st
    else
      var index := if target.Some? then target.value else ActiveOf(st, s);
      if index < 0 || index >= |tabs| then st
      else
        var rest := tabs[..index] + tabs[index + 1..];
        st.(tabs := st.tabs[s := rest],
            active := if ActiveOf(st, s) >= |rest| then st.active[s := |rest| - 1] else st.active,
            threads := st.threads + [Enter(s, FinishClose)])
  }

  function SwitchTabStep(st: State, s: Session, index: int): State {
    if 0 <= index < |TabsOf(st, s)| then st.(active := st.active[s := index]) else st
  }

  function Next(st: State, e: Event): State
    requires Enabled(st, e)
  {
    match e
    case Call(s, task) => st.(threads := st.threads + [Enter(s, task)])
    case SwitchTab(s, index) => SwitchTabStep(st, s, index)
    case CloseTab(s, target) => CloseTabStep(st, s, target)
    case Look(t, configured) => LookStep(st, t, configured)
    case Wake(t) => Goto(st, t, Enter(st.threads[t].session, st.threads[t].task))
    case Cancel(t) => Goto(st, t, Done)
    case LaunchOk(t) =>
      var pc := st.threads[t];
      Goto(st.(engineLog := st.engineLog + [Engine(pc.session, t, true)]), t,
        Opened(pc.session, pc.launch, |st.engineLog|, pc.task))
    case LaunchFails(t) =>
      var pc := st.threads[t];
      Goto(st.(engineLog := st.engineLog + [Engine(pc.session, t, false)]), t, Failing(pc.session, pc.launch, pc.task))
    case SetupFails(t) =>
      var pc := st.threads[t];
      Goto(CloseEngine(st, pc.engine), t, Failing(pc.session, pc.launch, pc.task))
    case Publish(t, page) => PublishStep(st, t, page)
    case GiveUp(t) => Goto(FinishLaunch(st, st.threads[t].session, st.threads[t].launch), t, Done)
    case Discard(t) =>
      var pc := st.threads[t];
      Goto(CloseEngine(st, pc.engine), t, Ready(pc.session, pc.task))
    case ReadBrowser(t) =>
      var pc := st.threads[t];
      if pc.task.NewTab? && pc.session in st.engines then Goto(st, t, HasBrowser(pc.session, st.engines[pc.session]))
      else Goto(st, t, Done)
    case TabOpens(t, page) =>
      var pc := st.threads[t];
      var tabs := TabsOf(st, pc.session) + [Tab(pc.engine, page)];
      Goto(st.(tabs := st.tabs[pc.session := tabs], active := st.active[pc.session := |tabs| - 1]), t, Done)
    case TabFails(t) => Goto(st, t, Done)
  }

  // ---------- what every step keeps ----------

  ghost predicate Registered(st: State, s: Session, launch: nat) {
    s in st.launches && st.launches[s] == launch
  }

  ghost predicate OwnsLaunch(st: State, t: nat, s: Session, launch: nat) {
    launch < |st.launchLog| && st.launchLog[launch] == Launch(s, t, 0) && Registered(st, s, launch)
  }

  ghost predicate ThreadInv(st: State, t: nat, pc: Pc) {
    match pc
    case Enter(_, _) => true
    case Waiting(s, launch, _) =>
      launch < |st.launchLog| && st.launchLog[launch].session == s
        && (st.launchLog[launch].closes == 1 || Registered(st, s, launch))
    case Launching(s, launch, _) => OwnsLaunch(st, t, s, launch)
    case Failing(s, launch, _) => OwnsLaunch(st, t, s, launch)
    case Opened(s, launch, engine, _) =>
      OwnsLaunch(st, t, s, launch) && engine < |st.engineLog| && st.engineLog[engine] == Engine(s, t, true)
    case Discarding(_, _, _) => false
    case Ready(s, _) => TabsOf(st, s) != []
    case HasBrowser(s, engine) => s in st.engines && st.engines[s] == engine
    case Done => true
  }

  predicate Owns(pc: Pc, launch: nat) {
    (pc.Launching? || pc.Opened? || pc.Failing?) && pc.launch == launch
  }

  predicate Holds(pc: Pc, engine: nat) {
    (pc.Opened? || pc.Discarding?) && pc.engine == engine
  }

  ghost predicate LaunchInv(st: State, i: nat, launch: Launch) {
    launch.closes == 1 || (launch.closes == 0 && launch.owner < |st.threads| && Owns(st.threads[launch.owner], i))
  }

  ghost predicate EngineInv(st: State, i: nat, engine: Engine) {
    engine.running ==>
      || (engine.session in st.engines && st.engines[engine.session] == i)
      || (engine.owner < |st.threads| && Holds(st.threads[engine.owner], i))
  }

  ghost predicate SessionInv(st: State, s: Session) {
    && (s in st.launches ==>
          st.launches[s] < |st.launchLog| && st.launchLog[st.launches[s]].session == s
            && st.launchLog[st.launches[s]].closes == 0 && TabsOf(st, s) == [])
    && (s in st.engines <==> TabsOf(st, s) != [])
    && (s in st.engines ==>
          && st.engines[s] < |st.engineLog| && st.engineLog[st.engines[s]].running
          && st.engineLog[st.engines[s]].session == s
          && (forall tab | tab in TabsOf(st, s) :: tab.engine == st.engines[s])
          && s in st.active && 0 <= st.active[s] < |TabsOf(st, s)|)
  }

  ghost predicate Inv(st: State) {
    && (forall t | 0 <= t < |st.threads| :: ThreadInv(st, t, st.threads[t]))
    && (forall i | 0 <= i < |st.launchLog| :: LaunchInv(st, i, st.launchLog[i]))
    && (forall i | 0 <= i < |st.engineLog| :: EngineInv(st, i, st.engineLog[i]))
    && (forall s :: SessionInv(st, s))
  }

  lemma InitInv()
    ensures Inv(Init)
  {
  }

  lemma CallKeeps(st: State, s: Session, task: Task)
    requires Inv(st)
    ensures Inv(st.(threads := st.threads + [Enter(s, task)]))
  {
    var st' := st.(threads := st.threads + [Enter(s, task)]);
    SessionsSame(st, st');
    forall t | 0 <= t < |st.threads| ensures ThreadInv(st', t, st.threads[t]) {
    }
  }

  /** Steps that leave the shared maps alone keep what holds of sessions. */
  lemma SessionsSame(st: State, st': State)
    requires Inv(st) && st'.launches == st.launches && st'.engines == st.engines && st'.tabs == st.tabs
             && st'.active == st.active
    requires st'.launchLog == st.launchLog && st'.engineLog == st.engineLog
    ensures forall s :: SessionInv(st', s)
  {
    forall s ensures SessionInv(st', s) {
      assert SessionInv(st, s);
      assert TabsOf(st', s) == TabsOf(st, s);
    }
  }

  /** Moving a thread that owns no launch and holds no engine to another such place is harmless. */
  lemma GotoKeeps(st: State, t: nat, pc: Pc)
    requires Inv(st) && t < |st.threads| && ThreadInv(st, t, pc)
    requires forall i :: (Owns(st.threads[t], i) ==> Owns(pc, i)) && (Holds(st.threads[t], i) ==> Holds(pc, i))
    ensures Inv(Goto(st, t, pc))
  {
    var st' := Goto(st, t, pc);
    SessionsSame(st, st');
    forall u | 0 <= u < |st'.threads| ensures ThreadInv(st', u, st'.threads[u]) {
      assert u != t ==> ThreadInv(st, u, st.threads[u]);
    }
    forall i | 0 <= i < |st.launchLog| ensures LaunchInv(st', i, st.launchLog[i]) {
      assert LaunchInv(st, i, st.launchLog[i]);
    }
    forall i | 0 <= i < |st.engineLog| ensures EngineInv(st', i, st.engineLog[i]) {
      assert EngineInv(st, i, st.engineLog[i]);
    }
  }

  lemma StartLaunchKeeps(st: State, t: nat, s: Session, task: Task)
    requires Inv(st) && t < |st.threads| && st.threads[t].Enter? && TabsOf(st, s) == [] && s !in st.launches
    ensures var launch := |st.launchLog|;
            Inv(Goto(st.(launches := st.launches[s := launch], launchLog := st.launchLog + [Launch(s, t, 0)]), t,
              Launching(s, launch, task)))
  {
    var launch := |st.launchLog|;
    var st' := Goto(st.(launches := st.launches[s := launch], launchLog := st.launchLog + [Launch(s, t, 0)]), t,
      Launching(s, launch, task));
    forall u | 0 <= u < |st'.threads| ensures ThreadInv(st', u, st'.threads[u]) {
      assert u != t ==> ThreadInv(st, u, st.threads[u]);
    }
    forall i | 0 <= i < |st'.launchLog| ensures LaunchInv(st', i, st'.launchLog[i]) {
      assert i < launch ==> LaunchInv(st, i, st.launchLog[i]);
    }
    forall i | 0 <= i < |st.engineLog| ensures EngineInv(st', i, st.engineLog[i]) {
      assert EngineInv(st, i, st.engineLog[i]);
    }
    forall x ensures SessionInv(st', x) {
      assert SessionInv(st, x);
      assert TabsOf(st', x) == TabsOf(st, x);
    }
  }

  lemma NewEngineKeeps(st: State, t: nat, running: bool, pc: Pc)
    requires Inv(st) && t < |st.threads| && st.threads[t].Launching?
    requires var now := st.threads[t];
             pc == if running then Opened(now.session, now.launch, |st.engineLog|, now.task)
               else Failing(now.session, now.launch, now.task)
    ensures Inv(Goto(st.(engineLog := st.engineLog + [Engine(st.threads[t].session, t, running)]), t, pc))
  {
    var st' := Goto(st.(engineLog := st.engineLog + [Engine(st.threads[t].session, t, running)]), t, pc);
    forall u | 0 <= u < |st'.threads| ensures ThreadInv(st', u, st'.threads[u]) {
      assert ThreadInv(st, u, st.threads[u]);
    }
    forall i | 0 <= i < |st.launchLog| ensures LaunchInv(st', i, st.launchLog[i]) {
      assert LaunchInv(st, i, st.launchLog[i]);
    }
    forall i | 0 <= i < |st'.engineLog| ensures EngineInv(st', i, st'.engineLog[i]) {
      assert i < |st.engineLog| ==> EngineInv(st, i, st.engineLog[i]);
    }
    forall x ensures SessionInv(st', x) {
      assert SessionInv(st, x);
      assert TabsOf(st', x) == TabsOf(st, x);
    }
  }

  lemma SetupFailsKeeps(st: State, t: nat)
    requires Inv(st) && t < |st.threads| && st.threads[t].Opened? && st.threads[t].engine < |st.engineLog|
    ensures var pc := st.threads[t]; Inv(Goto(CloseEngine(st, pc.engine), t, Failing(pc.session, pc.launch, pc.task)))
  {
    var pc := st.threads[t];
    var st' := Goto(CloseEngine(st, pc.engine), t, Failing(pc.session, pc.launch, pc.task));
    assert ThreadInv(st, t, pc);
    assert SessionInv(st, pc.session);
    forall u | 0 <= u < |st'.threads| ensures ThreadInv(st', u, st'.threads[u]) {
      assert ThreadInv(st, u, st.threads[u]);
    }
    forall i | 0 <= i < |st.launchLog| ensures LaunchInv(st', i, st.launchLog[i]) {
      assert LaunchInv(st, i, st.launchLog[i]);
    }
    forall i | 0 <= i < |st'.engineLog| ensures EngineInv(st', i, st'.engineLog[i]) {
      assert EngineInv(st, i, st.engineLog[i]);
    }
    forall x ensures SessionInv(st', x) {
      assert SessionInv(st, x);
      assert TabsOf(st', x) == TabsOf(st, x);
    }
  }

  /** A launch finishes: its channel is closed, and its owner no longer owns anything. */
  lemma GiveUpKeeps(st: State, t: nat)
    requires Inv(st) && t < |st.threads| && st.threads[t].Failing?
    ensures Inv(Goto(FinishLaunch(st, st.threads[t].session, st.threads[t].launch), t, Done))
  {
    var pc := st.threads[t];
    var st' := Goto(FinishLaunch(st, pc.session, pc.launch), t, Done);
    assert ThreadInv(st, t, pc);
    forall u | 0 <= u < |st'.threads| ensures ThreadInv(st', u, st'.threads[u]) {
      assert ThreadInv(st, u, st.threads[u]);
    }
    forall i | 0 <= i < |st'.launchLog| ensures LaunchInv(st', i, st'.launchLog[i]) {
      assert LaunchInv(st, i, st.launchLog[i]);
    }
    forall i | 0 <= i < |st.engineLog| ensures EngineInv(st', i, st.engineLog[i]) {
      assert EngineInv(st, i, st.engineLog[i]);
    }
    forall x ensures SessionInv(st', x) {
      assert SessionInv(st, x);
      assert TabsOf(st', x) == TabsOf(st, x);
    }
  }

  lemma PublishKeeps(st: State, t: nat, page: nat)
    requires Inv(st) && t < |st.threads| && st.threads[t].Opened?
    ensures Inv(PublishStep(st, t, page))
  {
    var pc := st.threads[t];
    var st' := PublishStep(st, t, page);
    assert ThreadInv(st, t, pc);
    assert SessionInv(st, pc.session);
    forall u | 0 <= u < |st'.threads| ensures ThreadInv(st', u, st'.threads[u]) {
      assert ThreadInv(st, u, st.threads[u]);
    }
    forall i | 0 <= i < |st'.launchLog| ensures LaunchInv(st', i, st'.launchLog[i]) {
      assert LaunchInv(st, i, st.launchLog[i]);
    }
    forall i | 0 <= i < |st.engineLog| ensures EngineInv(st', i, st.engineLog[i]) {
      assert EngineInv(st, i, st.engineLog[i]);
    }
    forall x ensures SessionInv(st', x) {
      assert SessionInv(st, x);
    }
  }

  /** Replacing a session's tabs by a non-empty list on the same engine, with an index in range. */
  lemma TabsKeep(st: State, s: Session, tabs: seq<Tab>, index: int)
    requires Inv(st) && s in st.engines && tabs != [] && 0 <= index < |tabs|
    requires forall tab | tab in tabs :: tab.engine == st.engines[s]
    ensures Inv(st.(tabs := st.tabs[s := tabs], active := st.active[s := index]))
  {
    var st' := st.(tabs := st.tabs[s := tabs], active := st.active[s := index]);
    assert SessionInv(st, s);
    forall u | 0 <= u < |st'.threads| ensures ThreadInv(st', u, st'.threads[u]) {
      assert ThreadInv(st, u, st.threads[u]);
    }
    forall i | 0 <= i < |st'.launchLog| ensures LaunchInv(st', i, st'.launchLog[i]) {
      assert LaunchInv(st, i, st.launchLog[i]);
    }
    forall i | 0 <= i < |st.engineLog| ensures EngineInv(st', i, st.engineLog[i]) {
      assert EngineInv(st, i, st.engineLog[i]);
    }
    forall x ensures SessionInv(st', x) {
      assert SessionInv(st, x);
    }
  }

  lemma CloseTabKeeps(st: State, s: Session, target: Option<int>)
    requires Inv(st)
    ensures Inv(CloseTabStep(st, s, target))
  {
    var tabs := TabsOf(st, s);
    var index := if target.Some? then target.value else ActiveOf(st, s);
    if |tabs| > 1 && 0 <= index < |tabs| {
      assert SessionInv(st, s);
      var rest := tabs[..index] + tabs[index + 1..];
      assert forall tab | tab in rest :: tab in tabs;
      var active := if st.active[s] >= |rest| then |rest| - 1 else st.active[s];
      TabsKeep(st, s, rest, active);
      assert st.active[s := st.active[s]] == st.active;
      CallKeeps(st.(tabs := st.tabs[s := rest], active := st.active[s := active]), s, FinishClose);
    }
  }

  lemma SwitchTabKeeps(st: State, s: Session, index: int)
    requires Inv(st)
    ensures Inv(SwitchTabStep(st, s, index))
  {
    if 0 <= index < |TabsOf(st, s)| {
      assert SessionInv(st, s);
      TabsKeep(st, s, TabsOf(st, s), index);
      assert st.tabs[s := TabsOf(st, s)] == st.tabs;
    }
  }

  lemma TabOpensKeeps(st: State, t: nat, page: nat)
    requires Inv(st) && Enabled(st, TabOpens(t, page))
    ensures Inv(Next(st, TabOpens(t, page)))
  {
    var pc := st.threads[t];
    assert ThreadInv(st, t, pc);
    assert SessionInv(st, pc.session);
    var tabs := TabsOf(st, pc.session) + [Tab(pc.engine, page)];
    TabsKeep(st, pc.session, tabs, |tabs| - 1);
    GotoKeeps(st.(tabs := st.tabs[pc.session := tabs], active := st.active[pc.session := |tabs| - 1]), t, Done);
  }

  lemma LookKeeps(st: State, t: nat, configured: bool)
    requires Inv(st) && t < |st.threads| && st.threads[t].Enter?
    ensures Inv(LookStep(st, t, configured))
  {
    var s, task := st.threads[t].session, st.threads[t].task;
    assert SessionInv(st, s);
    if TabsOf(st, s) != [] {
      GotoKeeps(st, t, Ready(s, task));
    } else if s in st.launches {
      GotoKeeps(st, t, Waiting(s, st.launches[s], task));
    } else if !configured {
      GotoKeeps(st, t, Done);
    } else {
      StartLaunchKeeps(st, t, s, task);
    }
  }

  /** Every step of every thread keeps the invariant. */
  lemma StepKeepsInv(st: State, e: Event)
    requires Inv(st) && Enabled(st, e)
    ensures Inv(Next(st, e))
  {
    match e
    case Call(s, task) => CallKeeps(st, s, task);
    case SwitchTab(s, index) => SwitchTabKeeps(st, s, index);
    case CloseTab(s, target) => CloseTabKeeps(st, s, target);
    case Look(t, configured) => LookKeeps(st, t, configured);
    case Wake(t) => GotoKeeps(st, t, Enter(st.threads[t].session, st.threads[t].task));
    case Cancel(t) => GotoKeeps(st, t, Done);
    case LaunchOk(t) => NewEngineKeeps(st, t, true, Next(st, e).threads[t]);
    case LaunchFails(t) => NewEngineKeeps(st, t, false, Next(st, e).threads[t]);
    case SetupFails(t) => SetupFailsKeeps(st, t);
    case Publish(t, page) => PublishKeeps(st, t, page);
    case GiveUp(t) => GiveUpKeeps(st, t);
    case Discard(t) =>
    case ReadBrowser(t) =>
      assert ThreadInv(st, t, st.threads[t]);
      assert SessionInv(st, st.threads[t].session);
      GotoKeeps(st, t, Next(st, e).threads[t]);
    case TabOpens(t, page) => TabOpensKeeps(st, t, page);
    case TabFails(t) => GotoKeeps(st, t, Done);
  }

  // ---------- runs ----------

  ghost predicate StepAt(states: seq<State>, events: seq<Event>, i: nat) {
    i < |events| && i + 1 < |states| && Enabled(states[i], events[i]) && states[i + 1] == Next(states[i], events[i])
  }

  ghost predicate Steps(states: seq<State>, events: seq<Event>) {
    |states| == |events| + 1 && forall i | 0 <= i < |events| :: StepAt(states, events, i)
  }

  ghost predicate IsRun(states: seq<State>, events: seq<Event>) {
    Steps(states, events) && states[0] == Init
  }

  lemma {:induction false} RunKeepsInv(states: seq<State>, events: seq<Event>, i: nat)
    requires Steps(states, events) && Inv(states[0]) && i < |states|
    ensures Inv(states[i])
  {
    if i > 0 {
      RunKeepsInv(states, events, i - 1);
      assert StepAt(states, events, i - 1);
      StepKeepsInv(states[i - 1], events[i - 1]);
    }
  }

  /** A thread that is busy launching a browser for a session. */
  predicate Launches(pc: Pc, s: Session) {
    (pc.Launching? || pc.Opened? || pc.Failing?) && pc.session == s
  }

  /** In every reachable state at most one thread launches for a session, and nobody discards an engine. */
  lemma SingleFlight(states: seq<State>, events: seq<Event>, i: nat, t: nat, u: nat, s: Session)
    requires IsRun(states, events) && i < |states| && t < |states[i].threads| && u < |states[i].threads|
    ensures Launches(states[i].threads[t], s) && Launches(states[i].threads[u], s) ==> t == u
    ensures !states[i].threads[t].Discarding?
  {
    InitInv();
    RunKeepsInv(states, events, i);
    assert ThreadInv(states[i], t, states[i].threads[t]);
    assert ThreadInv(states[i], u, states[i].threads[u]);
  }

  /** A waiter waits on a launch that is still registered, with a thread at work on it, or already done. */
  lemma WaitersAreServed(states: seq<State>, events: seq<Event>, i: nat, t: nat)
    requires IsRun(states, events) && i < |states| && t < |states[i].threads| && states[i].threads[t].Waiting?
    ensures var st, launch := states[i], states[i].threads[t].launch;
            launch < |st.launchLog| && st.launchLog[launch].closes <= 1 &&
            (st.launchLog[launch].closes == 0 ==>
               && Registered(st, st.threads[t].session, launch)
               && st.launchLog[launch].owner < |st.threads| && Owns(st.threads[st.launchLog[launch].owner], launch))
  {
    InitInv();
    RunKeepsInv(states, events, i);
    assert ThreadInv(states[i], t, states[i].threads[t]);
    assert LaunchInv(states[i], states[i].threads[t].launch, states[i].launchLog[states[i].threads[t].launch]);
  }

  /** No `done` channel is ever closed twice, and an engine in use is always registered or held by its launcher. */
  lemma NoDoubleCloseNoLeak(states: seq<State>, events: seq<Event>, i: nat)
    requires IsRun(states, events) && i < |states|
    ensures forall k | 0 <= k < |states[i].launchLog| :: states[i].launchLog[k].closes <= 1
    ensures forall k | 0 <= k < |states[i].engineLog| && states[i].engineLog[k].running ::
              k in states[i].engines.Values || exists t | 0 <= t < |states[i].threads| :: Holds(states[i].threads[t], k)
  {
    InitInv();
    RunKeepsInv(states, events, i);
    forall k | 0 <= k < |states[i].launchLog| ensures states[i].launchLog[k].closes <= 1 {
      assert LaunchInv(states[i], k, states[i].launchLog[k]);
    }
    forall k | 0 <= k < |states[i].engineLog| && states[i].engineLog[k].running
      ensures k in states[i].engines.Values || exists t | 0 <= t < |states[i].threads| :: Holds(states[i].threads[t], k)
    {
      assert EngineInv(states[i], k, states[i].engineLog[k]);
    }
  }

  /** Once a session has tabs it keeps at least one, on the same engine, and its active index stays in range. */
  lemma StepKeepsTabs(st: State, e: Event, s: Session)
    requires Inv(st) && Enabled(st, e) && TabsOf(st, s) != []
    ensures var st' := Next(st, e);
            TabsOf(st', s) != [] && s in st.engines && s in st'.engines && st'.engines[s] == st.engines[s]
  {
    assert SessionInv(st, s);
    if e.Publish? {
      assert ThreadInv(st, e.thread, st.threads[e.thread]);
      assert SessionInv(st, st.threads[e.thread].session);
    }
  }

  lemma {:induction false} TabsNeverVanish(states: seq<State>, events: seq<Event>, i: nat, j: nat, s: Session)
    requires IsRun(states, events) && i <= j < |states| && TabsOf(states[i], s) != []
    ensures TabsOf(states[j], s) != [] && s in states[i].engines && s in states[j].engines
            && states[j].engines[s] == states[i].engines[s]
    ensures s in states[j].active && 0 <= states[j].active[s] < |TabsOf(states[j], s)|
  {
    InitInv();
    RunKeepsInv(states, events, j);
    assert SessionInv(states[j], s);
    if i < j {
      TabsNeverVanish(states, events, i, j - 1, s);
      RunKeepsInv(states, events, j - 1);
      assert StepAt(states, events, j - 1);
      StepKeepsTabs(states[j - 1], events[j - 1], s);
    }
  }

  // ---------- every call ends ----------

  /** Whether a thread has still to get its service. */
  function Pre(pc: Pc): nat {
    if pc.Enter? || pc.Waiting? || pc.Launching? || pc.Opened? || pc.Failing? then 1 else 0
  }

  /** How far a thread is from its next rest; a waiter whose launch is over has to start again. */
  function Small(log: seq<Launch>, pc: Pc): nat {
    match pc
    case Enter(_, _) => 4
    case Waiting(_, launch, _) => if launch < |log| && log[launch].closes > 0 then 5 else 0
    case Launching(_, _, _) => 3
    case Opened(_, _, _, _) => 2
    case Failing(_, _, _) => 1
    case Discarding(_, _, _) => 3
    case Ready(_, _) => 2
    case HasBrowser(_, _) => 1
    case Done => 0
  }

  function SumPre(threads: seq<Pc>): nat {
    if threads == [] then 0 else Pre(threads[0]) + SumPre(threads[1..])
  }

  function SumSmall(log: seq<Launch>, threads: seq<Pc>): nat {
    if threads == [] then 0 else Small(log, threads[0]) + SumSmall(log, threads[1..])
  }

  /** Bounds the steps that running calls can still take when no new calls arrive. */
  function Weight(st: State): nat {
    SumPre(st.threads) * (5 * |st.threads| + 1) + SumSmall(st.launchLog, st.threads)
  }

  lemma {:induction false} SumUpdate(log: seq<Launch>, threads: seq<Pc>, t: nat, pc: Pc)
    requires t < |threads|
    ensures SumPre(threads[t := pc]) + Pre(threads[t]) == SumPre(threads) + Pre(pc)
    ensures SumSmall(log, threads[t := pc]) + Small(log, threads[t]) == SumSmall(log, threads) + Small(log, pc)
  {
    if t == 0 {
      assert threads[t := pc][1..] == threads[1..];
    } else {
      assert threads[t := pc][1..] == threads[1..][t - 1 := pc];
      SumUpdate(log, threads[1..], t - 1, pc);
    }
  }

  lemma {:induction false} SumSmallBound(log: seq<Launch>, threads: seq<Pc>)
    ensures SumSmall(log, threads) <= 5 * |threads|
  {
    if threads != [] {
      SumSmallBound(log, threads[1..]);
    }
  }

  lemma {:induction false} SumSmallSame(log: seq<Launch>, log': seq<Launch>, threads: seq<Pc>)
    requires log <= log' && forall pc | pc in threads && pc.Waiting? :: pc.launch < |log|
    ensures SumSmall(log, threads) == SumSmall(log', threads)
  {
    if threads != [] {
      assert threads[0] in threads;
      SumSmallSame(log, log', threads[1..]);
    }
  }

  lemma {:induction false} WeightLess(p: nat, p': nat, k: nat, small': nat)
    requires p' < p && small' < k
    ensures p' * k + small' < p * k
  {
    if p' + 1 < p {
      WeightLess(p - 1, p', k, small');
      assert p * k == (p - 1) * k + k;
    } else {
      assert p * k == p' * k + k;
    }
  }

  /** A step that moves one thread a little nearer, or past getting its service, lowers the weight. */
  lemma GotoLowers(st: State, st': State, t: nat, pc: Pc)
    requires Inv(st) && t < |st.threads| && st'.threads == st.threads[t := pc]
    requires Pre(pc) < Pre(st.threads[t]) ||
             (Pre(pc) == Pre(st.threads[t]) && st.launchLog <= st'.launchLog
               && Small(st'.launchLog, pc) < Small(st'.launchLog, st.threads[t]))
    ensures Weight(st') < Weight(st)
  {
    SumUpdate(st'.launchLog, st.threads, t, pc);
    SumSmallBound(st'.launchLog, st'.threads);
    if Pre(pc) < Pre(st.threads[t]) {
      WeightLess(SumPre(st.threads), SumPre(st'.threads), 5 * |st.threads| + 1, SumSmall(st'.launchLog, st'.threads));
    } else {
      forall x | x in st.threads && x.Waiting? ensures x.launch < |st.launchLog| {
        var u :| 0 <= u < |st.threads| && st.threads[u] == x;
        assert ThreadInv(st, u, st.threads[u]);
      }
      SumSmallSame(st.launchLog, st'.launchLog, st.threads);
    }
  }

  lemma StepLowers(st: State, e: Event)
    requires Inv(st) && Enabled(st, e) && !IsArrival(e)
    ensures Weight(Next(st, e)) < Weight(st)
  {
    var t := e.thread;
    var st' := Next(st, e);
    assert ThreadInv(st, t, st.threads[t]);
    if e.Look? {
      assert SessionInv(st, st.threads[t].session);
    }
    assert st'.threads == st.threads[t := st'.threads[t]];
    GotoLowers(st, st', t, st'.threads[t]);
  }

  /** Without new calls every run is finite, whatever the schedule. */
  lemma {:induction false} CallsEnd(states: seq<State>, events: seq<Event>)
    requires Steps(states, events) && Inv(states[0]) && forall e | e in events :: !IsArrival(e)
    ensures |events| + Weight(states[|events|]) <= Weight(states[0])
    decreases |events|
  {
    if events != [] {
      var n := |events| - 1;
      var shorter, before := events[..n], states[..n + 1];
      forall i | 0 <= i < n ensures StepAt(before, shorter, i) {
        assert StepAt(states, events, i);
      }
      CallsEnd(before, shorter);
      assert StepAt(states, events, n) && events[n] in events;
      RunKeepsInv(states, events, n);
      StepLowers(states[n], events[n]);
    }
  }

  /** As long as some call is unfinished, some thread can move without anybody giving up. */
  lemma SomebodyCanMove(st: State, t: nat) returns (e: Event)
    requires Inv(st) && t < |st.threads| && !st.threads[t].Done?
    ensures Enabled(st, e) && !IsArrival(e) && !e.Cancel?
  {
    var pc := st.threads[t];
    assert ThreadInv(st, t, pc);
    var u := t;
    if pc.Waiting? {
      var launch := st.launchLog[pc.launch];
      assert LaunchInv(st, pc.launch, launch);
      if launch.closes > 0 {
        return Wake(t);
      }
      u := launch.owner;
    }
    match st.threads[u]
    case Enter(_, _) => e := Look(u, true);
    case Launching(_, _, _) => e := LaunchOk(u);
    case Opened(_, _, _, _) => e := Publish(u, 0);
    case Failing(_, _, _) => e := GiveUp(u);
    case Ready(_, _) => e := ReadBrowser(u);
    case HasBrowser(_, _) => e := TabFails(u);
  }

  /**
   When all calls are over, every launched engine is registered or closed and every channel was closed exactly
   once.
   */
  lemma AllSettled(st: State)
    requires Inv(st) && forall t | 0 <= t < |st.threads| :: st.threads[t].Done?
    ensures st.launches == map[]
    ensures forall i | 0 <= i < |st.launchLog| :: st.launchLog[i].closes == 1
    ensures forall i | 0 <= i < |st.engineLog| && st.engineLog[i].running :: i in st.engines.Values
  {
    forall i | 0 <= i < |st.launchLog| ensures st.launchLog[i].closes == 1 {
      assert LaunchInv(st, i, st.launchLog[i]);
    }
    forall s ensures s !in st.launches {
      assert SessionInv(st, s);
    }
    forall i | 0 <= i < |st.engineLog| && st.engineLog[i].running ensures i in st.engines.Values {
      assert EngineInv(st, i, st.engineLog[i]);
    }
  }
}
