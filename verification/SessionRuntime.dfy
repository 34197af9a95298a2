/**
 The navigation runtime as an object: its maps of launches, engines, tabs and active tabs are
 changed in place, one locked section at a time. Each section is one step of the launch protocol,
 taken by the calling thread `t`.
 */
module SessionRuntime {
  import opened Options
  import opened SessionLaunch

  /** What the locked section at the top of the service loop tells its caller to do. */
  datatype Looked = Serve(tab: Tab) | WaitFor(launch: nat) | NotConfigured | Start(launch: nat)

  class NavigationRuntime {
    var launches: map<Session, nat>
    var engines: map<Session, nat>
    var tabs: map<Session, seq<Tab>>
    var activeTab: map<Session, int>
    var launchLog: seq<Launch>
    var engineLog: seq<Engine>
    ghost var threads: seq<Pc>

    ghost function Shared(): State
      reads this
    {
      State(launches, engines, tabs, activeTab, launchLog, engineLog, threads)
    }

    constructor ()
      ensures Shared() == Init
    {
      launches, engines, tabs, activeTab := map[], map[], map[], map[];
      launchLog, engineLog, threads := [], [], [];
    }

    function Tabs(session: Session): seq<Tab>
      reads this`tabs
    {
      if session in tabs then tabs[session] else []
    }

    function Active(session: Session): int
      reads this`activeTab
    {
      if session in activeTab then activeTab[session] else 0
    }

    /** Use the active tab, join the launch under way, give up, or start a launch. */
    method LookUp(session: Session, configured: bool, t: nat) returns (r: Looked)
      requires t < |threads| && threads[t].Enter? && threads[t].session == session
      modifies this`launches, this`launchLog, this`threads
      ensures Shared() == Next(old(Shared()), Look(t, configured))
      ensures r.Serve? <==> Tabs(session) != []
      ensures r.Serve? ==> r.tab in Tabs(session)
      ensures r.Serve? && 0 <= Active(session) < |Tabs(session)| ==> r.tab == Tabs(session)[Active(session)]
      ensures r.WaitFor? <==> Tabs(session) == [] && session in old(launches)
      ensures r.WaitFor? ==> r.launch == old(launches[session])
      ensures r.Start? <==> old(session !in launches) && Tabs(session) == [] && configured
      ensures r.Start? ==> launches == old(launches)[session := r.launch] && r.launch == old(|launchLog|)
      ensures !r.Start? ==> launches == old(launches) && launchLog == old(launchLog)
    {
      var mine := Tabs(session);
      ghost var task := threads[t].task;
      if |mine| > 0 {
        var index := Active(session);
        if index < 0 || index >= |mine| {
          index := 0;
        }
        threads := threads[t := Ready(session, task)];
        return Serve(mine[index]);
      }
      if session in launches {
        threads := threads[t := Waiting(session, launches[session], task)];
        return WaitFor(launches[session]);
      }
      if !configured {
        threads := threads[t := Done];
        return NotConfigured;
      }
      var launch := |launchLog|;
      launches := launches[session := launch];
      launchLog := launchLog + [Launch(session, t, 0)];
      threads := threads[t := Launching(session, launch, task)];
      return Start(launch);
    }

    /** Remove a launch and close its channel, unless it is no longer the registered one. */
    method FinishLaunchLocked(session: Session, launch: nat)
      requires launch < |launchLog|
      modifies this`launches, this`launchLog
      ensures Shared() == FinishLaunch(old(Shared()), session, launch)
      ensures |launchLog| == old(|launchLog|)
      ensures var mine := session in old(launches) && old(launches[session]) == launch;
              && launches == (if mine then old(launches) - {session} else old(launches))
              && launchLog[launch].closes == old(launchLog[launch].closes) + if mine then 1 else 0
    {
      if session !in launches || launches[session] != launch {
        return;
      }
      launches := launches - {session};
      launchLog := launchLog[launch := launchLog[launch].(closes := launchLog[launch].closes + 1)];
    }

    /** The launch failed: withdraw it. */
    method Withdraw(session: Session, launch: nat, t: nat)
      requires t < |threads| && threads[t].Failing? && threads[t].session == session && threads[t].launch == launch
      requires launch < |launchLog|
      modifies this`launches, this`launchLog, this`threads
      ensures Shared() == Next(old(Shared()), GiveUp(t))
    {
      FinishLaunchLocked(session, launch);
      threads := threads[t := Done];
    }

    /** Register the browser with its first tab, or use the tab that appeared meanwhile and have the browser closed. */
    method Register(session: Session, launch: nat, engine: nat, page: nat, t: nat) returns (tab: Tab, discard: bool)
      requires t < |threads| && threads[t].Opened? && threads[t].session == session
      requires threads[t].launch == launch < |launchLog| && threads[t].engine == engine
      modifies this`launches, this`launchLog, this`engines, this`tabs, this`activeTab, this`threads
      ensures Shared() == Next(old(Shared()), Publish(t, page))
      ensures discard == (old(Tabs(session)) != []) && tab in Tabs(session)
      ensures !discard ==>
                && tab == Tab(engine, page) && Tabs(session) == [tab] && Active(session) == 0
                && engines == old(engines)[session := engine]
      ensures discard ==> engines == old(engines) && tabs == old(tabs) && activeTab == old(activeTab)
    {
      var mine := Tabs(session);
      ghost var task := threads[t].task;
      if |mine| > 0 {
        var index := Active(session);
        if index < 0 || index >= |mine| {
          index := 0;
        }
        FinishLaunchLocked(session, launch);
        threads := threads[t := Discarding(session, engine, task)];
        return mine[index], true;
      }
      engines := engines[session := engine];
      tabs := tabs[session := [Tab(engine, page)]];
      activeTab := activeTab[session := 0];
      FinishLaunchLocked(session, launch);
      threads := threads[t := Ready(session, task)];
      return Tab(engine, page), false;
    }

    /** The engine registered for a session, once the service call succeeded. */
    method BrowserForSession(session: Session, t: nat) returns (engine: Option<nat>)
      requires t < |threads| && threads[t].Ready? && threads[t].session == session
      modifies this`threads
      ensures Shared() == Next(old(Shared()), ReadBrowser(t))
      ensures engine.Some? <==> session in engines
      ensures engine.Some? ==> engine.value == engines[session]
    {
      if session !in engines {
        threads := threads[t := Done];
        return None;
      }
      threads := threads[t := if threads[t].task.NewTab? then HasBrowser(session, engines[session]) else Done];
      return Some(engines[session]);
    }

    /** Append a tab and make it active. */
    method AppendTab(session: Session, engine: nat, page: nat, t: nat)
      requires t < |threads| && threads[t] == HasBrowser(session, engine)
      modifies this`tabs, this`activeTab, this`threads
      ensures Shared() == Next(old(Shared()), TabOpens(t, page))
      ensures Tabs(session) == old(Tabs(session)) + [Tab(engine, page)]
              && Tabs(session)[Active(session)] == Tab(engine, page) && Active(session) == |old(Tabs(session))|
      ensures forall s | s != session :: Tabs(s) == old(Tabs(s)) && Active(s) == old(Active(s))
    {
      tabs := tabs[session := Tabs(session) + [Tab(engine, page)]];
      activeTab := activeTab[session := |tabs[session]| - 1];
      threads := threads[t := Done];
    }

    method TabSwitch(session: Session, index: int) returns (ok: bool)
      modifies this`activeTab
      ensures Shared() == Next(old(Shared()), SwitchTab(session, index))
      ensures ok <==> 0 <= index < |Tabs(session)|
      ensures ok ==> activeTab == old(activeTab)[session := index]
      ensures !ok ==> activeTab == old(activeTab)
    {
      var mine := Tabs(session);
      if |mine| == 0 || index < 0 || index >= |mine| {
        return false;
      }
      activeTab := activeTab[session := index];
      return true;
    }

    /** Close a tab, by default the active one; the last tab cannot be closed. */
    method TabClose(session: Session, target: Option<int>) returns (closed: Option<Tab>)
      modifies this`tabs, this`activeTab, this`threads
      ensures Shared() == Next(old(Shared()), CloseTab(session, target))
      ensures closed.None? ==> Shared() == old(Shared())
      ensures var i := if target.Some? then target.value else old(Active(session));
              && (closed.Some? <==> |old(Tabs(session))| > 1 && 0 <= i < |old(Tabs(session))|)
              && (closed.Some? ==>
                    && closed.value == old(Tabs(session))[i]
                    && Tabs(session) == old(Tabs(session))[..i] + old(Tabs(session))[i + 1..])
      ensures closed.Some? ==>
                Active(session) == if old(Active(session)) < |Tabs(session)| then old(Active(session))
                                   else |Tabs(session)| - 1
      ensures forall s | s != session :: Tabs(s) == old(Tabs(s)) && Active(s) == old(Active(s))
    {
      var mine := Tabs(session);
      if |mine| <= 1 {
        return None;
      }
      var index := match target case Some(i) => i case None => Active(session);
      if index < 0 || index >= |mine| {
        return None;
      }
      var rest := mine[..index] + mine[index + 1..];
      tabs := tabs[session := rest];
      if Active(session) >= |rest| {
        activeTab := activeTab[session := |rest| - 1];
      }
      threads := threads + [Enter(session, FinishClose)];
      return Some(mine[index]);
    }
  }
}
