/**
 What the daemon knows after a run, told from what happened in it: which modules are plugged in, which docks are
 connected, which clients are open, ready and subscribed, and what the tables of the clients show.
 */
module FlotillaHistory {
  import opened Wrappers
  import opened FlotillaModules
  import opened FlotillaDocks
  import opened Flotilla

  /** The name of the module on channel `ch` of dock `d`, if there is one: the first found since the last was lost. */
  function Plugged(actions: seq<Action>, d: nat, ch: nat): Option<string> {
    if actions == [] then None
    else NextPlugged(Plugged(actions[..|actions| - 1], d, ch), actions[|actions| - 1], d, ch)
  }

  function NextPlugged(now: Option<string>, a: Action, d: nat, ch: nat): Option<string> {
    match a
    case LineRead(k, Found(c, name)) => if k == d && c == ch && now.None? then Some(name) else now
    case LineRead(k, Lost(c)) => if k == d && c == ch then None else now
    case Unplugged(k) => if k == d then None else now
    case _ => now
  }

  /** `on` happened, and nothing of `off` since. */
  predicate Since(actions: seq<Action>, on: Action, off: set<Action>) {
    exists i :: 0 <= i < |actions| && actions[i] == on && forall j :: i < j < |actions| ==> actions[j] !in off
  }

  lemma SinceLast(actions: seq<Action>, on: Action, off: set<Action>)
    requires actions != []
    ensures var front, a := actions[..|actions| - 1], actions[|actions| - 1];
      Since(actions, on, off) <==> a == on || (a !in off && Since(front, on, off))
  {
    var front, n := actions[..|actions| - 1], |actions| - 1;
    if Since(actions, on, off) && actions[n] != on {
      var i :| 0 <= i < |actions| && actions[i] == on && forall j :: i < j < |actions| ==> actions[j] !in off;
      assert front[i] == on && actions[n] !in off;
    }
    if actions[n] !in off && Since(front, on, off) {
      var i :| 0 <= i < |front| && front[i] == on && forall j :: i < j < |front| ==> front[j] !in off;
      assert actions[i] == on && forall j :: i < j < |actions| ==> actions[j] !in off;
    }
  }

  lemma {:induction false} RunSnoc(s: Daemon, actions: seq<Action>, a: Action)
    requires Inv(s) && PossibleRun(s, actions + [a])
    ensures PossibleRun(s, actions) && Inv(Flotilla.Run(s, actions)) && Possible(Flotilla.Run(s, actions), a)
    ensures Flotilla.Run(s, actions + [a]) == Step(Flotilla.Run(s, actions), a)
    decreases actions
  {
    hide Inv, Step, Possible;
    if actions == [] {
      assert actions + [a] == [a] && [a][1..] == [];
    } else {
      assert (actions + [a])[0] == actions[0] && (actions + [a])[1..] == actions[1..] + [a];
      StepInv(s, actions[0]);
      RunSnoc(Step(s, actions[0]), actions[1..], a);
    }
  }

  /** A run, without its last action. */
  lemma AfterLast(actions: seq<Action>)
    requires CanTake(actions) && actions != []
    ensures var front, a := actions[..|actions| - 1], actions[|actions| - 1];
      CanTake(front) && Possible(After(front), a) && After(actions) == Step(After(front), a)
  {
    hide Inv, Step, Possible, PossibleRun, Flotilla.Run;
    StartInv();
    assert actions == actions[..|actions| - 1] + [actions[|actions| - 1]];
    RunSnoc(Start(), actions[..|actions| - 1], actions[|actions| - 1]);
  }

  function SeenAt(s: Daemon, d: nat, ch: nat): Option<string>
    requires d < |s.docks| && ch < |s.docks[d].modules|
  {
    Seen(s.docks[d].modules[ch].connected, s.docks[d].modules[ch].name)
  }

  lemma Shape(s: Daemon, d: nat)
    requires Inv(s) && d < MAX_DOCKS
    ensures |s.docks| == MAX_DOCKS && |s.docks[d].modules| == MAX_CHANNELS
  {
  }

  lemma UnpluggedSees(s: Daemon, k: nat, d: nat, ch: nat)
    requires Inv(s) && k < MAX_DOCKS && d < MAX_DOCKS && ch < MAX_CHANNELS
    ensures var t := ChangeDock(s, k, s.docks[k].Disconnect());
      && |t.docks| == MAX_DOCKS && |t.docks[d].modules| == MAX_CHANNELS
      && SeenAt(t, d, ch) == if k == d then None else SeenAt(s, d, ch)
  {
    var dock := s.docks[k];
    assert Valid(dock);
    if dock.state != Disconnected {
      DropKeeps(EmptyTable(), dock.(state := Disconnected), 0);
    }
    hide Inv, Dock.DropFrom, ApplyAll;
  }

  lemma RoundSees(s: Daemon, d: nat, ch: nat)
    requires Inv(s) && d < MAX_DOCKS && ch < MAX_CHANNELS
    ensures var t := Step(s, UpdateClients);
      |t.docks| == MAX_DOCKS && |t.docks[d].modules| == MAX_CHANNELS && SeenAt(t, d, ch) == SeenAt(s, d, ch)
  {
    Shape(s, d);
    UpdateInv(s, 0);
    Shape(Step(s, UpdateClients), d);
    hide Inv, UpdateFrom;
    ModulesEffect(s, 0, d);
    var ms := s.docks[d].modules;
    var t: Table := seq(MAX_CHANNELS, c requires 0 <= c < MAX_CHANNELS => Seen(ms[c].connected, ms[c].name));
    assert Agrees(t, ms);
  }

  lemma StepSees(s: Daemon, a: Action, d: nat, ch: nat)
    requires Inv(s) && Possible(s, a) && d < MAX_DOCKS && ch < MAX_CHANNELS
    ensures var t := Step(s, a);
      && |s.docks| == |t.docks| == MAX_DOCKS && |s.docks[d].modules| == |t.docks[d].modules| == MAX_CHANNELS
      && SeenAt(t, d, ch) == NextPlugged(SeenAt(s, d, ch), a, d, ch)
  {
    Shape(s, d);
    match a
    case UpdateClients => RoundSees(s, d, ch);
    case Unplugged(k) => UnpluggedSees(s, k, d, ch);
    case _ =>
      StepInv(s, a);
      Shape(Step(s, a), d);
      hide Inv;
  }

  /** After any run, a module is connected exactly as the lines and the cables say. */
  lemma {:induction false} PluggedExactly(actions: seq<Action>, d: nat, ch: nat)
    requires CanTake(actions) && d < MAX_DOCKS && ch < MAX_CHANNELS
    ensures var s := After(actions);
      |s.docks| == MAX_DOCKS && |s.docks[d].modules| == MAX_CHANNELS && SeenAt(s, d, ch) == Plugged(actions, d, ch)
    decreases actions
  {
    if actions != [] {
      hide CanTake, After, Step, SeenAt, NextPlugged, Inv, Possible;
      AfterLast(actions);
      PluggedExactly(actions[..|actions| - 1], d, ch);
      StepSees(After(actions[..|actions| - 1]), actions[|actions| - 1], d, ch);
    }
  }

  //
  // Docks and clients
  //

  lemma TurnState(s: Daemon, k: nat, d: nat)
    requires Inv(s) && k < MAX_DOCKS && d < MAX_DOCKS
    ensures |s.docks| == MAX_DOCKS && WellFormedClients(s.clients) && UpdateDock(s, k).docks[d].state
      == s.docks[d].state
  {
    InvFacts(s, 0);
    assert Valid(s.docks[k]);
    hide Inv, Drained, Handed, WellFormedClients, Dock.PendingCommands;
    PollKeeps(s.docks[k].(events := []), 0);
  }

  lemma {:induction false} RoundState(s: Daemon, from: nat, d: nat)
    requires Inv(s) && from <= MAX_DOCKS && d < MAX_DOCKS
    ensures |s.docks| == MAX_DOCKS && WellFormedClients(s.clients)
    ensures |UpdateFrom(s, from).docks| == MAX_DOCKS && UpdateFrom(s, from).docks[d].state == s.docks[d].state
    decreases MAX_DOCKS - from
  {
    hide Inv, UpdateFrom, UpdateDock, WellFormedClients;
    InvFacts(s, 0);
    Unfolds(s, from);
    if from < MAX_DOCKS {
      TurnState(s, from, d);
      UpdateDockInv(s, from);
      RoundState(UpdateDock(s, from), from + 1, d);
    }
  }

  function NextState(state: DockState, a: Action, d: nat): DockState {
    if a == PortFound(d, true) then Connected else if a == Unplugged(d) then Disconnected else state
  }

  lemma StepState(s: Daemon, a: Action, d: nat)
    requires Inv(s) && Possible(s, a) && d < MAX_DOCKS
    requires |s.docks| == MAX_DOCKS && s.docks[d].state != Connecting
    ensures |Step(s, a).docks| == MAX_DOCKS && Step(s, a).docks[d].state == NextState(s.docks[d].state, a, d)
  {
    match a
    case UpdateClients => RoundState(s, 0, d);
    case Unplugged(k) =>
      assert Valid(s.docks[k]);
      hide Inv, Dock.DropFrom;
      if s.docks[k].state != Disconnected {
        DropKeeps(EmptyTable(), s.docks[k].(state := Disconnected), 0);
      }
    case _ => hide Inv;
  }

  /** A dock is connected exactly if its port was found and it was not unplugged since. */
  lemma {:induction false} ConnectedExactly(actions: seq<Action>, d: nat)
    requires CanTake(actions) && d < MAX_DOCKS
    ensures |After(actions).docks| == MAX_DOCKS
    ensures After(actions).docks[d].state ==
      if Since(actions, PortFound(d, true), {Unplugged(d)}) then Connected else Disconnected
    decreases actions
  {
    if actions != [] {
      hide CanTake, After, Step, Since, Inv, Possible;
      AfterLast(actions);
      ConnectedExactly(actions[..|actions| - 1], d);
      StepState(After(actions[..|actions| - 1]), actions[|actions| - 1], d);
      SinceLast(actions, PortFound(d, true), {Unplugged(d)});
    }
  }

  /** Whether a client is open, and if so, whether it is ready and subscribed to a dock. */
  datatype Standing = Standing(open: bool, ready: bool, subscribed: bool)

  function StandingOf(s: Daemon, id: nat, d: nat): Standing {
    if id in s.clients && d < |s.clients[id].subscribed| then
      Standing(true, s.clients[id].ready, s.clients[id].subscribed[d])
    else Standing(false, false, false)
  }

  function NextStanding(now: Standing, a: Action, id: nat, d: nat): Standing {
    match a
    case Opened(i) => if i == id then Standing(true, false, false) else now
    case Closed(i) => if i == id then Standing(false, false, false) else now
    case Ready(i) => if i == id && now.open then now.(ready := true) else now
    case Pause(i) => if i == id then now.(ready := false) else now
    case Subscribe(i, k) => if i == id && k == d && now.open then now.(subscribed := true) else now
    case Unsubscribe(i, k) => if i == id && k == d then now.(subscribed := false) else now
    case _ => now
  }

  lemma {:induction false} RoundStanding(s: Daemon, from: nat, id: nat, d: nat)
    requires Inv(s) && from <= MAX_DOCKS && d < MAX_DOCKS
    ensures |s.docks| == MAX_DOCKS && WellFormedClients(s.clients)
    ensures StandingOf(UpdateFrom(s, from), id, d) == StandingOf(s, id, d)
    decreases MAX_DOCKS - from
  {
    hide Inv, UpdateFrom, UpdateDock, WellFormedClients;
    InvFacts(s, id);
    Unfolds(s, from);
    if from < MAX_DOCKS {
      if id in s.clients {
        TurnEffect(s, from, id);
      }
      UpdateDockInv(s, from);
      RoundStanding(UpdateDock(s, from), from + 1, id, d);
    }
  }

  lemma MessageStanding(docks: seq<Dock>, c: Client, a: Action, d: nat)
    requires |docks| == MAX_DOCKS && c.WellFormed() && d < MAX_DOCKS
    requires a.Hello? || a.Ready? || a.Pause? || a.Subscribe? || a.Unsubscribe?
    ensures OnMessage(docks, c, a).WellFormed()
    ensures Stands(OnMessage(docks, c, a), d) == NextStanding(Stands(c, d), a, a.id, d)
  {
    assert |Snapshots(docks)| == MAX_DOCKS;
    hide Snapshots;
  }

  function Stands(c: Client, d: nat): Standing
    requires c.WellFormed() && d < MAX_DOCKS
  {
    Standing(true, c.ready, c.subscribed[d])
  }

  lemma ClientStanding(s: Daemon, a: Action, id: nat, d: nat)
    requires Inv(s) && d < MAX_DOCKS && |s.docks| == MAX_DOCKS
    requires a.Hello? || a.Ready? || a.Pause? || a.Subscribe? || a.Unsubscribe?
    ensures StandingOf(Step(s, a), id, d) == NextStanding(StandingOf(s, id, d), a, id, d)
  {
    InvFacts(s, id);
    hide Inv, OnMessage, WellFormedClients;
    if a.id == id && id in s.clients {
      MessageStanding(s.docks, s.clients[id], a, d);
    }
  }

  lemma DockStepClients(s: Daemon, a: Action)
    requires Inv(s) && Possible(s, a)
    requires OfDock(a)
    ensures Step(s, a).clients == s.clients
  {
    hide Inv, Dock.SetPort, Dock.ProcessCommand, Dock.Disconnect;
  }

  lemma ArrivalStanding(s: Daemon, a: Action, id: nat, d: nat)
    requires Inv(s) && d < MAX_DOCKS && (a.Opened? || a.Closed?)
    ensures StandingOf(Step(s, a), id, d) == NextStanding(StandingOf(s, id, d), a, id, d)
  {
    hide Inv;
  }

  lemma StepStanding(s: Daemon, a: Action, id: nat, d: nat)
    requires Inv(s) && Possible(s, a) && d < MAX_DOCKS
    ensures StandingOf(Step(s, a), id, d) == NextStanding(StandingOf(s, id, d), a, id, d)
  {
    InvFacts(s, id);
    if a.UpdateClients? {
      hide Inv, UpdateFrom;
      RoundStanding(s, 0, id, d);
    } else if OfDock(a) {
      hide Inv, Step;
      DockStepClients(s, a);
    } else if a.Opened? || a.Closed? {
      hide Inv, Step, StandingOf, NextStanding;
      ArrivalStanding(s, a, id, d);
    } else {
      hide Inv, Step, StandingOf, NextStanding;
      ClientStanding(s, a, id, d);
    }
  }

  /** A client is open exactly if it has opened and not closed since. */
  lemma {:induction false} OpenExactly(actions: seq<Action>, id: nat, d: nat)
    requires CanTake(actions) && d < MAX_DOCKS
    ensures StandingOf(After(actions), id, d).open <==> Since(actions, Opened(id), {Closed(id)})
    decreases actions
  {
    if actions != [] {
      hide CanTake, After, Step, Since, Inv, Possible, StandingOf;
      AfterLast(actions);
      OpenExactly(actions[..|actions| - 1], id, d);
      StepStanding(After(actions[..|actions| - 1]), actions[|actions| - 1], id, d);
      SinceLast(actions, Opened(id), {Closed(id)});
    }
  }

  /** One action more. */
  lemma ReadyNext(now: Standing, a: Action, id: nat, d: nat, before: bool, after: bool)
    requires now.ready <==> now.open && before
    requires after <==> a == Ready(id) || (a !in {Opened(id), Closed(id), Pause(id)} && before)
    ensures var next := NextStanding(now, a, id, d); next.ready <==> next.open && after
  {
  }

  lemma SubscribedNext(now: Standing, a: Action, id: nat, d: nat, before: bool, after: bool)
    requires now.subscribed <==> now.open && before
    requires after <==> a == Subscribe(id, d) || (a !in {Opened(id), Closed(id), Unsubscribe(id, d)} && before)
    ensures var next := NextStanding(now, a, id, d); next.subscribed <==> next.open && after
  {
  }

  /** An open client is ready exactly if it said so after opening and has not paused since. */
  lemma {:induction false} ReadyExactly(actions: seq<Action>, id: nat, d: nat)
    requires CanTake(actions) && d < MAX_DOCKS
    ensures var now := StandingOf(After(actions), id, d);
      now.ready <==> now.open && Since(actions, Ready(id), {Opened(id), Closed(id), Pause(id)})
    decreases actions
  {
    if actions != [] {
      hide CanTake, After, Step, Since, Inv, Possible, StandingOf, NextStanding;
      var front, a := actions[..|actions| - 1], actions[|actions| - 1];
      AfterLast(actions);
      ReadyExactly(front, id, d);
      StepStanding(After(front), a, id, d);
      var off := {Opened(id), Closed(id), Pause(id)};
      SinceLast(actions, Ready(id), off);
      ReadyNext(StandingOf(After(front), id, d), a, id, d, Since(front, Ready(id), off),
        Since(actions, Ready(id), off));
    }
  }

  /** It is subscribed exactly to the docks it has subscribed to since it opened and not unsubscribed from. */
  lemma {:induction false} SubscribedExactly(actions: seq<Action>, id: nat, d: nat)
    requires CanTake(actions) && d < MAX_DOCKS
    ensures var now := StandingOf(After(actions), id, d);
      now.subscribed <==> now.open && Since(actions, Subscribe(id, d), {Opened(id), Closed(id), Unsubscribe(id, d)})
    decreases actions
  {
    if actions != [] {
      hide CanTake, After, Step, Since, Inv, Possible, StandingOf, NextStanding;
      var front, a := actions[..|actions| - 1], actions[|actions| - 1];
      AfterLast(actions);
      SubscribedExactly(front, id, d);
      StepStanding(After(front), a, id, d);
      var off := {Opened(id), Closed(id), Unsubscribe(id, d)};
      SinceLast(actions, Subscribe(id, d), off);
      SubscribedNext(StandingOf(After(front), id, d), a, id, d, Since(front, Subscribe(id, d), off),
        Since(actions, Subscribe(id, d), off));
    }
  }

  //
  // Tables
  //

  /** A ready and subscribed client that missed nothing of dock `d`. */
  predicate UpToDate(s: Daemon, id: nat, d: nat) {
    && MissedNothing(s, id, d) && s.clients[id].ready
    && d < |s.clients[id].subscribed| && s.clients[id].subscribed[d]
  }

  /** The client goes on listening to dock `d`. */
  predicate Stays(a: Action, id: nat, d: nat) {
    a !in {Opened(id), Closed(id), Pause(id), Unsubscribe(id, d)}
  }

  lemma TurnUpToDate(s: Daemon, k: nat, id: nat, d: nat)
    requires Inv(s) && k < MAX_DOCKS && d < MAX_DOCKS && UpToDate(s, id, d)
    ensures |s.docks| == MAX_DOCKS && WellFormedClients(s.clients) && UpToDate(UpdateDock(s, k), id, d)
  {
    InvFacts(s, id);
    var c := s.clients[id];
    ClientAfter(s, k, id);
    SendAllMoves(c, k, s.docks[k].events);
    hide Inv, UpdateDock, Client.SendAll, WellFormedClients, ApplyAll;
  }

  lemma {:induction false} RoundUpToDate(s: Daemon, from: nat, id: nat, d: nat)
    requires Inv(s) && from <= MAX_DOCKS && d < MAX_DOCKS && UpToDate(s, id, d)
    ensures |s.docks| == MAX_DOCKS && WellFormedClients(s.clients) && UpToDate(UpdateFrom(s, from), id, d)
    decreases MAX_DOCKS - from
  {
    hide Inv, UpdateFrom, UpdateDock, WellFormedClients, UpToDate;
    InvFacts(s, id);
    Unfolds(s, from);
    if from < MAX_DOCKS {
      TurnUpToDate(s, from, id, d);
      UpdateDockInv(s, from);
      RoundUpToDate(UpdateDock(s, from), from + 1, id, d);
    }
  }

  lemma ServedUpToDate(s: Daemon, id: nat, d: nat)
    requires Inv(s) && d < MAX_DOCKS && UpToDate(s, id, d)
    ensures UpToDate(Step(s, UpdateClients), id, d)
  {
    hide Inv, UpdateFrom, UpToDate;
    RoundUpToDate(s, 0, id, d);
  }

  lemma MessageUpToDate(s: Daemon, a: Action, id: nat, d: nat)
    requires Inv(s) && |s.docks| == MAX_DOCKS && d < MAX_DOCKS && UpToDate(s, id, d) && Stays(a, id, d)
    requires !a.UpdateClients? && !OfDock(a)
    ensures UpToDate(Step(s, a), id, d)
  {
    assert |Snapshots(s.docks)| == MAX_DOCKS;
    hide Inv, Snapshots;
  }

  lemma SameClients(s: Daemon, t: Daemon, id: nat, d: nat)
    requires t.clients == s.clients
    ensures UpToDate(t, id, d) <==> UpToDate(s, id, d)
  {
  }

  lemma StepUpToDate(s: Daemon, a: Action, id: nat, d: nat)
    requires Inv(s) && Possible(s, a) && d < MAX_DOCKS && UpToDate(s, id, d) && Stays(a, id, d)
    ensures UpToDate(Step(s, a), id, d)
  {
    hide Inv, Step, Possible, Stays, UpToDate, OfDock;
    if a.UpdateClients? {
      ServedUpToDate(s, id, d);
    } else if OfDock(a) {
      DockStepClients(s, a);
      SameClients(s, Step(s, a), id, d);
    } else {
      InvFacts(s, id);
      MessageUpToDate(s, a, id, d);
    }
  }

  lemma ReadyUpToDate(s: Daemon, id: nat, d: nat)
    requires Inv(s) && d < MAX_DOCKS && StandingOf(s, id, d).open && StandingOf(s, id, d).subscribed
    ensures UpToDate(Step(s, Ready(id)), id, d)
  {
    InvFacts(s, id);
    hide Inv, Snapshots;
  }

  lemma {:induction false} StaysUpToDate(before: seq<Action>, actions: seq<Action>, id: nat, d: nat)
    requires CanTake(before + [Ready(id)] + actions) && d < MAX_DOCKS
    requires CanTake(before) && StandingOf(After(before), id, d).open && StandingOf(After(before), id, d).subscribed
    requires forall a :: a in actions ==> Stays(a, id, d)
    ensures UpToDate(After(before + [Ready(id)] + actions), id, d)
  {
    hide CanTake, After, Step, Inv, Possible, StandingOf, UpToDate, Stays;
    var all, last := before + [Ready(id)] + actions, |actions| - 1;
    AfterLast(all);
    if actions == [] {
      assert all[..|all| - 1] == before;
      ReadyUpToDate(After(before), id, d);
    } else {
      assert all[..|all| - 1] == before + [Ready(id)] + actions[..last];
      StaysUpToDate(before, actions[..last], id, d);
      StepUpToDate(After(all[..|all| - 1]), actions[last], id, d);
    }
  }

  /**
   A client that has subscribed to a dock, says that it is ready and goes on listening has in its table, after every
   round from then on, exactly the modules the lines of that dock say are plugged in.
   */
  lemma TablesTellLines(before: seq<Action>, actions: seq<Action>, id: nat, d: nat, ch: nat)
    requires var all := before + [Ready(id)] + (actions + [UpdateClients]); CanTake(before) && CanTake(all)
    requires StandingOf(After(before), id, d).open && StandingOf(After(before), id, d).subscribed
    requires d < MAX_DOCKS && ch < MAX_CHANNELS && forall a :: a in actions ==> Stays(a, id, d)
    ensures var all := before + [Ready(id)] + (actions + [UpdateClients]);
      var s := After(all);
      && id in s.clients && d < |s.clients[id].tables|
      && s.clients[id].tables[d][ch] == Plugged(all, d, ch)
  {
    var all := before + [Ready(id)] + (actions + [UpdateClients]);
    hide CanTake, After, Inv, Possible, StandingOf, UpdateFrom, Plugged;
    StaysUpToDate(before, actions + [UpdateClients], id, d);
    AfterLast(all);
    UpdateInv(After(all[..|all| - 1]), 0);
    DrainedKnows(After(all), id, d);
    PluggedExactly(all, d, ch);
  }
}
