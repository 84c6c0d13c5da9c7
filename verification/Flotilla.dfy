/**
 The daemon: docks, clients and the tables of connected modules the clients keep (Flotilla.cpp). Each handler, each
 line from a dock and each round of `update_clients` is one step.
 */
module Flotilla {
  import opened Wrappers
  import opened FlotillaModules
  import opened FlotillaDocks

  /** What is sent to clients between snapshots: the change of a module or a value from it. */
  datatype Packet = Change(event: Event) | Value(command: Command)

  /**
   A client, the table it keeps for each dock since the last snapshot it was sent, and the values it was sent; `missed`
   marks the docks of which an event was not sent to it since then.
   */
  datatype Client =
    Client(ready: bool, subscribed: seq<bool>, tables: seq<Table>, missed: seq<bool>, got: seq<Command>) {
    predicate WellFormed() {
      |subscribed| == |tables| == |missed| == MAX_DOCKS
    }

    /** One event of dock `d`, sent only to clients that are ready and subscribed. */
    function Send(d: nat, e: Event): Client
      requires WellFormed() && d < MAX_DOCKS
    {
      if ready && subscribed[d] then this.(tables := tables[d := Apply(tables[d], e)])
      else this.(missed := missed[d := true])
    }

    /** The values of dock `d` that are due. */
    function Take(d: nat, cs: seq<Command>): (c: Client)
      requires WellFormed() && d < MAX_DOCKS
      ensures c.WellFormed()
    {
      if ready && subscribed[d] then this.(got := got + cs) else this
    }

    function Receive(d: nat, p: Packet): Client
      requires WellFormed() && d < MAX_DOCKS
    {
      match p
      case Change(e) => Send(d, e)
      case Value(c) => Take(d, [c])
    }

    function SendAll(d: nat, es: seq<Event>): (c: Client)
      requires WellFormed() && d < MAX_DOCKS
      ensures c.WellFormed()
      decreases es
    {
      if es == [] then this else Send(d, es[0]).SendAll(d, es[1..])
    }
  }

  function EmptyTable(): Table {
    seq(MAX_CHANNELS, _ => None)
  }

  function NewClient(): Client {
    Client(false, seq(MAX_DOCKS, _ => false), seq(MAX_DOCKS, _ => EmptyTable()), seq(MAX_DOCKS, _ => true), [])
  }

  datatype Daemon = Daemon(docks: seq<Dock>, clients: map<nat, Client>)

  datatype Action =
    | PortFound(dock: nat, works: bool)
    | LineRead(dock: nat, line: Line)
    | Unplugged(dock: nat)
    | UpdateQueued(dock: nat, channel: nat, data: string)
    | Forwarded(dock: nat, channel: nat)
    | UpdateClients
    | Opened(id: nat)
    | Closed(id: nat)
    | Hello(id: nat)
    | Ready(id: nat)
    | Pause(id: nat)
    | Subscribe(id: nat, dock: nat)
    | Unsubscribe(id: nat, dock: nat)

  /** What a dock or one of its modules does or is sent. */
  predicate OfDock(a: Action) {
    a.PortFound? || a.LineRead? || a.Unplugged? || a.UpdateQueued? || a.Forwarded?
  }

  /** Lines are read only from connected docks, and updates forwarded only to modules connected to them. */
  predicate Possible(s: Daemon, a: Action) {
    match a
    case PortFound(d, _) => d < |s.docks|
    case LineRead(d, _) => d < |s.docks| && s.docks[d].state == Connected
    case Unplugged(d) => d < |s.docks|
    case UpdateQueued(d, ch, _) => d < |s.docks| && ch < |s.docks[d].modules|
    case Forwarded(d, ch) =>
      d < |s.docks| && s.docks[d].state == Connected && ch < |s.docks[d].modules| && s.docks[d].modules[ch].connected
    case _ => true
  }

  /** The events `init_client` sends for a dock: one for each connected module, in order. */
  function Snapshot(d: Dock, channel: nat): seq<Event>
    decreases |d.modules| - channel
  {
    if channel >= |d.modules| || d.state != Connected then []
    else if !d.modules[channel].connected then Snapshot(d, channel + 1)
    else [Event(d.index, channel, true, d.modules[channel].name)] + Snapshot(d, channel + 1)
  }

  function NoneMissed(): seq<bool> {
    seq(MAX_DOCKS, _ => false)
  }

  /** The tables a client has after `init_client`. */
  function Snapshots(docks: seq<Dock>): seq<Table>
    requires |docks| == MAX_DOCKS
  {
    seq(MAX_DOCKS, d requires 0 <= d < MAX_DOCKS => ApplyAll(EmptyTable(), Snapshot(docks[d], 0)))
  }

  function Initialised(docks: seq<Dock>, c: Client): Client
    requires |docks| == MAX_DOCKS
  {
    c.(tables := Snapshots(docks), missed := NoneMissed())
  }

  predicate WellFormedClients(clients: map<nat, Client>) {
    forall id :: id in clients ==> clients[id].WellFormed()
  }

  function Drained(clients: map<nat, Client>, d: nat, es: seq<Event>): map<nat, Client>
    requires d < MAX_DOCKS && WellFormedClients(clients)
  {
    map id | id in clients :: clients[id].SendAll(d, es)
  }

  function Handed(clients: map<nat, Client>, d: nat, cs: seq<Command>): map<nat, Client>
    requires d < MAX_DOCKS && WellFormedClients(clients)
  {
    map id | id in clients :: clients[id].Take(d, cs)
  }

  /** Drains the events of dock `d` into the clients, then polls its modules and sends their values. */
  function UpdateDock(s: Daemon, d: nat): Daemon
    requires |s.docks| == MAX_DOCKS && d < MAX_DOCKS && WellFormedClients(s.clients)
  {
    var dock := s.docks[d];
    var drained := dock.(events := []);
    var (commands, polled) := if dock.state == Connected then drained.PendingCommands(0) else ([], drained);
    Daemon(s.docks[d := polled], Handed(Drained(s.clients, d, dock.events), d, commands))
  }

  function UpdateFrom(s: Daemon, d: nat): Daemon
    requires |s.docks| == MAX_DOCKS && WellFormedClients(s.clients)
    decreases MAX_DOCKS - d
  {
    if d >= MAX_DOCKS then s else UpdateFrom(UpdateDock(s, d), d + 1)
  }

  function ChangeDock(s: Daemon, d: nat, dock: Dock): Daemon
    requires d < |s.docks|
  {
    s.(docks := s.docks[d := dock])
  }

  function Subscription(c: Client, d: nat, on: bool): Client {
    if d < |c.subscribed| && d < MAX_DOCKS then c.(subscribed := c.subscribed[d := on]) else c
  }

  /** What a message from a client does to it. */
  function OnMessage(docks: seq<Dock>, c: Client, a: Action): Client
    requires |docks| == MAX_DOCKS
  {
    match a
    case Hello(_) => Initialised(docks, c)
    case Ready(_) => Initialised(docks, c.(ready := true))
    case Pause(_) => c.(ready := false)
    case Subscribe(_, d) => Subscription(c, d, true)
    case Unsubscribe(_, d) => Subscription(c, d, false)
    case _ => c
  }

  function Step(s: Daemon, a: Action): Daemon
    requires Inv(s) && Possible(s, a)
  {
    match a
    case PortFound(d, works) => ChangeDock(s, d, s.docks[d].SetPort(works))
    case LineRead(d, line) => ChangeDock(s, d, s.docks[d].ProcessCommand(line))
    case Unplugged(d) => ChangeDock(s, d, s.docks[d].Disconnect())
    case UpdateQueued(d, ch, data) =>
      var dock := s.docks[d];
      ChangeDock(s, d, dock.(modules := dock.modules[ch := dock.modules[ch].QueueUpdate(data)]))
    case Forwarded(d, ch) =>
      var dock := s.docks[d];
      ChangeDock(s, d, dock.(modules := dock.modules[ch := dock.modules[ch].GetNextUpdate().1]))
    case UpdateClients => UpdateFrom(s, 0)
    case Opened(id) => Daemon(s.docks, s.clients[id := NewClient()])
    case Closed(id) => s.(clients := s.clients - {id})
    case _ => if a.id in s.clients then s.(clients := s.clients[a.id := OnMessage(s.docks, s.clients[a.id], a)]) else s
  }

  //
  // The invariant
  //

  /**
   Every table of which no event was missed is, after the events still queued, the table of the modules connected now.
   */
  predicate InSync(docks: seq<Dock>, c: Client)
    requires |docks| == MAX_DOCKS
  {
    c.WellFormed() && forall d :: 0 <= d < MAX_DOCKS && !c.missed[d] ==>
      Agrees(ApplyAll(c.tables[d], docks[d].events), docks[d].modules)
  }

  predicate Inv(s: Daemon) {
    && |s.docks| == MAX_DOCKS
    && (forall d :: 0 <= d < MAX_DOCKS ==> Valid(s.docks[d]))
    && (forall id :: id in s.clients ==> InSync(s.docks, s.clients[id]))
  }

  function FreshDock(index: nat): Dock {
    Dock(index, Disconnected, seq(MAX_CHANNELS, _ => Module(false, "", "", [], [])), [])
  }

  function Start(): Daemon {
    Daemon(seq(MAX_DOCKS, i requires 0 <= i => FreshDock(i)), map[])
  }

  lemma StartInv()
    ensures Inv(Start())
  {
  }

  /** A change to one dock that keeps every table right keeps the invariant. */
  lemma ChangeDockInv(s: Daemon, d: nat, dock: Dock)
    requires Inv(s) && d < MAX_DOCKS && Valid(dock)
    requires forall t: Table :: Agrees(ApplyAll(t, s.docks[d].events), s.docks[d].modules) ==>
      Agrees(ApplyAll(t, dock.events), dock.modules)
    ensures Inv(ChangeDock(s, d, dock))
  {
  }

  lemma {:induction false} SnapshotMentions(d: Dock, channel: nat, t: Table, ch: nat)
    requires Valid(d) && d.state == Connected && ch < MAX_CHANNELS
    ensures ApplyAll(t, Snapshot(d, channel))[ch] ==
      if channel <= ch && d.modules[ch].connected then Some(d.modules[ch].name) else t[ch]
    decreases MAX_CHANNELS - channel
  {
    if channel < MAX_CHANNELS {
      if d.modules[channel].connected {
        var e := Event(d.index, channel, true, d.modules[channel].name);
        assert ([e] + Snapshot(d, channel + 1))[1..] == Snapshot(d, channel + 1);
        SnapshotMentions(d, channel + 1, Apply(t, e), ch);
      } else {
        SnapshotMentions(d, channel + 1, t, ch);
      }
    }
  }

  /** The snapshot sent to a client is the table of the modules connected now. */
  lemma SnapshotAgrees(d: Dock)
    requires Valid(d)
    ensures Agrees(ApplyAll(EmptyTable(), Snapshot(d, 0)), d.modules)
  {
    forall ch | 0 <= ch < MAX_CHANNELS
      ensures ApplyAll(EmptyTable(), Snapshot(d, 0))[ch] == Seen(d.modules[ch].connected, d.modules[ch].name)
    {
      if d.state == Connected {
        SnapshotMentions(d, 0, EmptyTable(), ch);
      }
    }
  }

  lemma InitInSync(s: Daemon, c: Client)
    requires Inv(s) && c.WellFormed()
    ensures InSync(s.docks, Initialised(s.docks, c))
  {
    forall d | 0 <= d < MAX_DOCKS
      ensures Agrees(ApplyAll(Initialised(s.docks, c).tables[d], s.docks[d].events), s.docks[d].modules)
    {
      SnapshotAgrees(s.docks[d]);
      AgreesAfterEvents(ApplyAll(EmptyTable(), Snapshot(s.docks[d], 0)), s.docks[d]);
    }
  }

  /** Sending events moves them from the queue into the table, or marks them missed. */
  lemma {:induction false} SendAllMoves(c: Client, d: nat, es: seq<Event>)
    requires c.WellFormed() && d < MAX_DOCKS
    ensures var r := c.SendAll(d, es);
      && r.ready == c.ready && r.subscribed == c.subscribed && r.got == c.got
      && (forall k :: 0 <= k < MAX_DOCKS && k != d ==> r.tables[k] == c.tables[k] && r.missed[k] == c.missed[k])
      && r.missed[d] == (c.missed[d] || (es != [] && !(c.ready && c.subscribed[d])))
      && r.tables[d] == (if c.ready && c.subscribed[d] then ApplyAll(c.tables[d], es) else c.tables[d])
    decreases es
  {
    if es != [] {
      SendAllMoves(c.Send(d, es[0]), d, es[1..]);
    }
  }

  lemma DrainInSync(docks: seq<Dock>, c: Client, d: nat, dock: Dock)
    requires |docks| == MAX_DOCKS && d < MAX_DOCKS && InSync(docks, c)
    requires dock.events == [] && forall t: Table :: Agrees(t, dock.modules) <==> Agrees(t, docks[d].modules)
    ensures InSync(docks[d := dock], c.SendAll(d, docks[d].events))
  {
    SendAllMoves(c, d, docks[d].events);
    var r := c.SendAll(d, docks[d].events);
    assert ApplyAll(r.tables[d], []) == r.tables[d];
  }

  lemma TakeInSync(docks: seq<Dock>, c: Client, d: nat, cs: seq<Command>)
    requires |docks| == MAX_DOCKS && d < MAX_DOCKS && InSync(docks, c)
    ensures InSync(docks, c.Take(d, cs))
  {
  }

  lemma UpdateDockInv(s: Daemon, d: nat)
    requires Inv(s) && d < MAX_DOCKS
    ensures var r := UpdateDock(s, d);
      && Inv(r) && r.clients.Keys == s.clients.Keys
      && r.docks[d].events == [] && r.docks == s.docks[d := r.docks[d]]
      && forall t: Table :: Agrees(t, r.docks[d].modules) <==> Agrees(t, s.docks[d].modules)
  {
    var dock := s.docks[d];
    var drained := dock.(events := []);
    assert Valid(drained);
    PollKeeps(drained, 0);
    var r := UpdateDock(s, d);
    forall id | id in r.clients ensures InSync(r.docks, r.clients[id]) {
      DrainInSync(s.docks, s.clients[id], d, r.docks[d]);
      var commands := if dock.state == Connected then drained.PendingCommands(0).0 else [];
      TakeInSync(r.docks, s.clients[id].SendAll(d, dock.events), d, commands);
    }
  }

  /** A round of `update_clients` keeps the invariant and leaves no event queued. */
  lemma {:induction false} UpdateInv(s: Daemon, d: nat)
    requires Inv(s) && forall k :: 0 <= k < d && k < MAX_DOCKS ==> s.docks[k].events == []
    ensures var r := UpdateFrom(s, d);
      && Inv(r) && r.clients.Keys == s.clients.Keys
      && forall k :: 0 <= k < MAX_DOCKS ==> r.docks[k].events == []
    decreases MAX_DOCKS - d
  {
    if d < MAX_DOCKS {
      UpdateDockInv(s, d);
      hide Inv, UpdateDock;
      UpdateInv(UpdateDock(s, d), d + 1);
    }
  }

  /** A round of `update_clients`. */
  function Round(s: Daemon): (r: Daemon)
    requires Inv(s)
    ensures Inv(r) && r.clients.Keys == s.clients.Keys
  {
    UpdateInv(s, 0);
    UpdateFrom(s, 0)
  }

  lemma LineInv(s: Daemon, d: nat, line: Line)
    requires Inv(s) && d < MAX_DOCKS && s.docks[d].state == Connected
    ensures Inv(ChangeDock(s, d, s.docks[d].ProcessCommand(line)))
  {
    var dock := s.docks[d];
    var e := dock.ProcessCommand(line);
    ProcessCommandKeeps(EmptyTable(), dock, line);
    forall t: Table | Agrees(ApplyAll(t, dock.events), dock.modules) ensures Agrees(ApplyAll(t, e.events), e.modules) {
      ProcessCommandKeeps(t, dock, line);
    }
    ChangeDockInv(s, d, e);
  }

  lemma UnplugInv(s: Daemon, d: nat)
    requires Inv(s) && d < MAX_DOCKS
    ensures Inv(ChangeDock(s, d, s.docks[d].Disconnect()))
  {
    var dock := s.docks[d];
    if dock.state == Disconnected {
      ChangeDockInv(s, d, dock);
    } else {
      var off := dock.(state := Disconnected);
      var e := off.DropFrom(0);
      DropKeeps(EmptyTable(), off, 0);
      forall t: Table | Agrees(ApplyAll(t, dock.events), dock.modules)
        ensures Agrees(ApplyAll(t, e.events), e.modules)
      {
        DropKeeps(t, off, 0);
      }
      ChangeDockInv(s, d, e);
    }
  }

  lemma ForwardedModule(m: Module)
    requires m.Valid()
    ensures var n := m.GetNextUpdate().1; n.Valid() && n.connected == m.connected && n.name == m.name
  {
  }

  lemma DockStepInv(s: Daemon, a: Action)
    requires Inv(s) && Possible(s, a)
    requires OfDock(a)
    ensures Inv(Step(s, a))
  {
    var d := a.dock;
    match a
    case PortFound(_, works) => ChangeDockInv(s, d, s.docks[d].SetPort(works));
    case LineRead(_, line) => LineInv(s, d, line);
    case Unplugged(_) => UnplugInv(s, d);
    case UpdateQueued(_, ch, data) =>
      var dock := s.docks[d];
      ChangeDockInv(s, d, dock.(modules := dock.modules[ch := dock.modules[ch].QueueUpdate(data)]));
    case Forwarded(_, ch) =>
      var dock := s.docks[d];
      ForwardedModule(dock.modules[ch]);
      ChangeDockInv(s, d, dock.(modules := dock.modules[ch := dock.modules[ch].GetNextUpdate().1]));
  }

  lemma ClientStepInv(s: Daemon, a: Action)
    requires Inv(s) && Possible(s, a)
    requires a.Opened? || a.Closed? || a.Hello? || a.Ready? || a.Pause? || a.Subscribe? || a.Unsubscribe?
    ensures Inv(Step(s, a))
  {
    match a
    case Hello(id) => if id in s.clients { InitInSync(s, s.clients[id]); }
    case Ready(id) => if id in s.clients { InitInSync(s, s.clients[id].(ready := true)); }
    case _ =>
  }

  /** Every step keeps the invariant. */
  lemma StepInv(s: Daemon, a: Action)
    requires Inv(s) && Possible(s, a)
    ensures Inv(Step(s, a))
  {
    hide Inv;
    if a.UpdateClients? {
      UpdateInv(s, 0);
    } else if OfDock(a) {
      DockStepInv(s, a);
    } else {
      ClientStepInv(s, a);
    }
  }

  //
  // Over whole runs
  //

  predicate PossibleRun(s: Daemon, actions: seq<Action>)
    requires Inv(s)
    decreases actions
  {
    actions == [] ||
      (Possible(s, actions[0]) && (StepInv(s, actions[0]); PossibleRun(Step(s, actions[0]), actions[1..])))
  }

  function Run(s: Daemon, actions: seq<Action>): Daemon
    requires Inv(s) && PossibleRun(s, actions)
    decreases actions
  {
    if actions == [] then s else (StepInv(s, actions[0]); Run(Step(s, actions[0]), actions[1..]))
  }

  /** The invariant holds in every reachable state. */
  lemma {:induction false} RunInv(s: Daemon, actions: seq<Action>)
    requires Inv(s) && PossibleRun(s, actions)
    ensures Inv(Run(s, actions))
    decreases actions
  {
    hide Inv, Step, Possible;
    if actions != [] {
      StepInv(s, actions[0]);
      RunInv(Step(s, actions[0]), actions[1..]);
    }
  }

  /** Whether a daemon just started can take these actions, and what becomes of it. */
  predicate CanTake(actions: seq<Action>) {
    StartInv();
    PossibleRun(Start(), actions)
  }

  function After(actions: seq<Action>): (s: Daemon)
    requires CanTake(actions)
    ensures Inv(s)
  {
    StartInv();
    RunInv(Start(), actions);
    Run(Start(), actions)
  }

  /** A dock that is not connected has no connected module, after any run. */
  lemma DisconnectedDocksAreEmpty(actions: seq<Action>, d: nat, ch: nat)
    requires CanTake(actions) && d < MAX_DOCKS && ch < MAX_CHANNELS
    ensures var dock := After(actions).docks[d]; dock.state != Connected ==> !dock.modules[ch].connected
  {
    hide CanTake, After, InSync;
    assert Valid(After(actions).docks[d]);
  }

  /** Client `id` knows exactly the modules connected to dock `d`. */
  predicate Knows(s: Daemon, id: nat, d: nat) {
    && id in s.clients && d < |s.docks| && d < |s.clients[id].tables|
    && Agrees(s.clients[id].tables[d], s.docks[d].modules)
  }

  /** It was sent every event of the dock since its last snapshot. */
  predicate MissedNothing(s: Daemon, id: nat, d: nat) {
    id in s.clients && d < |s.clients[id].missed| && !s.clients[id].missed[d]
  }

  lemma DrainedKnows(s: Daemon, id: nat, d: nat)
    requires Inv(s) && d < MAX_DOCKS && s.docks[d].events == [] && MissedNothing(s, id, d)
    ensures Knows(s, id, d)
  {
    assert InSync(s.docks, s.clients[id]);
    assert ApplyAll(s.clients[id].tables[d], []) == s.clients[id].tables[d];
  }

  /**
   After any run that ends with a round of `update_clients`, every client that has missed no event of a dock since its
   last snapshot knows exactly the modules connected to it.
   */
  lemma TablesConverge(actions: seq<Action>, id: nat, d: nat)
    requires CanTake(actions) && d < MAX_DOCKS
    ensures var r := Round(After(actions)); MissedNothing(r, id, d) ==> Knows(r, id, d)
  {
    var s := After(actions);
    hide CanTake, After, UpdateFrom, Knows, MissedNothing;
    UpdateInv(s, 0);
    if MissedNothing(Round(s), id, d) {
      DrainedKnows(Round(s), id, d);
    }
  }

  function DueFrom(dock: Dock): seq<Command> {
    if dock.state == Connected then dock.(events := []).PendingCommands(0).0 else []
  }

  lemma ClientAfter(s: Daemon, d: nat, id: nat)
    requires Inv(s) && id in s.clients && d < MAX_DOCKS
    ensures var next, c := UpdateDock(s, d), s.clients[id];
      id in next.clients && next.clients[id] == c.SendAll(d, s.docks[d].events).Take(d, DueFrom(s.docks[d]))
  {
  }

  /** What the events of a dock leave of a client's table. */
  function TableAfter(c: Client, d: nat, es: seq<Event>): Table
    requires c.WellFormed() && d < MAX_DOCKS
  {
    if c.ready && c.subscribed[d] then ApplyAll(c.tables[d], es) else c.tables[d]
  }

  /** What the turn of dock `d` does to one client. */
  lemma TurnEffect(s: Daemon, d: nat, id: nat)
    requires Inv(s) && id in s.clients && d < MAX_DOCKS
    ensures var next, c := UpdateDock(s, d), s.clients[id];
      && Inv(next) && id in next.clients && c.WellFormed() && next.clients[id].WellFormed()
      && (forall k :: 0 <= k < MAX_DOCKS && k != d ==> next.docks[k] == s.docks[k])
      && var e := next.clients[id];
      && e.ready == c.ready && e.subscribed == c.subscribed
      && e.tables == c.tables[d := TableAfter(c, d, s.docks[d].events)]
      && e.got == c.got + DueNow(s.docks[d], c.ready && c.subscribed[d])
  {
    var c := s.clients[id];
    assert c.WellFormed();
    UpdateDockInv(s, d);
    ClientAfter(s, d, id);
    SendAllMoves(c, d, s.docks[d].events);
    hide UpdateDock, Inv, Client.SendAll, DueFrom;
    assert c.got + [] == c.got;
  }

  lemma InvFacts(s: Daemon, id: nat)
    requires Inv(s)
    ensures |s.docks| == MAX_DOCKS && WellFormedClients(s.clients)
    ensures id in s.clients ==> s.clients[id].WellFormed()
  {
  }

  lemma Unfolds(s: Daemon, d: nat)
    requires |s.docks| == MAX_DOCKS && WellFormedClients(s.clients) && d <= MAX_DOCKS
    ensures d == MAX_DOCKS ==> UpdateFrom(s, d) == s
    ensures d < MAX_DOCKS ==> UpdateFrom(s, d) == UpdateFrom(UpdateDock(s, d), d + 1)
  {
  }

  /** What the turn of dock `d` does to one table. */
  lemma TurnTable(s: Daemon, d: nat, id: nat, k: nat)
    requires Inv(s) && id in s.clients && d < MAX_DOCKS && k < MAX_DOCKS
    ensures var next, c := UpdateDock(s, d), s.clients[id];
      && Inv(next) && id in next.clients && c.WellFormed() && next.clients[id].WellFormed()
      && var e := next.clients[id];
      && (k == d ==> e.tables[k] == TableAfter(c, k, s.docks[k].events))
      && (k != d ==> e.tables[k] == c.tables[k])
      && (k != d ==> TableAfter(e, k, next.docks[k].events) == TableAfter(c, k, s.docks[k].events))
  {
    TurnEffect(s, d, id);
    hide UpdateDock, Client.SendAll, ApplyAll, DueNow;
  }

  /** What a round of `update_clients` does to one client's table. */
  lemma {:induction false} TableEffect(s: Daemon, d: nat, id: nat, k: nat)
    requires Inv(s) && id in s.clients && d <= MAX_DOCKS && k < MAX_DOCKS
    ensures var r, c := UpdateFrom(s, d), s.clients[id];
      && c.WellFormed() && id in r.clients && r.clients[id].WellFormed()
      && r.clients[id].tables[k] == if d <= k then TableAfter(c, k, s.docks[k].events) else c.tables[k]
    decreases MAX_DOCKS - d
  {
    hide UpdateFrom, UpdateDock, Client.SendAll, Inv, TableAfter, WellFormedClients;
    InvFacts(s, id);
    Unfolds(s, d);
    if d < MAX_DOCKS {
      TurnTable(s, d, id, k);
      TableEffect(UpdateDock(s, d), d + 1, id, k);
    }
  }

  /** A round changes nothing a table shows. */
  lemma {:induction false} ModulesEffect(s: Daemon, d: nat, k: nat)
    requires Inv(s) && d <= MAX_DOCKS && k < MAX_DOCKS
    ensures var r := UpdateFrom(s, d);
      |r.docks| == MAX_DOCKS && forall t: Table :: Agrees(t, r.docks[k].modules) <==> Agrees(t, s.docks[k].modules)
    decreases MAX_DOCKS - d
  {
    hide UpdateFrom, UpdateDock, Agrees, Inv, WellFormedClients;
    InvFacts(s, 0);
    Unfolds(s, d);
    if d < MAX_DOCKS {
      UpdateDockInv(s, d);
      ModulesEffect(UpdateDock(s, d), d + 1, k);
    }
  }

  /** The values a client is due in a round, from dock `d` on. */
  function Due(docks: seq<Dock>, c: Client, d: nat): seq<Command>
    requires |docks| == |c.subscribed| == MAX_DOCKS
    decreases MAX_DOCKS - d
  {
    if d >= MAX_DOCKS then []
    else DueNow(docks[d], c.ready && c.subscribed[d]) + Due(docks, c, d + 1)
  }

  function DueNow(dock: Dock, listening: bool): seq<Command> {
    if listening then DueFrom(dock) else []
  }

  lemma {:induction false} DueLater(docks: seq<Dock>, next: seq<Dock>, c: Client, e: Client, d: nat)
    requires |docks| == |next| == |c.subscribed| == MAX_DOCKS
    requires forall k :: d <= k < MAX_DOCKS ==> next[k] == docks[k]
    requires e.ready == c.ready && e.subscribed == c.subscribed
    ensures Due(next, e, d) == Due(docks, c, d)
    decreases MAX_DOCKS - d
  {
    if d < MAX_DOCKS {
      DueLater(docks, next, c, e, d + 1);
    }
  }

  /** What is due now comes before what is due later. */
  lemma DueAdds(docks: seq<Dock>, next: seq<Dock>, c: Client, e: Client, d: nat)
    requires |docks| == |next| == |c.subscribed| == MAX_DOCKS && d < MAX_DOCKS
    requires forall k :: 0 <= k < MAX_DOCKS && k != d ==> next[k] == docks[k]
    requires e.ready == c.ready && e.subscribed == c.subscribed
    requires e.got == c.got + DueNow(docks[d], c.ready && c.subscribed[d])
    ensures e.got + Due(next, e, d + 1) == c.got + Due(docks, c, d)
  {
    DueUnfolds(docks, c, d);
    hide DueNow, Due;
    DueLater(docks, next, c, e, d + 1);
    Regroup(c.got, DueNow(docks[d], c.ready && c.subscribed[d]), Due(docks, c, d + 1));
  }

  lemma DueUnfolds(docks: seq<Dock>, c: Client, d: nat)
    requires |docks| == |c.subscribed| == MAX_DOCKS && d < MAX_DOCKS
    ensures Due(docks, c, d) == DueNow(docks[d], c.ready && c.subscribed[d]) + Due(docks, c, d + 1)
  {
  }

  lemma Regroup<T>(a: seq<T>, b: seq<T>, c: seq<T>)
    ensures a + b + c == a + (b + c)
  {
  }

  lemma NothingDue(docks: seq<Dock>, c: Client)
    requires |docks| == |c.subscribed| == MAX_DOCKS
    ensures c.got + Due(docks, c, MAX_DOCKS) == c.got
  {
  }

  /** A round sends a client the values of the docks it is subscribed to if it is ready, in order, and no others. */
  lemma {:induction false} RoundDelivers(s: Daemon, d: nat, id: nat)
    requires Inv(s) && id in s.clients && d <= MAX_DOCKS
    ensures s.clients[id].WellFormed() && id in UpdateFrom(s, d).clients
    ensures UpdateFrom(s, d).clients[id].got == s.clients[id].got + Due(s.docks, s.clients[id], d)
    decreases MAX_DOCKS - d
  {
    hide UpdateFrom, UpdateDock, Inv, DueNow, Due, TableAfter, WellFormedClients;
    InvFacts(s, id);
    Unfolds(s, d);
    if d < MAX_DOCKS {
      TurnEffect(s, d, id);
      var next := UpdateDock(s, d);
      InvFacts(next, id);
      DueAdds(s.docks, next.docks, s.clients[id], next.clients[id], d);
      RoundDelivers(next, d + 1, id);
    } else {
      NothingDue(s.docks, s.clients[id]);
    }
  }

  /** One event, sent. */
  lemma FoundSent(dock: Dock, ch: nat, name: string, t: Table)
    requires Valid(dock) && dock.events == [] && Agrees(t, dock.modules)
    requires ch < MAX_CHANNELS && !dock.modules[ch].connected
    ensures var e := dock.ProcessCommand(Found(ch, name));
      Agrees(ApplyAll(t, e.events), e.modules) && !Agrees(t, e.modules)
  {
  }

  /**
   A module that appears reaches the table of a client, in the next round, exactly if the client is ready and
   subscribed then. One that subscribes only later is never told.
   */
  lemma FoundReaches(s: Daemon, id: nat, d: nat, ch: nat, name: string)
    requires Inv(s) && id in s.clients && d < MAX_DOCKS && ch < MAX_CHANNELS && MissedNothing(s, id, d)
    requires s.docks[d].state == Connected && s.docks[d].events == [] && !s.docks[d].modules[ch].connected
    ensures var m := ChangeDock(s, d, s.docks[d].ProcessCommand(Found(ch, name)));
      && Inv(m) && s.clients[id].WellFormed()
      && (Knows(Round(m), id, d) <==> s.clients[id].ready && s.clients[id].subscribed[d])
  {
    var c, dock := s.clients[id], s.docks[d];
    var e := dock.ProcessCommand(Found(ch, name));
    assert InSync(s.docks, c);
    assert ApplyAll(c.tables[d], []) == c.tables[d];
    FoundSent(dock, ch, name, c.tables[d]);
    LineInv(s, d, Found(ch, name));
    var m := ChangeDock(s, d, e);
    hide Inv, Agrees, ApplyAll, UpdateFrom, Dock.ProcessCommand;
    TableEffect(m, 0, id, d);
    ModulesEffect(m, 0, d);
  }

  //
  // The daemon object
  //

  lemma {:induction false} SendAllSnoc(c: Client, d: nat, es: seq<Event>, e: Event)
    requires c.WellFormed() && d < MAX_DOCKS
    ensures c.SendAll(d, es + [e]) == c.SendAll(d, es).Send(d, e)
    decreases es
  {
    if es == [] {
      assert [] + [e] == [e] && [e][1..] == [];
    } else {
      assert (es + [e])[1..] == es[1..] + [e];
      SendAllSnoc(c.Send(d, es[0]), d, es[1..], e);
    }
  }

  lemma TakeSnoc(c: Client, d: nat, cs: seq<Command>, command: Command)
    requires c.WellFormed() && d < MAX_DOCKS
    ensures c.Take(d, cs + [command]) == c.Take(d, cs).Take(d, [command])
  {
    assert c.got + (cs + [command]) == c.got + cs + [command];
  }

  lemma NothingHanded(clients: map<nat, Client>, d: nat)
    requires WellFormedClients(clients) && d < MAX_DOCKS
    ensures Handed(clients, d, []) == clients
    ensures forall id :: id in clients ==> clients[id].Take(d, []) == clients[id]
  {
    forall id | id in clients ensures clients[id].Take(d, []) == clients[id] {
      assert clients[id].got + [] == clients[id].got;
    }
  }

  class Server {
    const docks: seq<FlotillaDock>
    var clients: map<nat, Client>

    ghost function Modules(): (s: set<FlotillaModule>)
      ensures forall i, j :: 0 <= i < |docks| && 0 <= j < |docks[i].modules| ==> docks[i].modules[j] in s
    {
      set i, j | 0 <= i < |docks| && 0 <= j < |docks[i].modules| :: docks[i].modules[j]
    }

    static ghost predicate Apart(a: seq<FlotillaModule>, b: seq<FlotillaModule>) {
      forall m :: m in a ==> m !in b
    }

    /** The docks and their modules are separate objects. */
    ghost predicate Separate() {
      && |docks| == MAX_DOCKS
      && (forall i :: 0 <= i < MAX_DOCKS ==> docks[i].Separate())
      && (forall i, j :: 0 <= i < j < MAX_DOCKS ==> docks[i] != docks[j] && Apart(docks[i].modules, docks[j].modules))
    }

    ghost function Abs(): Daemon
      reads this, docks, Modules()
    {
      Daemon(seq(|docks|, i requires 0 <= i < |docks| reads docks, Modules() => docks[i].Abs()), clients)
    }

    constructor (docks: seq<FlotillaDock>)
      ensures this.docks == docks && clients == map[]
    {
      this.docks := docks;
      clients := map[];
    }

    /** The snapshot of one dock, as it adds up in a client. */
    method SendSnapshot(d: nat) returns (t: Table)
      requires Separate() && d < MAX_DOCKS
      ensures t == ApplyAll(EmptyTable(), Snapshot(docks[d].Abs(), 0))
    {
      ghost var dock := docks[d].Abs();
      t := EmptyTable();
      if docks[d].state != Connected {
        assert Snapshot(dock, 0) == [];
        return;
      }
      for ch := 0 to MAX_CHANNELS
        invariant ApplyAll(t, Snapshot(dock, ch)) == ApplyAll(EmptyTable(), Snapshot(dock, 0))
      {
        if !docks[d].modules[ch].connected { continue; }
        var e := Event(docks[d].index, ch, true, docks[d].modules[ch].name);
        assert ([e] + Snapshot(dock, ch + 1))[1..] == Snapshot(dock, ch + 1);
        t := Apply(t, e);
      }
    }

    method InitClient(id: nat)
      requires Separate() && id in clients
      modifies this`clients
      ensures Abs() == Daemon(old(Abs()).docks, old(clients)[id := Initialised(old(Abs()).docks, old(clients)[id])])
    {
      var tables: seq<Table> := [];
      for d := 0 to MAX_DOCKS
        invariant |tables| == d && clients == old(clients)
        invariant forall k :: 0 <= k < d ==> tables[k] == ApplyAll(EmptyTable(), Snapshot(docks[k].Abs(), 0))
      {
        var t := SendSnapshot(d);
        tables := tables + [t];
      }
      assert Abs().docks == old(Abs()).docks;
      assert tables == Snapshots(old(Abs()).docks);
      var c := clients[id];
      clients := clients[id := c.(tables := tables, missed := NoneMissed())];
      assert forall k :: 0 <= k < MAX_DOCKS ==> Abs().docks[k] == old(Abs()).docks[k];
      assert Abs().docks == old(Abs()).docks;
      assert clients[id] == Initialised(old(Abs()).docks, c);
    }

    /** One packet, to every client that is ready and subscribed. */
    method SendToClients(p: Packet, d: nat)
      requires d < MAX_DOCKS && WellFormedClients(clients)
      modifies this`clients
      ensures clients == map id | id in old(clients) :: old(clients)[id].Receive(d, p)
    {
      var todo := clients.Keys;
      while todo != {}
        invariant clients.Keys == old(clients).Keys && todo <= clients.Keys
        invariant forall id :: id in clients ==>
          clients[id] == if id in todo then old(clients)[id] else old(clients)[id].Receive(d, p)
        decreases todo
      {
        var id :| id in todo;
        clients := clients[id := clients[id].Receive(d, p)];
        todo := todo - {id};
      }
    }

    method UpdateClients()
      requires Separate() && Inv(Abs())
      modifies this`clients, docks, Modules()
      ensures Abs() == UpdateFrom(old(Abs()), 0)
    {
      for d := 0 to MAX_DOCKS
        invariant Inv(Abs())
        invariant UpdateFrom(Abs(), d) == UpdateFrom(old(Abs()), 0)
      {
        ghost var s := Abs();
        UpdateDockInv(s, d);
        UpdateOne(d);
      }
    }

    /** One dock: its events to the clients, then the values its modules have. */
    method TurnOf(d: nat)
      requires Separate() && d < MAX_DOCKS && WellFormedClients(clients) && Valid(docks[d].Abs())
      modifies this`clients, docks[d], docks[d].modules
      ensures var dock := old(docks[d].Abs());
        var drained := dock.(events := []);
        var (commands, polled) := if dock.state == Connected then drained.PendingCommands(0) else ([], drained);
        docks[d].Abs() == polled && clients == Handed(Drained(old(clients), d, dock.events), d, commands)
    {
      forall ch | 0 <= ch < MAX_CHANNELS ensures docks[d].modules[ch].Abs().Valid() {
        assert docks[d].Abs().modules[ch] == docks[d].modules[ch].Abs();
      }
      hide Drained, Handed, Dock.PendingCommands, Valid;
      var events := docks[d].GetPendingEvents();
      SendEvents(events, d);
      if docks[d].state == Connected {
        var commands := docks[d].GetPendingCommands();
        SendCommands(commands, d);
      } else {
        NothingHanded(clients, d);
      }
    }

    method UpdateOne(d: nat)
      requires Separate() && Inv(Abs()) && d < MAX_DOCKS
      modifies this`clients, docks[d], docks[d].modules
      ensures Abs() == UpdateDock(old(Abs()), d)
    {
      ghost var s := Abs();
      assert s.docks[d] == docks[d].Abs() && Valid(s.docks[d]) && WellFormedClients(clients);
      hide Inv, Drained, Handed, Dock.PendingCommands, Valid;
      TurnOf(d);
      forall k | 0 <= k < MAX_DOCKS && k != d ensures docks[k].Abs() == s.docks[k] {
        assert if k < d then Apart(docks[k].modules, docks[d].modules) else Apart(docks[d].modules, docks[k].modules);
        assert forall i :: 0 <= i < MAX_CHANNELS ==> docks[k].modules[i] !in docks[d].modules;
        assert docks[k].Abs().modules == s.docks[k].modules;
      }
      assert Abs().docks == s.docks[d := docks[d].Abs()];
    }

    method SendCommands(commands: seq<Command>, d: nat)
      requires d < MAX_DOCKS && WellFormedClients(clients)
      modifies this`clients
      ensures clients == Handed(old(clients), d, commands)
    {
      NothingHanded(clients, d);
      for i := 0 to |commands|
        invariant WellFormedClients(clients) && clients.Keys == old(clients).Keys
        invariant forall id :: id in clients ==> clients[id] == old(clients)[id].Take(d, commands[..i])
      {
        assert commands[..i + 1] == commands[..i] + [commands[i]];
        forall id | id in clients
          ensures old(clients)[id].Take(d, commands[..i + 1]) == clients[id].Take(d, [commands[i]])
        {
          TakeSnoc(old(clients)[id], d, commands[..i], commands[i]);
        }
        SendToClients(Value(commands[i]), d);
      }
      assert commands[..|commands|] == commands;
    }

    method SendEvents(events: seq<Event>, d: nat)
      requires d < MAX_DOCKS && WellFormedClients(clients)
      modifies this`clients
      ensures clients == Drained(old(clients), d, events)
    {
      for i := 0 to |events|
        invariant WellFormedClients(clients) && clients.Keys == old(clients).Keys
        invariant forall id :: id in clients ==> clients[id] == old(clients)[id].SendAll(d, events[..i])
      {
        forall id | id in clients
          ensures old(clients)[id].SendAll(d, events[..i + 1]) == clients[id].Send(d, events[i])
        {
          assert events[..i + 1] == events[..i] + [events[i]];
          SendAllSnoc(old(clients)[id], d, events[..i], events[i]);
        }
        SendToClients(Change(events[i]), d);
      }
      assert events[..|events|] == events;
    }
  }
}
