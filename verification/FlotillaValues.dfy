/**
 From a line of a dock to what a client is sent: the values of a module, over whole runs of the daemon.
 */
module FlotillaValues {
  import opened Wrappers
  import opened Polling
  import opened FlotillaModules
  import opened FlotillaDocks
  import opened Flotilla

  //
  // What is said of a run
  //

  /** The values dock `d` reports for the module on channel `ch`. */
  function Values(actions: seq<Action>, d: nat, ch: nat): seq<string> {
    if actions == [] then [] else ValueOf(actions[0], d, ch) + Values(actions[1..], d, ch)
  }

  function ValueOf(a: Action, d: nat, ch: nat): seq<string> {
    match a
    case LineRead(k, Data(c, v)) => if k == d && c == ch && v != "" then [v] else []
    case _ => []
  }

  /** The values of that module among those a client was sent. */
  function Heard(got: seq<Command>, d: nat, ch: nat): seq<string> {
    if got == [] then []
    else (if got[0].dock == d && got[0].channel == ch then [got[0].data] else []) + Heard(got[1..], d, ch)
  }

  /** The module stays, nothing is forwarded to it, and the client goes on listening. */
  predicate Undisturbed(a: Action, id: nat, d: nat, ch: nat) {
    match a
    case LineRead(k, line) => !(k == d && line == Lost(ch))
    case Unplugged(k) => k != d
    case Forwarded(k, c) => !(k == d && c == ch)
    case Opened(i) => i != id
    case Closed(i) => i != id
    case Pause(i) => i != id
    case Unsubscribe(i, k) => !(i == id && k == d)
    case _ => true
  }

  function Rounds(n: nat): seq<Action> {
    if n == 0 then [] else [UpdateClients] + Rounds(n - 1)
  }

  //
  // Docks know their number
  //

  predicate Indexed(s: Daemon) {
    |s.docks| == MAX_DOCKS && forall k :: 0 <= k < MAX_DOCKS ==> s.docks[k].index == k
  }

  lemma {:induction false} DropIndex(d: Dock, channel: nat)
    ensures d.DropFrom(channel).index == d.index
    decreases |d.modules| - channel
  {
    if channel < |d.modules| {
      if d.modules[channel].connected {
        var e := d.(modules := d.modules[channel := d.modules[channel].Disconnect()]);
        DropIndex(e.QueueModuleEvent(channel), channel + 1);
      } else {
        DropIndex(d, channel + 1);
      }
    }
  }

  /** What polling from a channel on does to the module on one channel, and what it gives of it. */
  lemma {:induction false} PendingOf(d: Dock, from: nat, ch: nat)
    requires ch < |d.modules|
    ensures var (cs, e) := d.PendingCommands(from);
      && e.index == d.index && e.state == d.state && |e.modules| == |d.modules|
      && (forall k :: k != d.index ==> Heard(cs, k, ch) == [])
      && if from <= ch && d.modules[ch].connected then
           var (r, m) := d.modules[ch].GetNextCommand();
           e.modules[ch] == m && Heard(cs, d.index, ch) == (match r case Some(v) => [v] case None => [])
         else e.modules[ch] == d.modules[ch] && Heard(cs, d.index, ch) == []
    decreases |d.modules| - from
  {
    hide Module.GetNextCommand;
    if from < |d.modules| {
      if d.modules[from].connected {
        var (r, m) := d.modules[from].GetNextCommand();
        var next := d.(modules := d.modules[from := m]);
        PendingOf(next, from + 1, ch);
        HeardConcat(d.Sent(from, r), next.PendingCommands(from + 1).0, d.index, ch);
        forall k | k != d.index ensures Heard(d.PendingCommands(from).0, k, ch) == [] {
          HeardConcat(d.Sent(from, r), next.PendingCommands(from + 1).0, k, ch);
          HeardSent(d, from, r, k, ch);
        }
        HeardSent(d, from, r, d.index, ch);
      } else {
        PendingOf(d, from + 1, ch);
      }
    }
  }

  lemma HeardSent(d: Dock, from: nat, r: Option<string>, k: nat, ch: nat)
    requires from < |d.modules|
    ensures Heard(d.Sent(from, r), k, ch) == if r.Some? && k == d.index && from == ch then [r.value] else []
  {
    if r.Some? {
      assert d.Sent(from, r)[1..] == [];
    }
  }

  lemma {:induction false} HeardConcat(a: seq<Command>, b: seq<Command>, d: nat, ch: nat)
    ensures Heard(a + b, d, ch) == Heard(a, d, ch) + Heard(b, d, ch)
  {
    if a == [] {
      assert a + b == b;
    } else {
      assert (a + b)[1..] == a[1..] + b;
      HeardConcat(a[1..], b, d, ch);
    }
  }

  //
  // A round
  //

  /** What one poll gives. */
  function Polled(m: Module): seq<string> {
    match m.GetNextCommand().0
    case Some(v) => [v]
    case None => []
  }

  predicate Live(d: Dock, ch: nat) {
    d.state == Connected && ch < |d.modules| && d.modules[ch].connected
  }

  lemma TurnModule(s: Daemon, k: nat, d: nat, ch: nat)
    requires Inv(s) && Indexed(s) && k < MAX_DOCKS && d < MAX_DOCKS && ch < MAX_CHANNELS
    ensures |s.docks[d].modules| == MAX_CHANNELS && WellFormedClients(s.clients)
    ensures var next := UpdateDock(s, k);
      && Indexed(next) && next.docks[d].state == s.docks[d].state && |next.docks[d].modules| == MAX_CHANNELS
      && next.docks[d].modules[ch] ==
        if k == d && Live(s.docks[d], ch) then s.docks[d].modules[ch].GetNextCommand().1 else s.docks[d].modules[ch]
  {
    InvFacts(s, 0);
    assert Valid(s.docks[k]) && Valid(s.docks[d]);
    hide Inv, Valid, WellFormedClients, Drained, Handed, Dock.PendingCommands, Module.GetNextCommand;
    PendingOf(s.docks[k].(events := []), 0, ch);
  }

  /** A round polls the module once, if it and its dock are connected. */
  lemma {:induction false} RoundModule(s: Daemon, from: nat, d: nat, ch: nat)
    requires Inv(s) && Indexed(s) && from <= MAX_DOCKS && d < MAX_DOCKS && ch < MAX_CHANNELS
    ensures |s.docks[d].modules| == MAX_CHANNELS && WellFormedClients(s.clients)
    ensures var r := UpdateFrom(s, from);
      && Indexed(r) && r.docks[d].state == s.docks[d].state && |r.docks[d].modules| == MAX_CHANNELS
      && r.docks[d].modules[ch] ==
        if from <= d && Live(s.docks[d], ch) then s.docks[d].modules[ch].GetNextCommand().1 else s.docks[d].modules[ch]
    decreases MAX_DOCKS - from
  {
    InvFacts(s, 0);
    assert Valid(s.docks[d]);
    hide Inv, UpdateFrom, UpdateDock, Module.GetNextCommand, WellFormedClients, Valid;
    Unfolds(s, from);
    if from < MAX_DOCKS {
      TurnModule(s, from, d, ch);
      UpdateDockInv(s, from);
      PollStays(s.docks[d].modules[ch]);
      RoundModule(UpdateDock(s, from), from + 1, d, ch);
    }
  }

  lemma PollStays(m: Module)
    ensures var n := m.GetNextCommand().1; n.connected == m.connected && n.name == m.name
  {
  }

  lemma DueFromHeard(dock: Dock, d: nat, ch: nat)
    requires ch < |dock.modules|
    ensures Heard(DueFrom(dock), d, ch) == if d == dock.index && Live(dock, ch) then Polled(dock.modules[ch]) else []
  {
    PendingOf(dock.(events := []), 0, ch);
    hide Dock.PendingCommands, Module.GetNextCommand;
  }

  /** Of one module a round sends a listening client what that poll gives. */
  lemma {:induction false} DueHeard(docks: seq<Dock>, c: Client, from: nat, d: nat, ch: nat)
    requires |docks| == |c.subscribed| == MAX_DOCKS && from <= MAX_DOCKS && d < MAX_DOCKS && ch < MAX_CHANNELS
    requires forall k :: 0 <= k < MAX_DOCKS ==> docks[k].index == k && |docks[k].modules| == MAX_CHANNELS
    ensures Heard(Due(docks, c, from), d, ch) ==
      if from <= d && c.ready && c.subscribed[d] && Live(docks[d], ch) then Polled(docks[d].modules[ch]) else []
    decreases MAX_DOCKS - from
  {
    if from < MAX_DOCKS {
      DueUnfolds(docks, c, from);
      var now := DueNow(docks[from], c.ready && c.subscribed[from]);
      HeardConcat(now, Due(docks, c, from + 1), d, ch);
      DueFromHeard(docks[from], d, ch);
      DueHeard(docks, c, from + 1, d, ch);
      hide Due, DueFrom, Live, Polled;
    }
  }

  //
  // A step
  //

  lemma StartIndexed()
    ensures Indexed(Start())
  {
  }

  lemma StepIndexed(s: Daemon, a: Action)
    requires Inv(s) && Indexed(s) && Possible(s, a)
    ensures Indexed(Step(s, a))
  {
    match a
    case UpdateClients =>
      RoundModule(s, 0, 0, 0);
      hide Inv, UpdateFrom;
    case Unplugged(d) =>
      DropIndex(s.docks[d].(state := Disconnected), 0);
      hide Inv, Dock.DropFrom;
    case LineRead(d, line) =>
      assert s.docks[d].ProcessCommand(line).index == d;
      hide Inv, Dock.ProcessCommand;
    case PortFound(d, _) => hide Inv;
    case UpdateQueued(d, ch, data) => hide Inv;
    case Forwarded(d, ch) => hide Inv, Module.GetNextUpdate;
    case _ => hide Inv;
  }

  /** Client `id` listens to dock `d`, and a module is connected to its channel `ch`. */
  predicate Listening(s: Daemon, id: nat, d: nat, ch: nat) {
    && Inv(s) && Indexed(s) && d < MAX_DOCKS && ch < MAX_CHANNELS && Live(s.docks[d], ch)
    && Tuned(s, id, d)
  }

  predicate Tuned(s: Daemon, id: nat, d: nat) {
    id in s.clients && s.clients[id].ready && d < |s.clients[id].subscribed| && s.clients[id].subscribed[d]
  }

  /** What an action is to the queue of the module. */
  function OpOf(a: Action, d: nat, ch: nat): seq<Op<string>> {
    match a
    case LineRead(k, Data(c, v)) => if k == d && c == ch && v != "" then [Put(v)] else []
    case UpdateClients => [Take]
    case _ => []
  }

  function Ops(actions: seq<Action>, d: nat, ch: nat): seq<Op<string>> {
    if actions == [] then [] else OpOf(actions[0], d, ch) + Ops(actions[1..], d, ch)
  }

  /** The step does to the queue and to the client what `ops` say. */
  predicate Follows(s: Daemon, t: Daemon, id: nat, d: nat, ch: nat, ops: seq<Op<string>>)
    requires Listening(s, id, d, ch) && Listening(t, id, d, ch)
  {
    var m, n := s.docks[d].modules[ch], t.docks[d].modules[ch];
    && n.name == m.name
    && n.Commands() == Polling.Run(m.CommandMode(), m.Commands(), ops)
    && Heard(t.clients[id].got, d, ch) ==
      Heard(s.clients[id].got, d, ch) + Delivered(m.CommandMode(), m.Commands(), ops)
  }

  lemma OneOp(mode: Mode, q: Queue<string>, op: Op<string>)
    ensures Polling.Run(mode, q, [op]) == Polling.After(mode, q, op)
    ensures Delivered(mode, q, [op]) == if op.Take? then Result(mode, q) else []
  {
    assert [op][1..] == [];
    var next := Polling.After(mode, q, op);
    assert Polling.Run(mode, next, []) == next;
  }

  lemma NoOps(mode: Mode, q: Queue<string>)
    ensures Polling.Run(mode, q, []) == q && Delivered(mode, q, []) == []
  {
  }

  lemma DockStepFollows(s: Daemon, a: Action, id: nat, d: nat, ch: nat)
    requires Listening(s, id, d, ch) && Possible(s, a) && Undisturbed(a, id, d, ch)
    requires OfDock(a)
    ensures Listening(Step(s, a), id, d, ch)
    ensures Follows(s, Step(s, a), id, d, ch, OpOf(a, d, ch))
  {
    hide Inv, Dock.DropFrom, Poll, Heard, Polling.Run, Delivered;
    StepInv(s, a);
    StepIndexed(s, a);
    var m := s.docks[d].modules[ch];
    NoOps(m.CommandMode(), m.Commands());
    if OpOf(a, d, ch) != [] {
      OneOp(m.CommandMode(), m.Commands(), Put(a.line.data));
    }
  }

  lemma {:induction false} RoundTuned(s: Daemon, from: nat, id: nat)
    requires Inv(s) && id in s.clients && from <= MAX_DOCKS
    ensures WellFormedClients(s.clients)
    ensures var r := UpdateFrom(s, from);
      id in r.clients && r.clients[id].ready == s.clients[id].ready && r.clients[id].subscribed
        == s.clients[id].subscribed
    decreases MAX_DOCKS - from
  {
    hide UpdateFrom, UpdateDock, Inv, DueNow, TableAfter, WellFormedClients;
    InvFacts(s, id);
    Unfolds(s, from);
    if from < MAX_DOCKS {
      TurnEffect(s, from, id);
      RoundTuned(UpdateDock(s, from), from + 1, id);
    }
  }

  lemma PolledResult(m: Module)
    ensures Polled(m) == Result(m.CommandMode(), m.Commands())
    ensures m.GetNextCommand().1.Commands() == Poll(m.CommandMode(), m.Commands()).1
  {
  }

  lemma DockShapes(s: Daemon)
    requires Inv(s)
    ensures |s.docks| == MAX_DOCKS && forall k :: 0 <= k < MAX_DOCKS ==> |s.docks[k].modules| == MAX_CHANNELS
  {
  }

  lemma RoundFollows(s: Daemon, id: nat, d: nat, ch: nat)
    requires Listening(s, id, d, ch)
    ensures Listening(Step(s, UpdateClients), id, d, ch)
    ensures Follows(s, Step(s, UpdateClients), id, d, ch, [Take])
  {
    hide Inv, Due, UpdateFrom, Poll, Heard, Polled, Polling.Run, Delivered, Result, Module.GetNextCommand;
    var m, c := s.docks[d].modules[ch], s.clients[id];
    InvFacts(s, id);
    DockShapes(s);
    UpdateInv(s, 0);
    RoundModule(s, 0, d, ch);
    RoundTuned(s, 0, id);
    RoundDelivers(s, 0, id);
    DueHeard(s.docks, c, 0, d, ch);
    HeardConcat(c.got, Due(s.docks, c, 0), d, ch);
    PollStays(m);
    PolledResult(m);
    OneOp(m.CommandMode(), m.Commands(), Take);
  }

  lemma ClientStepFollows(s: Daemon, a: Action, id: nat, d: nat, ch: nat)
    requires Listening(s, id, d, ch) && Possible(s, a) && Undisturbed(a, id, d, ch)
    requires a.Opened? || a.Closed? || a.Hello? || a.Ready? || a.Pause? || a.Subscribe? || a.Unsubscribe?
    ensures Listening(Step(s, a), id, d, ch)
    ensures Follows(s, Step(s, a), id, d, ch, [])
  {
    hide Inv, Snapshots, Poll, Heard, Polling.Run, Delivered;
    InvFacts(s, id);
    StepInv(s, a);
    StepIndexed(s, a);
    NoOps(s.docks[d].modules[ch].CommandMode(), s.docks[d].modules[ch].Commands());
  }

  /** One step of an undisturbed run. */
  lemma StepFollows(s: Daemon, a: Action, id: nat, d: nat, ch: nat)
    requires Listening(s, id, d, ch) && Possible(s, a) && Undisturbed(a, id, d, ch)
    ensures Listening(Step(s, a), id, d, ch)
    ensures Follows(s, Step(s, a), id, d, ch, OpOf(a, d, ch))
  {
    hide Listening, Follows, Step, Possible, Undisturbed;
    if a.UpdateClients? {
      RoundFollows(s, id, d, ch);
    } else if OfDock(a) {
      DockStepFollows(s, a, id, d, ch);
    } else {
      ClientStepFollows(s, a, id, d, ch);
    }
  }

  //
  // A run
  //

  lemma FollowsConcat(s: Daemon, t: Daemon, u: Daemon, id: nat, d: nat, ch: nat, a: seq<Op<string>>, b: seq<Op<string>>)
    requires Listening(s, id, d, ch) && Listening(t, id, d, ch) && Listening(u, id, d, ch)
    requires Follows(s, t, id, d, ch, a) && Follows(t, u, id, d, ch, b)
    ensures Follows(s, u, id, d, ch, a + b)
  {
    var m := s.docks[d].modules[ch];
    hide Listening, Heard, Polling.Run, Delivered;
    RunConcat(m.CommandMode(), m.Commands(), a, b);
    DeliveredConcat(m.CommandMode(), m.Commands(), a, b);
    Assoc(Heard(s.clients[id].got, d, ch), Delivered(m.CommandMode(), m.Commands(), a),
      Delivered(m.CommandMode(), Polling.Run(m.CommandMode(), m.Commands(), a), b));
  }

  predicate AllUndisturbed(actions: seq<Action>, id: nat, d: nat, ch: nat) {
    forall a :: a in actions ==> Undisturbed(a, id, d, ch)
  }

  lemma {:induction false} RunFollows(s: Daemon, actions: seq<Action>, id: nat, d: nat, ch: nat)
    requires Listening(s, id, d, ch) && PossibleRun(s, actions) && AllUndisturbed(actions, id, d, ch)
    ensures Listening(Flotilla.Run(s, actions), id, d, ch)
    ensures Follows(s, Flotilla.Run(s, actions), id, d, ch, Ops(actions, d, ch))
    decreases actions
  {
    hide Inv, Undisturbed, Step, Possible, OpOf, Follows;
    if actions == [] {
      NothingFollows(s, id, d, ch);
    } else {
      var next := Step(s, actions[0]);
      StepFollows(s, actions[0], id, d, ch);
      RunFollows(next, actions[1..], id, d, ch);
      hide Listening;
      FollowsConcat(s, next, Flotilla.Run(s, actions), id, d, ch, OpOf(actions[0], d, ch), Ops(actions[1..], d, ch));
    }
  }

  lemma NothingFollows(s: Daemon, id: nat, d: nat, ch: nat)
    requires Listening(s, id, d, ch)
    ensures Follows(s, s, id, d, ch, [])
  {
    var m := s.docks[d].modules[ch];
    NoOps(m.CommandMode(), m.Commands());
    assert Heard(s.clients[id].got, d, ch) + [] == Heard(s.clients[id].got, d, ch);
  }

  lemma {:induction false} QueuedConcat(a: seq<Op<string>>, b: seq<Op<string>>)
    ensures Queued(a + b) == Queued(a) + Queued(b)
  {
    if a == [] {
      assert a + b == b;
    } else {
      var first := if a[0].Put? then [a[0].value] else [];
      assert (a + b)[0] == a[0] && (a + b)[1..] == a[1..] + b;
      assert Queued(a + b) == first + Queued(a[1..] + b);
      hide Queued;
      QueuedConcat(a[1..], b);
      Assoc(first, Queued(a[1..]), Queued(b));
    }
  }

  /** The values queued are the values read. */
  lemma {:induction false} OpsQueueValues(actions: seq<Action>, d: nat, ch: nat)
    ensures Queued(Ops(actions, d, ch)) == Values(actions, d, ch)
  {
    if actions != [] {
      var op := OpOf(actions[0], d, ch);
      OpsQueueValues(actions[1..], d, ch);
      QueuedConcat(op, Ops(actions[1..], d, ch));
      assert op != [] ==> op[1..] == [];
    }
  }

  lemma {:induction false} OpsOfRounds(actions: seq<Action>, n: nat, d: nat, ch: nat)
    ensures Ops(actions + Rounds(n), d, ch) == Ops(actions, d, ch) + Takes(n)
    decreases |actions| + n
  {
    if actions == [] {
      assert actions + Rounds(n) == Rounds(n);
      if n > 0 {
        assert Rounds(n)[1..] == [] + Rounds(n - 1);
        OpsOfRounds([], n - 1, d, ch);
      }
    } else {
      assert (actions + Rounds(n))[1..] == actions[1..] + Rounds(n);
      OpsOfRounds(actions[1..], n, d, ch);
    }
  }

  /** A queue holds no more than was put in it. */
  lemma {:induction false} RunShort(mode: Mode, q: Queue<string>, ops: seq<Op<string>>)
    ensures |Polling.Run(mode, q, ops).values| <= |q.values| + |Queued(ops)|
    decreases ops
  {
    if ops != [] {
      RunShort(mode, Polling.After(mode, q, ops[0]), ops[1..]);
    }
  }

  lemma {:induction false} RoundsUndisturbed(actions: seq<Action>, n: nat, id: nat, d: nat, ch: nat)
    requires AllUndisturbed(actions, id, d, ch)
    ensures AllUndisturbed(actions + Rounds(n), id, d, ch)
  {
    if n > 0 {
      RoundsUndisturbed(actions, n - 1, id, d, ch);
    }
  }

  //
  // From the appearance of a module on
  //

  /** A module can appear on channel `ch` of dock `d`, to which client `id`, being ready, is subscribed. */
  predicate Appears(s: Daemon, id: nat, d: nat, ch: nat) {
    && d < |s.docks| == MAX_DOCKS && ch < |s.docks[d].modules| == MAX_CHANNELS && Tuned(s, id, d)
    && s.docks[d].state == Connected && !s.docks[d].modules[ch].connected
  }

  lemma AppearsListening(s: Daemon, name: string, id: nat, d: nat, ch: nat)
    requires Inv(s) && Indexed(s) && Appears(s, id, d, ch)
    ensures var t := Step(s, LineRead(d, Found(ch, name)));
      && Listening(t, id, d, ch) && t.clients[id].got == s.clients[id].got
      && var m := t.docks[d].modules[ch];
      m.name == name && m.Commands() == Queue([], s.docks[d].modules[ch].lastUpdate)
  {
    StepInv(s, LineRead(d, Found(ch, name)));
    hide Inv;
  }

  /** What the client hears of the module is what polling its queue delivers. */
  lemma HeardIsDelivered(s: Daemon, name: string, actions: seq<Action>, id: nat, d: nat, ch: nat)
    returns (heard: seq<string>)
    requires Inv(s) && Indexed(s) && Appears(s, id, d, ch) && AllUndisturbed(actions, id, d, ch)
    requires PossibleRun(s, [LineRead(d, Found(ch, name))] + actions)
    ensures var r := Flotilla.Run(s, [LineRead(d, Found(ch, name))] + actions);
      id in r.clients && Heard(r.clients[id].got, d, ch) == Heard(s.clients[id].got, d, ch) + heard
    ensures heard == Delivered(if name == "touch" then Every else Latest,
      Queue([], s.docks[d].modules[ch].lastUpdate), Ops(actions, d, ch))
  {
    var found := LineRead(d, Found(ch, name));
    assert ([found] + actions)[1..] == actions;
    AppearsListening(s, name, id, d, ch);
    hide Inv, Indexed, Step, AllUndisturbed, Ops, Delivered, Heard;
    RunFollows(Step(s, found), actions, id, d, ch);
    heard := Delivered(if name == "touch" then Every else Latest,
      Queue([], s.docks[d].modules[ch].lastUpdate), Ops(actions, d, ch));
  }

  lemma {:induction false} RunIndexed(s: Daemon, actions: seq<Action>)
    requires Inv(s) && Indexed(s) && PossibleRun(s, actions)
    ensures Indexed(Flotilla.Run(s, actions))
    decreases actions
  {
    hide Inv, Step, Possible, Indexed;
    if actions != [] {
      StepInv(s, actions[0]);
      StepIndexed(s, actions[0]);
      RunIndexed(Step(s, actions[0]), actions[1..]);
    }
  }

  lemma AfterIndexed(actions: seq<Action>)
    requires CanTake(actions)
    ensures Indexed(Flotilla.After(actions))
  {
    StartInv();
    StartIndexed();
    RunIndexed(Start(), actions);
  }

  /**
   After any run of the daemon: from the appearance of a module until it is lost, a client ready and subscribed
   throughout is sent, of that module, values its dock reported, in that order, and none twice in a row.
   */
  lemma ValuesReachClient(before: seq<Action>, name: string, actions: seq<Action>, id: nat, d: nat, ch: nat)
    returns (heard: seq<string>)
    requires CanTake(before) && Appears(Flotilla.After(before), id, d, ch) && AllUndisturbed(actions, id, d, ch)
    requires PossibleRun(Flotilla.After(before), [LineRead(d, Found(ch, name))] + actions)
    ensures var s := Flotilla.After(before);
      var r := Flotilla.Run(s, [LineRead(d, Found(ch, name))] + actions);
      && id in r.clients && Heard(r.clients[id].got, d, ch) == Heard(s.clients[id].got, d, ch) + heard
      && Distinct(s.docks[d].modules[ch].lastUpdate, heard) == heard
    ensures Subsequence(heard, Values(actions, d, ch))
  {
    var s := Flotilla.After(before);
    hide CanTake, Flotilla.After, Inv, Indexed, Distinct, Subsequence, Delivered, AllUndisturbed;
    AfterIndexed(before);
    heard := HeardIsDelivered(s, name, actions, id, d, ch);
    var mode := if name == "touch" then Every else Latest;
    var q := Queue([], s.docks[d].modules[ch].lastUpdate);
    DeliversQueued(mode, q, Ops(actions, d, ch));
    NeverRepeats(mode, q, Ops(actions, d, ch));
    OpsQueueValues(actions, d, ch);
    assert [] + Values(actions, d, ch) == Values(actions, d, ch);
  }

  /** The first value of a connection is missing exactly if it repeats the last one of the connection before. */
  lemma DistinctFrom(last: string, values: seq<string>)
    requires "" !in values
    ensures Distinct(last, values) == Distinct("", values) <==> values == [] || values[0] != last
  {
    if values != [] && values[0] == last {
      DistinctStarts(last, values[1..]);
    }
  }

  lemma {:induction false} DistinctStarts(last: string, values: seq<string>)
    ensures Distinct(last, values) == [] || Distinct(last, values)[0] != last
  {
    if values != [] {
      DistinctStarts(last, values[1..]);
    }
  }

  lemma {:induction false} ValuesNotEmpty(actions: seq<Action>, d: nat, ch: nat)
    ensures "" !in Values(actions, d, ch)
  {
    if actions != [] {
      ValuesNotEmpty(actions[1..], d, ch);
    }
  }

  /**
   Of a touch module it is sent every value reported, without adjacent duplicates, once as many rounds have passed as
   there were values.
   */
  lemma TouchValuesComplete(before: seq<Action>, actions: seq<Action>, n: nat, id: nat, d: nat, ch: nat)
    returns (heard: seq<string>)
    requires CanTake(before) && Appears(Flotilla.After(before), id, d, ch) && AllUndisturbed(actions, id, d, ch)
    requires PossibleRun(Flotilla.After(before), [LineRead(d, Found(ch, "touch"))] + (actions + Rounds(n)))
    requires n >= |Values(actions, d, ch)|
    ensures var s, values := Flotilla.After(before), Values(actions, d, ch);
      var r := Flotilla.Run(s, [LineRead(d, Found(ch, "touch"))] + (actions + Rounds(n)));
      && id in r.clients && Heard(r.clients[id].got, d, ch) == Heard(s.clients[id].got, d, ch) + heard
      && heard == Distinct(s.docks[d].modules[ch].lastUpdate, values)
      && (heard == Distinct("", values) <==> values == [] || values[0] != s.docks[d].modules[ch].lastUpdate)
  {
    var s := Flotilla.After(before);
    hide CanTake, Flotilla.After, Inv, Indexed, Distinct, Delivered, AllUndisturbed, Heard, PossibleRun, Flotilla.Run;
    AfterIndexed(before);
    RoundsUndisturbed(actions, n, id, d, ch);
    heard := HeardIsDelivered(s, "touch", actions + Rounds(n), id, d, ch);
    var q, ops := Queue([], s.docks[d].modules[ch].lastUpdate), Ops(actions, d, ch);
    OpsOfRounds(actions, n, d, ch);
    OpsQueueValues(actions, d, ch);
    RunShort(Every, q, ops);
    VolatileComplete(q, ops, n);
    assert q.values + Values(actions, d, ch) == Values(actions, d, ch);
    ValuesNotEmpty(actions, d, ch);
    DistinctFrom(q.last, Values(actions, d, ch));
  }

  /** Of any other module the last value it was sent is the latest reported, after one more round. */
  lemma LatestValueReaches(before: seq<Action>, name: string, actions: seq<Action>, id: nat, d: nat, ch: nat)
    returns (heard: seq<string>)
    requires CanTake(before) && Appears(Flotilla.After(before), id, d, ch) && AllUndisturbed(actions, id, d, ch)
    requires PossibleRun(Flotilla.After(before), [LineRead(d, Found(ch, name))] + (actions + Rounds(1)))
    requires name != "touch" && Values(actions, d, ch) != []
    ensures var s, values := Flotilla.After(before), Values(actions, d, ch);
      var r := Flotilla.Run(s, [LineRead(d, Found(ch, name))] + (actions + Rounds(1)));
      && id in r.clients && Heard(r.clients[id].got, d, ch) == Heard(s.clients[id].got, d, ch) + heard
      && LastOr(s.docks[d].modules[ch].lastUpdate, heard) == values[|values| - 1]
  {
    var s := Flotilla.After(before);
    hide CanTake, Flotilla.After, Inv, Indexed, Delivered, AllUndisturbed, Heard, PossibleRun, Flotilla.Run;
    AfterIndexed(before);
    RoundsUndisturbed(actions, 1, id, d, ch);
    heard := HeardIsDelivered(s, name, actions + Rounds(1), id, d, ch);
    var q, ops := Queue([], s.docks[d].modules[ch].lastUpdate), Ops(actions, d, ch);
    OpsOfRounds(actions, 1, d, ch);
    OpsQueueValues(actions, d, ch);
    assert q.values + Values(actions, d, ch) == Values(actions, d, ch);
    LatestDelivered(Latest, "", q, ops);
  }
}
