/**
 A dock and the events it has for the clients (Flotilla_Dock.cpp). Text lines from the dock arrive here already split
 into their parts, and events and commands are kept as values; `Text` and `CommandText` write them out as the clients
 receive them.
 */
module FlotillaDocks {
  import opened Wrappers
  import opened FlotillaModules

  const MAX_CHANNELS := 8
  const MAX_DOCKS := 8

  datatype DockState = Connecting | Connected | Disconnected

  datatype Event = Event(dock: nat, channel: nat, connected: bool, name: string)

  /** Lines from the dock; channels count from zero here. */
  datatype Line = Found(channel: nat, name: string) | Lost(channel: nat) | Data(channel: nat, data: string) | Comment

  function Digit(n: nat): char
    requires n < 10
  {
    ('0' as int + n) as char
  }

  function Text(e: Event): string
    requires e.dock < 10 && e.channel < 10
  {
    "Dock:" + [Digit(e.dock)] + " Data:" + (if e.connected then "c" else "d") + " " + [Digit(e.channel)] + "/" + e.name
  }

  /** A value from a module, for the clients. */
  datatype Command = Command(dock: nat, channel: nat, name: string, data: string)

  /** The packet `get_next_command` builds. */
  function CommandText(c: Command): string
    requires c.dock < 10 && c.channel < 10
  {
    "Dock:" + [Digit(c.dock)] + " Data:u " + [Digit(c.channel)] + "/" + c.name + " " + c.data
  }

  function UpToSpace(s: string): string {
    if s == "" || s[0] == ' ' then "" else [s[0]] + UpToSpace(s[1..])
  }

  lemma {:induction false} SpaceEnds(name: string, rest: string)
    requires ' ' !in name
    ensures UpToSpace(name + " " + rest) == name
  {
    if name == "" {
      assert "" + " " + rest == " " + rest;
    } else {
      assert (name + " " + rest)[1..] == name[1..] + " " + rest;
      SpaceEnds(name[1..], rest);
    }
  }

  /** What a client reads in a packet; module names hold no spaces. */
  function ParseCommand(s: string): Command
    requires |s| >= 16 && '0' <= s[5] <= '9' && '0' <= s[14] <= '9' && |UpToSpace(s[16..])| + 17 <= |s|
  {
    var name := UpToSpace(s[16..]);
    Command((s[5] - '0') as nat, (s[14] - '0') as nat, name, s[|name| + 17..])
  }

  /** Dock, channel, name and value are read off the packet, whatever the value. */
  lemma CommandReads(c: Command)
    requires c.dock < 10 && c.channel < 10 && ' ' !in c.name
    ensures var s := CommandText(c);
      && |s| >= 16 && '0' <= s[5] <= '9' && '0' <= s[14] <= '9' && |UpToSpace(s[16..])| + 17 <= |s|
      && ParseCommand(s) == c
  {
    var s := CommandText(c);
    assert s[16..] == c.name + " " + c.data;
    SpaceEnds(c.name, c.data);
    assert s[|c.name| + 17..] == c.data;
  }

  /** What a client reads in an event. */
  function Parse(s: string): Event
    requires |s| >= 16 && '0' <= s[5] <= '9' && '0' <= s[14] <= '9'
  {
    Event((s[5] - '0') as nat, (s[14] - '0') as nat, s[12] == 'c', s[16..])
  }

  /** The text of an event says which module it is about and what happened, whatever the module's name. */
  lemma TextReads(e: Event)
    requires e.dock < 10 && e.channel < 10
    ensures var s := Text(e); |s| >= 16 && '0' <= s[5] <= '9' && '0' <= s[14] <= '9' && Parse(s) == e
  {
  }

  /** How a module shows in a table of connected modules. */
  function Seen(connected: bool, name: string): Option<string> {
    if connected then Some(name) else None
  }

  datatype Dock = Dock(index: nat, state: DockState, modules: seq<Module>, events: seq<Event>) {
    function QueueModuleEvent(channel: nat): Dock
      requires channel < |modules|
    {
      this.(events := events + [Event(index, channel, modules[channel].connected, modules[channel].name)])
    }

    function ProcessCommand(line: Line): Dock {
      match line
      case Found(ch, name) =>
        if ch < |modules| then this.(modules := modules[ch := modules[ch].Connect(name)]).QueueModuleEvent(ch) else this
      case Lost(ch) =>
        if ch < |modules| then this.(modules := modules[ch := modules[ch].Disconnect()]).QueueModuleEvent(ch) else this
      case Data(ch, data) =>
        if ch < |modules| then this.(modules := modules[ch := modules[ch].QueueCommand(data)]) else this
      case Comment => this
    }

    /** Disconnects the modules from `channel` on. */
    function DropFrom(channel: nat): Dock
      decreases |modules| - channel
    {
      if channel >= |modules| then this
      else if !modules[channel].connected then DropFrom(channel + 1)
      else
        var d := this.(modules := modules[channel := modules[channel].Disconnect()]);
        d.QueueModuleEvent(channel).DropFrom(channel + 1)
    }

    function Disconnect(): Dock {
      if state == Disconnected then this else this.(state := Disconnected).DropFrom(0)
    }

    function SetPort(works: bool): Dock {
      if state != Disconnected || !works then this else this.(state := Connected)
    }

    /** The packet a value goes out in. */
    function Sent(channel: nat, data: Option<string>): seq<Command>
      requires channel < |modules|
    {
      match data
      case Some(c) => [Command(index, channel, modules[channel].name, c)]
      case None => []
    }

    /** Polls the connected modules from `channel` on. */
    function PendingCommands(channel: nat): (seq<Command>, Dock)
      decreases |modules| - channel
    {
      if channel >= |modules| then ([], this)
      else if !modules[channel].connected then PendingCommands(channel + 1)
      else
        var (r, m) := modules[channel].GetNextCommand();
        var (rest, d) := this.(modules := modules[channel := m]).PendingCommands(channel + 1);
        (Sent(channel, r) + rest, d)
    }
  }

  //
  // Tables kept by clients
  //

  type Table = t: seq<Option<string>> | |t| == MAX_CHANNELS witness seq(MAX_CHANNELS, _ => None)

  function Apply(t: Table, e: Event): Table {
    if e.channel < MAX_CHANNELS then t[e.channel := Seen(e.connected, e.name)] else t
  }

  function ApplyAll(t: Table, es: seq<Event>): Table
    decreases es
  {
    if es == [] then t else ApplyAll(Apply(t, es[0]), es[1..])
  }

  predicate Agrees(t: Table, modules: seq<Module>) {
    |modules| == MAX_CHANNELS && forall ch :: 0 <= ch < MAX_CHANNELS ==>
      t[ch] == Seen(modules[ch].connected, modules[ch].name)
  }

  /** What the events still queued for a channel end with, if there are any. */
  function LastWord(es: seq<Event>, ch: nat): Option<Event> {
    if es == [] then None
    else if es[|es| - 1].channel == ch then Some(es[|es| - 1])
    else LastWord(es[..|es| - 1], ch)
  }

  /**
   A dock that is not connected has no connected module, and for each channel the last event queued, if there is one,
   tells what the module is now.
   */
  predicate Valid(d: Dock) {
    && |d.modules| == MAX_CHANNELS
    && (d.state != Connected ==> forall ch :: 0 <= ch < MAX_CHANNELS ==> !d.modules[ch].connected)
    && Told(d.modules, d.events)
    && forall ch :: 0 <= ch < MAX_CHANNELS ==> d.modules[ch].Valid()
  }

  predicate Told(modules: seq<Module>, events: seq<Event>)
    requires |modules| == MAX_CHANNELS
  {
    forall ch :: 0 <= ch < MAX_CHANNELS ==>
      var w := LastWord(events, ch);
      w.Some? ==> Seen(w.value.connected, w.value.name) == Seen(modules[ch].connected, modules[ch].name)
  }

  lemma {:induction false} ApplyAllSnoc(t: Table, es: seq<Event>, e: Event)
    ensures ApplyAll(t, es + [e]) == Apply(ApplyAll(t, es), e)
    decreases es
  {
    if es == [] {
      assert [] + [e] == [e] && [e][1..] == [];
      assert ApplyAll(Apply(t, e), []) == Apply(t, e);
    } else {
      assert (es + [e])[1..] == es[1..] + [e];
      ApplyAllSnoc(Apply(t, es[0]), es[1..], e);
    }
  }

  /** Only the last event for a channel matters. */
  lemma {:induction false} ApplyAllLast(t: Table, es: seq<Event>, ch: nat)
    requires ch < MAX_CHANNELS
    ensures ApplyAll(t, es)[ch] == match LastWord(es, ch) case Some(e) => Seen(e.connected, e.name) case None => t[ch]
    decreases es
  {
    if es != [] {
      var front, e := es[..|es| - 1], es[|es| - 1];
      assert es == front + [e];
      ApplyAllSnoc(t, front, e);
      ApplyAllLast(t, front, ch);
    }
  }

  /** A table that agrees with the modules still does after the events queued. */
  lemma AgreesAfterEvents(t: Table, d: Dock)
    requires Valid(d) && Agrees(t, d.modules)
    ensures Agrees(ApplyAll(t, d.events), d.modules)
  {
    forall ch | 0 <= ch < MAX_CHANNELS
      ensures ApplyAll(t, d.events)[ch] == Seen(d.modules[ch].connected, d.modules[ch].name)
    {
      ApplyAllLast(t, d.events, ch);
    }
  }

  /** Changing a module and queueing its event keeps every listening table right. */
  lemma EventKeeps(t: Table, d: Dock, ch: nat, m: Module)
    requires ch < MAX_CHANNELS == |d.modules| && Told(d.modules, d.events) && m.Valid()
    ensures var e := d.(modules := d.modules[ch := m]).QueueModuleEvent(ch);
      && Told(e.modules, e.events)
      && (Agrees(ApplyAll(t, d.events), d.modules) ==> Agrees(ApplyAll(t, e.events), e.modules))
  {
    var e := d.(modules := d.modules[ch := m]).QueueModuleEvent(ch);
    var last := e.events[|e.events| - 1];
    assert e.events == d.events + [last] && e.events[..|e.events| - 1] == d.events;
    ApplyAllSnoc(t, d.events, last);
  }

  /** Every line from the dock keeps the invariant, and every listening table. */
  lemma ProcessCommandKeeps(t: Table, d: Dock, line: Line)
    requires Valid(d) && d.state == Connected
    ensures var e := d.ProcessCommand(line);
      Valid(e) && (Agrees(ApplyAll(t, d.events), d.modules) ==> Agrees(ApplyAll(t, e.events), e.modules))
  {
    match line
    case Found(ch, name) => if ch < MAX_CHANNELS { EventKeeps(t, d, ch, d.modules[ch].Connect(name)); }
    case Lost(ch) => if ch < MAX_CHANNELS { EventKeeps(t, d, ch, d.modules[ch].Disconnect()); }
    case Data(ch, data) =>
    case Comment =>
  }

  /** So does unplugging the dock, which leaves no module connected. */
  lemma {:induction false} DropKeeps(t: Table, d: Dock, channel: nat)
    requires |d.modules| == MAX_CHANNELS && Told(d.modules, d.events) && d.state != Connected
    requires forall ch :: 0 <= ch < MAX_CHANNELS ==> d.modules[ch].Valid()
    requires forall ch :: 0 <= ch < channel && ch < MAX_CHANNELS ==> !d.modules[ch].connected
    ensures var e := d.DropFrom(channel);
      && Valid(e) && e.state == d.state
      && (Agrees(ApplyAll(t, d.events), d.modules) ==> Agrees(ApplyAll(t, e.events), e.modules))
    decreases MAX_CHANNELS - channel
  {
    if channel < MAX_CHANNELS {
      if d.modules[channel].connected {
        var m := d.modules[channel].Disconnect();
        EventKeeps(t, d, channel, m);
        DropKeeps(t, d.(modules := d.modules[channel := m]).QueueModuleEvent(channel), channel + 1);
      } else {
        DropKeeps(t, d, channel + 1);
      }
    }
  }

  /** Polling for commands changes nothing a table shows. */
  lemma {:induction false} PollKeeps(d: Dock, channel: nat)
    requires Valid(d)
    ensures var e := d.PendingCommands(channel).1;
      && Valid(e) && e.events == d.events && e.state == d.state
      && forall t: Table :: Agrees(t, e.modules) <==> Agrees(t, d.modules)
    decreases MAX_CHANNELS - channel
  {
    if channel < MAX_CHANNELS {
      if d.modules[channel].connected {
        var m := d.modules[channel].GetNextCommand().1;
        assert m.connected && m.name == d.modules[channel].name && m.Valid();
        PollKeeps(d.(modules := d.modules[channel := m]), channel + 1);
      } else {
        PollKeeps(d, channel + 1);
      }
    }
  }

  //
  // The dock object
  //

  class FlotillaDock {
    const index: nat
    const modules: seq<FlotillaModule>
    var state: DockState
    var eventQueue: seq<Event>

    /** The modules are separate objects. */
    ghost predicate Separate() {
      |modules| == MAX_CHANNELS && forall i, j :: 0 <= i < j < |modules| ==> modules[i] != modules[j]
    }

    ghost function Abs(): Dock
      reads this, modules
    {
      Dock(index, state, seq(|modules|, i requires 0 <= i < |modules| reads modules => modules[i].Abs()), eventQueue)
    }

    constructor (index: nat, modules: seq<FlotillaModule>)
      requires |modules| == MAX_CHANNELS && forall i, j :: 0 <= i < j < |modules| ==> modules[i] != modules[j]
      ensures this.index == index && this.modules == modules && Separate() && state == Disconnected && eventQueue == []
    {
      this.index, this.modules := index, modules;
      state, eventQueue := Disconnected, [];
    }

    method QueueModuleEvent(channel: nat)
      requires channel < |modules|
      modifies this`eventQueue
      ensures Abs() == old(Abs()).QueueModuleEvent(channel)
    {
      eventQueue := eventQueue + [Event(index, channel, modules[channel].connected, modules[channel].name)];
    }

    method ProcessCommand(line: Line)
      requires Separate()
      modifies this`eventQueue, modules
      ensures Abs() == old(Abs()).ProcessCommand(line)
    {
      match line
      case Found(ch, name) =>
        if ch < MAX_CHANNELS {
          modules[ch].Connect(name);
          assert Abs() == old(Abs()).(modules := old(Abs()).modules[ch := old(modules[ch].Abs()).Connect(name)]);
          QueueModuleEvent(ch);
        }
      case Lost(ch) =>
        if ch < MAX_CHANNELS {
          modules[ch].Disconnect();
          assert Abs() == old(Abs()).(modules := old(Abs()).modules[ch := old(modules[ch].Abs()).Disconnect()]);
          QueueModuleEvent(ch);
        }
      case Data(ch, data) =>
        if ch < MAX_CHANNELS {
          modules[ch].QueueCommand(data);
          assert Abs().modules == old(Abs()).modules[ch := old(modules[ch].Abs()).QueueCommand(data)];
        }
      case Comment =>
    }

    /** Unplugged: every connected module is disconnected, and the clients will be told. */
    method Disconnect()
      requires Separate()
      modifies this, modules
      ensures Abs() == old(Abs()).Disconnect()
    {
      if state == Disconnected { return; }
      state := Disconnected;
      ghost var start := Abs();
      assert start == old(Abs()).(state := Disconnected);
      for x := 0 to MAX_CHANNELS
        invariant Abs().DropFrom(x) == start.DropFrom(0)
      {
        if modules[x].connected {
          ghost var d := Abs();
          modules[x].Disconnect();
          assert Abs() == d.(modules := d.modules[x := d.modules[x].Disconnect()]);
          QueueModuleEvent(x);
        }
      }
    }

    /** `works`: the port opens and answers with its version. */
    method SetPort(works: bool) returns (ok: bool)
      modifies this`state
      ensures Abs() == old(Abs()).SetPort(works)
      ensures ok <==> old(state) == Disconnected && works
    {
      if state != Disconnected { return false; }
      state := Connecting;
      if works {
        state := Connected;
        return true;
      }
      state := Disconnected;
      return false;
    }

    method GetPendingEvents() returns (events: seq<Event>)
      modifies this`eventQueue
      ensures events == old(eventQueue) && Abs() == old(Abs()).(events := [])
    {
      events := [];
      while |eventQueue| > 0
        invariant events + eventQueue == old(eventQueue)
      {
        events := events + [eventQueue[0]];
        eventQueue := eventQueue[1..];
      }
    }

    method GetNextCommand(channel: nat) returns (command: Option<Command>)
      requires Separate() && channel < MAX_CHANNELS && modules[channel].Abs().Valid()
      modifies modules[channel]
      ensures Abs() ==
        old(Abs()).(modules := old(Abs()).modules[channel := old(modules[channel].Abs()).GetNextCommand().1])
      ensures command == match old(modules[channel].Abs()).GetNextCommand().0
        case Some(data) => Some(Command(index, channel, old(modules[channel].name), data))
        case None => None
    {
      hide Module.GetNextCommand;
      var name := modules[channel].name;
      var data := modules[channel].GetNextCommand();
      assert Abs().modules == old(Abs()).modules[channel := old(modules[channel].Abs()).GetNextCommand().1];
      command := if data == "" then None else Some(Command(index, channel, name, data));
    }

    /** One module more. */
    static lemma PollNext(d: Dock, x: nat, commands: seq<Command>, all: seq<Command>)
      requires x < |d.modules| && commands + d.PendingCommands(x).0 == all
      ensures !d.modules[x].connected ==> d.PendingCommands(x) == d.PendingCommands(x + 1)
      ensures d.modules[x].connected ==>
        var (r, m) := d.modules[x].GetNextCommand();
        var next := d.(modules := d.modules[x := m]);
        && next.PendingCommands(x + 1).1 == d.PendingCommands(x).1
        && (commands + d.Sent(x, r)) + next.PendingCommands(x + 1).0 == all
    {
      hide Module.GetNextCommand, Dock.Sent;
      if d.modules[x].connected {
        var (r, m) := d.modules[x].GetNextCommand();
        var rest := d.(modules := d.modules[x := m]).PendingCommands(x + 1).0;
        assert (commands + d.Sent(x, r)) + rest == commands + (d.Sent(x, r) + rest);
      }
    }

    method GetPendingCommands() returns (commands: seq<Command>)
      requires Separate() && forall ch :: 0 <= ch < MAX_CHANNELS ==> modules[ch].Abs().Valid()
      modifies modules
      ensures commands == old(Abs()).PendingCommands(0).0 && Abs() == old(Abs()).PendingCommands(0).1
    {
      commands := [];
      ghost var (all, last) := Abs().PendingCommands(0);
      for x := 0 to MAX_CHANNELS
        invariant forall ch :: x <= ch < MAX_CHANNELS ==> modules[ch].Abs().Valid()
        invariant commands + Abs().PendingCommands(x).0 == all && Abs().PendingCommands(x).1 == last
      {
        hide Module.GetNextCommand, Dock.PendingCommands;
        ghost var d := Abs();
        PollNext(d, x, commands, all);
        if !modules[x].connected { continue; }
        var command := GetNextCommand(x);
        assert Abs() == d.(modules := d.modules[x := d.modules[x].GetNextCommand().1]);
        if command.Some? {
          commands := commands + [command.value];
        } else {
          assert commands + [] == commands;
        }
      }
    }
  }
}
