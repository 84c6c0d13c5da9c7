/**
 A module plugged into a dock, and the two queues between it and the clients (Flotilla_Module.cpp).
 */
module FlotillaModules {
  import opened Wrappers
  import opened Polling

  datatype Module =
    Module(connected: bool, name: string, lastUpdate: string, commands: seq<string>, updates: seq<string>) {
    predicate Volatile() {
      name == "touch"
    }

    /** Nothing empty is ever queued. */
    predicate Valid() {
      "" !in commands && "" !in updates
    }

    function Commands(): Queue<string> {
      Queue(commands, lastUpdate)
    }

    function Updates(): Queue<string> {
      Queue(updates, lastUpdate)
    }

    function CommandMode(): Mode {
      if Volatile() then Every else Latest
    }

    function UpdateMode(): Mode {
      if Volatile() then Every else FirstThenLatest
    }

    function Connect(moduleName: string): Module {
      if connected then this else this.(connected := true, name := moduleName, commands := [])
    }

    function Disconnect(): Module {
      this.(connected := false, commands := [])
    }

    function QueueCommand(v: string): Module {
      if v == "" then this else this.(commands := commands + [v])
    }

    function QueueUpdate(v: string): Module {
      if v == "" then this else this.(updates := updates + [v])
    }

    /** What clients are sent next, if anything. */
    function GetNextCommand(): (Option<string>, Module) {
      var (r, q) := Poll(CommandMode(), Commands());
      (r, this.(commands := q.values, lastUpdate := q.last))
    }

    /** What the dock is sent next, if anything. */
    function GetNextUpdate(): (Option<string>, Module) {
      var (r, q) := Poll(UpdateMode(), Updates());
      (r, this.(updates := q.values, lastUpdate := q.last))
    }
  }

  class FlotillaModule {
    var connected: bool
    var name: string
    var lastUpdate: string
    var commandQueue: seq<string>
    var updateQueue: seq<string>

    ghost function Abs(): Module
      reads this
    {
      Module(connected, name, lastUpdate, commandQueue, updateQueue)
    }

    constructor ()
      ensures Abs() == Module(false, "", "", [], [])
    {
      connected, name, lastUpdate, commandQueue, updateQueue := false, "", "", [], [];
    }

    predicate IsVolatile()
      reads this
    {
      name == "touch"
    }

    method EmptyQueue()
      modifies this`commandQueue
      ensures commandQueue == []
    {
      if |commandQueue| > 0 {
        commandQueue := [];
      }
    }

    method Connect(moduleName: string)
      modifies this
      ensures Abs() == old(Abs()).Connect(moduleName)
    {
      if connected { return; }
      name := moduleName;
      EmptyQueue();
      connected := true;
    }

    method Disconnect()
      modifies this
      ensures Abs() == old(Abs()).Disconnect()
    {
      connected := false;
      EmptyQueue();
    }

    method QueueCommand(command: string)
      modifies this`commandQueue
      ensures Abs() == old(Abs()).QueueCommand(command)
    {
      if command == "" { return; }
      commandQueue := commandQueue + [command];
    }

    method QueueUpdate(update: string)
      modifies this`updateQueue
      ensures Abs() == old(Abs()).QueueUpdate(update)
    {
      if update == "" { return; }
      updateQueue := updateQueue + [update];
    }

    /** The next command, or the empty string. */
    method GetNextCommand() returns (command: string)
      requires Abs().Valid()
      modifies this`commandQueue, this`lastUpdate
      ensures Abs() == old(Abs()).GetNextCommand().1
      ensures match old(Abs()).GetNextCommand().0 case Some(c) => command == c && c != "" case None => command == ""
    {
      command := "";
      if |commandQueue| > 0 {
        if !IsVolatile() {
          while |commandQueue| > 1
            invariant |commandQueue| > 0 && lastUpdate == old(lastUpdate)
            invariant commandQueue[|commandQueue| - 1] == old(commandQueue[|commandQueue| - 1])
          {
            commandQueue := commandQueue[1..];
          }
          assert commandQueue == [old(commandQueue[|commandQueue| - 1])];
        }
        command := commandQueue[0];
        if |commandQueue| > 1 {
          commandQueue := commandQueue[1..];
        }
        assert command == Look(Abs().CommandMode(), old(commandQueue)).0 && command in old(commandQueue);
        assert commandQueue == Look(Abs().CommandMode(), old(commandQueue)).1;
        if command == lastUpdate {
          command := "";
        } else {
          lastUpdate := command;
        }
      }
    }

    /** The next update; `changed` is whether there is one to send. */
    method GetNextUpdate() returns (changed: bool, update: string)
      requires Abs().Valid()
      modifies this`updateQueue, this`lastUpdate
      ensures Abs() == old(Abs()).GetNextUpdate().1
      ensures old(Abs()).GetNextUpdate().0 == if changed then Some(update) else None
    {
      update := "";
      if |updateQueue| > 0 {
        update := updateQueue[0];
        if |updateQueue| > 1 {
          updateQueue := updateQueue[1..];
        }
        if !IsVolatile() {
          while |updateQueue| > 1
            invariant |updateQueue| > 0 && lastUpdate == old(lastUpdate)
            invariant updateQueue[|updateQueue| - 1] == old(updateQueue[|updateQueue| - 1])
          {
            updateQueue := updateQueue[1..];
          }
          assert updateQueue == [old(updateQueue[|updateQueue| - 1])];
        }
      }
      if old(updateQueue) != [] {
        assert update == Look(Abs().UpdateMode(), old(updateQueue)).0 && update in old(updateQueue);
        assert updateQueue == Look(Abs().UpdateMode(), old(updateQueue)).1;
      }
      if update == "" || lastUpdate == update {
        return false, update;
      }
      lastUpdate := update;
      return true, update;
    }
  }

  //
  // One direction active
  //

  function CommandStep(m: Module, op: Op<string>): Module {
    match op
    case Put(v) => m.QueueCommand(v)
    case Take => m.GetNextCommand().1
  }

  function RunCommands(m: Module, ops: seq<Op<string>>): Module
    decreases ops
  {
    if ops == [] then m else RunCommands(CommandStep(m, ops[0]), ops[1..])
  }

  function CommandsSent(m: Module, ops: seq<Op<string>>): seq<string>
    decreases ops
  {
    if ops == [] then []
    else
      var now := if ops[0].Put? then [] else match m.GetNextCommand().0 { case Some(v) => [v] case None => [] };
      now + CommandsSent(CommandStep(m, ops[0]), ops[1..])
  }

  function UpdateStep(m: Module, op: Op<string>): Module {
    match op
    case Put(v) => m.QueueUpdate(v)
    case Take => m.GetNextUpdate().1
  }

  function RunUpdates(m: Module, ops: seq<Op<string>>): Module
    decreases ops
  {
    if ops == [] then m else RunUpdates(UpdateStep(m, ops[0]), ops[1..])
  }

  function UpdatesSent(m: Module, ops: seq<Op<string>>): seq<string>
    decreases ops
  {
    if ops == [] then []
    else
      var now := if ops[0].Put? then [] else match m.GetNextUpdate().0 { case Some(v) => [v] case None => [] };
      now + UpdatesSent(UpdateStep(m, ops[0]), ops[1..])
  }

  lemma {:induction false} NoPuts<T>(n: nat, v: T)
    ensures Put(v) !in Takes(n)
  {
    if n > 0 {
      NoPuts(n - 1, v);
    }
  }

  lemma {:induction false} CommandsPolled(m: Module, ops: seq<Op<string>>)
    requires Put("") !in ops
    ensures CommandsSent(m, ops) == Delivered(m.CommandMode(), m.Commands(), ops)
    ensures RunCommands(m, ops).Commands() == Run(m.CommandMode(), m.Commands(), ops)
    decreases ops
  {
    if ops != [] {
      var next := CommandStep(m, ops[0]);
      CommandsPolled(next, ops[1..]);
      assert next.Commands() == After(m.CommandMode(), m.Commands(), ops[0]);
    }
  }

  lemma {:induction false} UpdatesPolled(m: Module, ops: seq<Op<string>>)
    requires Put("") !in ops
    ensures UpdatesSent(m, ops) == Delivered(m.UpdateMode(), m.Updates(), ops)
    ensures RunUpdates(m, ops).Updates() == Run(m.UpdateMode(), m.Updates(), ops)
    decreases ops
  {
    if ops != [] {
      var next := UpdateStep(m, ops[0]);
      UpdatesPolled(next, ops[1..]);
      assert next.Updates() == After(m.UpdateMode(), m.Updates(), ops[0]);
    }
  }

  /**
   A touch module's clients get every value queued, once, without adjacent duplicates, after as many polls as entries.
   */
  lemma TouchCommands(m: Module, ops: seq<Op<string>>, n: nat)
    requires m.Volatile() && Put("") !in ops && n >= |RunCommands(m, ops).commands|
    ensures CommandsSent(m, ops + Takes(n)) == Distinct(m.lastUpdate, m.commands + Queued(ops))
  {
    NoPuts<string>(n, "");
    CommandsPolled(m, ops);
    CommandsPolled(m, ops + Takes(n));
    VolatileComplete(m.Commands(), ops, n);
  }

  lemma TouchUpdates(m: Module, ops: seq<Op<string>>, n: nat)
    requires m.Volatile() && Put("") !in ops && n >= |RunUpdates(m, ops).updates|
    ensures UpdatesSent(m, ops + Takes(n)) == Distinct(m.lastUpdate, m.updates + Queued(ops))
  {
    NoPuts<string>(n, "");
    UpdatesPolled(m, ops);
    UpdatesPolled(m, ops + Takes(n));
    VolatileComplete(m.Updates(), ops, n);
  }

  /** Any other module's clients have the latest value after one more poll. */
  lemma LatestCommand(m: Module, ops: seq<Op<string>>)
    requires !m.Volatile() && Put("") !in ops && m.commands + Queued(ops) != []
    ensures LastOr(m.lastUpdate, CommandsSent(m, ops + Takes(1))) == LastOr("", m.commands + Queued(ops))
  {
    NoPuts<string>(1, "");
    CommandsPolled(m, ops + Takes(1));
    LatestDelivered(Latest, "", m.Commands(), ops);
  }

  /** Its dock has the latest update after two. */
  lemma LatestUpdate(m: Module, ops: seq<Op<string>>)
    requires !m.Volatile() && Put("") !in ops && m.updates + Queued(ops) != []
    ensures LastOr(m.lastUpdate, UpdatesSent(m, ops + Takes(2))) == LastOr("", m.updates + Queued(ops))
  {
    NoPuts<string>(2, "");
    UpdatesPolled(m, ops + Takes(2));
    LatestDelivered(FirstThenLatest, "", m.Updates(), ops);
  }

  /** For every module: what is sent was queued, in that order, and nothing is sent twice in a row. */
  lemma SentWasQueued(m: Module, ops: seq<Op<string>>)
    requires Put("") !in ops
    ensures Subsequence(CommandsSent(m, ops), Fresh(m.Commands()) + Queued(ops))
    ensures Subsequence(UpdatesSent(m, ops), Fresh(m.Updates()) + Queued(ops))
    ensures Distinct(m.lastUpdate, CommandsSent(m, ops)) == CommandsSent(m, ops)
    ensures Distinct(m.lastUpdate, UpdatesSent(m, ops)) == UpdatesSent(m, ops)
  {
    CommandsPolled(m, ops);
    UpdatesPolled(m, ops);
    DeliversQueued(m.CommandMode(), m.Commands(), ops);
    DeliversQueued(m.UpdateMode(), m.Updates(), ops);
    NeverRepeats(m.CommandMode(), m.Commands(), ops);
    NeverRepeats(m.UpdateMode(), m.Updates(), ops);
  }

  //
  // Where it goes wrong: `last_update` is shared by both directions and, like the update queue, outlives a connection
  //

  /**
   The first value of a new connection reaches the clients exactly if it differs from the last one of the old
   connection.
   */
  lemma ReconnectSwallows(m: Module, name: string, v: string)
    requires v != ""
    ensures m.Disconnect().Connect(name).QueueCommand(v).GetNextCommand().0 == Some(v) <==> v != m.lastUpdate
  {
  }

  /**
   A newly connected module is sent an update meant for the old one exactly if one was queued and was not the last
   sent.
   */
  lemma StaleUpdate(m: Module, name: string)
    ensures m.Disconnect().Connect(name).GetNextUpdate().0.Some? <==> m.updates != [] && m.updates[0] != m.lastUpdate
  {
  }

  /** An update already sent is sent again exactly if a different value was delivered to the clients in between. */
  lemma UpdateResent(m: Module, u: string, v: string)
    requires m.commands == [] && v != ""
    requires m.updates == [u] && m.lastUpdate == u
    ensures m.QueueCommand(v).GetNextCommand().1.GetNextUpdate().0 == Some(u) <==> v != u
  {
  }
}
