/**
 The hardware monitor: servers send it stall and unstall commands over pipes, it polls the CPU,
 and it tells every registered server when the CPU stops or starts.
 */
module StallMonitor {

  const MAX_MONITOR_CONNECTIONS := 5

  /**
   The pipes of one registered server: file descriptors of the two ends a server holds, and of the two
   the monitor holds; the commands waiting in one pipe and the messages waiting in the other. `seen`
   are the messages the server has read, `flag` is its own idea of whether the target is running, and
   `since` is how many messages had been broadcast when it registered.
   */
  datatype Connection = Connection(commandsOut: int, messagesOut: int, commandsIn: int, messagesIn: int,
                                   commands: string, unread: string, seen: string, flag: bool, since: nat)

  /** `log` is everything broadcast so far, to whoever was registered at the time. */
  datatype State = State(running: bool, stalled: bool, connections: seq<Connection>, log: string)

  // ---------- What each step does ----------

  function Tell(connections: seq<Connection>, message: char): (r: seq<Connection>)
    ensures |r| == |connections|
    ensures forall i :: 0 <= i < |r| ==> r[i] == connections[i].(unread := connections[i].unread + [message])
  {
    seq(|connections|, i requires 0 <= i < |connections| =>
      connections[i].(unread := connections[i].unread + [message]))
  }

  function Broadcast(s: State, message: char): State {
    s.(connections := Tell(s.connections, message), log := s.log + [message])
  }

  /** Starts or stops the CPU; `ok` is whether the write reached it. The monitor assumes that it did. */
  function StallCpu(s: State, stall: bool, ok: bool): State {
    s.(stalled := if ok then stall else s.stalled, running := !stall)
  }

  /** Carries out one command byte. */
  function Obeyed(s: State, cmd: char, ok: bool): State {
    if cmd == 'S' then
      Broadcast(if s.running then StallCpu(s, true, ok) else s, 'H')
    else if cmd == 'U' then
      Broadcast(if !s.running then StallCpu(s, false, ok) else s, 'R')
    else
      s
  }

  /** Reads one command from connection `i` and carries it out. */
  function Served(s: State, i: nat, ok: bool): (r: State)
    requires i < |s.connections|
    ensures |r.connections| == |s.connections|
  {
    var c := s.connections[i];
    if c.commands == [] then s
    else Obeyed(s.(connections := s.connections[i := c.(commands := c.commands[1..])]), c.commands[0], ok)
  }

  /** One command from each connection, from `i` on, whose descriptor is ready; some of their writes may fail. */
  function ServedFrom(s: State, i: nat, ready: set<int>, failing: set<nat>): (r: State)
    requires i <= |s.connections|
    ensures |r.connections| == |s.connections|
    decreases |s.connections| - i
  {
    if i == |s.connections| then s
    else
      var next := if s.connections[i].commandsIn in ready then Served(s, i, i !in failing) else s;
      ServedFrom(next, i + 1, ready, failing)
  }

  /** Looks at the CPU, if it is thought to be running. */
  function Polled(s: State): State {
    if s.running && s.stalled then Broadcast(s.(running := false), 'H') else s
  }

  /** A server registers; the operating system has chosen descriptors that are not open. */
  function Registered(s: State, c: Connection): State {
    if |s.connections| >= MAX_MONITOR_CONNECTIONS then s else s.(connections := s.connections + [c])
  }

  /** The first connection with these descriptors, or the number of connections. */
  function IndexOf(connections: seq<Connection>, commandsOut: int, messagesOut: int): (i: nat)
    ensures i <= |connections|
    ensures i < |connections| ==> connections[i].commandsOut == commandsOut && connections[i].messagesOut == messagesOut
    ensures forall j :: 0 <= j < i ==>
      connections[j].commandsOut != commandsOut || connections[j].messagesOut != messagesOut
  {
    if connections == [] then 0
    else if connections[0].commandsOut == commandsOut && connections[0].messagesOut == messagesOut then 0
    else 1 + IndexOf(connections[1..], commandsOut, messagesOut)
  }

  /** The last connection moves into the vacated place. */
  function Dropped(connections: seq<Connection>, i: nat): (r: seq<Connection>)
    requires i < |connections|
    ensures |r| == |connections| - 1
    ensures forall j :: 0 <= j < |r| ==> r[j] == connections[if j == i then |connections| - 1 else j]
  {
    connections[i := connections[|connections| - 1]][..|connections| - 1]
  }

  function Unregistered(s: State, commandsOut: int, messagesOut: int): State {
    var i := IndexOf(s.connections, commandsOut, messagesOut);
    if i == |s.connections| then s else s.(connections := Dropped(s.connections, i))
  }

  /** A server writes a command. */
  function Sent(s: State, i: nat, cmd: char): State
    requires i < |s.connections|
  {
    s.(connections := s.connections[i := s.connections[i].(commands := s.connections[i].commands + [cmd])])
  }

  /** A server reads a message, if there is one, and remembers whether the target runs. */
  function Received(c: Connection): Connection {
    if c.unread == [] then c
    else c.(unread := c.unread[1..], seen := c.seen + [c.unread[0]], flag := c.unread[0] == 'R')
  }

  // ---------- The protocol's invariant ----------

  /** What connection `c` has been told, read or not. */
  function Told(c: Connection): string {
    c.seen + c.unread
  }

  predicate LastSays(messages: string, running: bool) {
    messages != [] ==> (messages[|messages| - 1] == 'R') == running
  }

  /** A server was told everything since it registered, in order, and its flag is what it last read. */
  predicate Informed(c: Connection, log: string) {
    c.since <= |log| && Told(c) == log[c.since..] && LastSays(c.seen, c.flag)
  }

  predicate DistinctEnds(connections: seq<Connection>) {
    forall i, j :: 0 <= i < j < |connections| ==>
      && connections[i].commandsOut != connections[j].commandsOut
      && connections[i].messagesOut != connections[j].messagesOut
  }

  predicate Consistent(s: State) {
    && |s.connections| <= MAX_MONITOR_CONNECTIONS && DistinctEnds(s.connections)
    && (forall i :: 0 <= i < |s.connections| ==> Informed(s.connections[i], s.log))
    && LastSays(s.log, s.running) && (s.log == [] ==> s.running)
  }

  /** When the monitor takes the target to be stopped, the CPU is. */
  predicate Safe(s: State) {
    !s.running ==> s.stalled
  }

  /** A new registration: pipes that are empty and whose descriptors nobody else has. */
  predicate FreshFor(c: Connection, s: State) {
    && c.commands == c.unread == c.seen == [] && c.since == |s.log|
    && forall d :: d in s.connections ==> d.commandsOut != c.commandsOut && d.messagesOut != c.messagesOut
  }

  // ---------- Every step keeps it ----------

  lemma BroadcastInforms(s: State, message: char, running: bool)
    requires Consistent(s) && running == (message == 'R')
    ensures Consistent(Broadcast(s, message).(running := running))
  {
    var r := Broadcast(s, message);
    forall i | 0 <= i < |r.connections| ensures Informed(r.connections[i], r.log) {
      var c := s.connections[i];
      assert Informed(c, s.log);
      assert Told(r.connections[i]) == Told(c) + [message];
      assert r.log[c.since..] == s.log[c.since..] + [message];
    }
  }

  lemma ObeyedKeeps(s: State, cmd: char, ok: bool)
    requires Consistent(s)
    ensures Consistent(Obeyed(s, cmd, ok))
  {
    if cmd == 'S' {
      BroadcastInforms(s, 'H', false);
      assert Obeyed(s, cmd, ok) == Broadcast(s, 'H').(running := false).(stalled := Obeyed(s, cmd, ok).stalled);
    } else if cmd == 'U' {
      BroadcastInforms(s, 'R', true);
      assert Obeyed(s, cmd, ok) == Broadcast(s, 'R').(running := true).(stalled := Obeyed(s, cmd, ok).stalled);
    }
  }

  lemma ServedKeeps(s: State, i: nat, ok: bool)
    requires Consistent(s) && i < |s.connections|
    ensures Consistent(Served(s, i, ok))
  {
    var c := s.connections[i];
    if c.commands != [] {
      var r := s.(connections := s.connections[i := c.(commands := c.commands[1..])]);
      assert forall j :: 0 <= j < |s.connections| ==> Told(r.connections[j]) == Told(s.connections[j]);
      ObeyedKeeps(r, c.commands[0], ok);
    }
  }

  lemma {:induction false} ServedFromKeeps(s: State, i: nat, ready: set<int>, failing: set<nat>)
    requires Consistent(s) && i <= |s.connections|
    ensures Consistent(ServedFrom(s, i, ready, failing))
    ensures (forall j: nat :: i <= j < |s.connections| ==> j !in failing) && Safe(s) ==>
              Safe(ServedFrom(s, i, ready, failing))
    decreases |s.connections| - i
  {
    if i < |s.connections| {
      ServedKeeps(s, i, i !in failing);
      var next := if s.connections[i].commandsIn in ready then Served(s, i, i !in failing) else s;
      ServedFromKeeps(next, i + 1, ready, failing);
    }
  }

  lemma PolledKeeps(s: State)
    requires Consistent(s)
    ensures Consistent(Polled(s))
  {
    if s.running && s.stalled {
      BroadcastInforms(s, 'H', false);
    }
  }

  /** Exactly the named connection goes; the others stay as they are, whatever their places. */
  lemma DroppedExact(connections: seq<Connection>, i: nat, c: Connection)
    requires i < |connections| && DistinctEnds(connections)
    ensures c in Dropped(connections, i) <==> c in connections && c != connections[i]
    ensures DistinctEnds(Dropped(connections, i))
  {
    var r := Dropped(connections, i);
    var n := |r|;
    if c in connections && c != connections[i] {
      var j :| 0 <= j < |connections| && connections[j] == c;
      assert r[if j == n then i else j] == c;
    }
    forall a, b | 0 <= a < b < |r|
      ensures r[a].commandsOut != r[b].commandsOut && r[a].messagesOut != r[b].messagesOut
    {
      var a', b' := if a == i then n else a, if b == i then n else b;
      assert a' < b' || b' < a';
    }
  }

  lemma UnregisteredKeeps(s: State, commandsOut: int, messagesOut: int)
    requires Consistent(s)
    ensures Consistent(Unregistered(s, commandsOut, messagesOut))
    ensures (forall c :: c in Unregistered(s, commandsOut, messagesOut).connections
                         <==> c in s.connections && (c.commandsOut != commandsOut || c.messagesOut != messagesOut))
  {
    var i := IndexOf(s.connections, commandsOut, messagesOut);
    var r := Unregistered(s, commandsOut, messagesOut);
    if i < |s.connections| {
      forall c ensures c in r.connections <==> c in s.connections && c != s.connections[i] {
        DroppedExact(s.connections, i, c);
      }
      assert forall j :: 0 <= j < |s.connections| && j != i ==> s.connections[j].commandsOut != commandsOut;
    }
  }

  lemma RegisteredKeeps(s: State, c: Connection)
    requires Consistent(s) && FreshFor(c, s)
    ensures Consistent(Registered(s, c))
  {
    assert s.log[c.since..] == Told(c);
  }

  /** Writing a command and reading a message touch one connection, and leave what it was told alone. */
  lemma ConnectionKeeps(s: State, i: nat, c: Connection)
    requires Consistent(s) && i < |s.connections|
    requires c.commandsOut == s.connections[i].commandsOut && c.messagesOut == s.connections[i].messagesOut
    requires c.since == s.connections[i].since && Told(c) == Told(s.connections[i]) && LastSays(c.seen, c.flag)
    ensures Consistent(s.(connections := s.connections[i := c]))
  {
    var r := s.connections[i := c];
    forall j | 0 <= j < |r| ensures Informed(r[j], s.log) {
      assert Informed(s.connections[j], s.log);
    }
  }

  lemma ReceivedKeeps(s: State, i: nat)
    requires Consistent(s) && i < |s.connections|
    ensures Consistent(s.(connections := s.connections[i := Received(s.connections[i])]))
  {
    var c := s.connections[i];
    if c.unread != [] {
      assert c.seen + [c.unread[0]] + c.unread[1..] == Told(c);
    }
    assert Informed(c, s.log);
    ConnectionKeeps(s, i, Received(c));
  }

  // ---------- Whole runs ----------

  datatype Step =
    | Register(c: Connection)
    | Unregister(commandsOut: int, messagesOut: int)
    | Send(i: nat, cmd: char)
    | Serve(ready: set<int>, failing: set<nat>)
    | Poll
    | Halt
    | Receive(i: nat)

  function Do(s: State, step: Step): State {
    match step
    case Register(c) => Registered(s, c)
    case Unregister(co, mo) => Unregistered(s, co, mo)
    case Send(i, cmd) => if i < |s.connections| then Sent(s, i, cmd) else s
    case Serve(ready, failing) => ServedFrom(s, 0, ready, failing)
    case Poll => Polled(s)
    case Halt => s.(stalled := true)
    case Receive(i) =>
      if i < |s.connections| then s.(connections := s.connections[i := Received(s.connections[i])]) else s
  }

  /** The operating system gives a new registration descriptors and pipes of its own. */
  predicate Possible(s: State, step: Step) {
    step.Register? ==> FreshFor(step.c, s)
  }

  lemma StepKeeps(s: State, step: Step)
    requires Consistent(s) && Possible(s, step)
    ensures Consistent(Do(s, step))
    ensures Safe(s) && (step.Serve? ==> step.failing == {}) ==> Safe(Do(s, step))
  {
    match step
    case Register(c) => RegisteredKeeps(s, c);
    case Unregister(co, mo) => UnregisteredKeeps(s, co, mo);
    case Send(i, cmd) =>
      if i < |s.connections| {
        assert Informed(s.connections[i], s.log);
        ConnectionKeeps(s, i, Sent(s, i, cmd).connections[i]);
      }
    case Serve(ready, failing) => ServedFromKeeps(s, 0, ready, failing);
    case Poll => PolledKeeps(s);
    case Halt =>
    case Receive(i) => if i < |s.connections| { ReceivedKeeps(s, i); }
  }

  predicate AllPossible(s: State, steps: seq<Step>)
    decreases |steps|
  {
    steps == [] || (Possible(s, steps[0]) && AllPossible(Do(s, steps[0]), steps[1..]))
  }

  function Run(s: State, steps: seq<Step>): State
    decreases |steps|
  {
    if steps == [] then s else Run(Do(s, steps[0]), steps[1..])
  }

  /** The monitor starts by assuming that the target runs. */
  function Start(stalled: bool): State {
    State(true, stalled, [], [])
  }

  lemma {:induction false} RunKeeps(s: State, steps: seq<Step>)
    requires Consistent(s) && AllPossible(s, steps)
    ensures Consistent(Run(s, steps))
    ensures (Safe(s) && (forall step :: step in steps && step.Serve? ==> step.failing == {})) ==> Safe(Run(s, steps))
    decreases |steps|
  {
    if steps != [] {
      StepKeeps(s, steps[0]);
      assert steps[0] in steps;
      RunKeeps(Do(s, steps[0]), steps[1..]);
    }
  }

  /**
   In every reachable state: if control writes succeeded, a target taken to be stopped is stopped; and
   a server that has read something and has nothing left to read agrees with the monitor.
   */
  lemma ReachableAgrees(stalled: bool, steps: seq<Step>, i: nat)
    requires AllPossible(Start(stalled), steps)
    ensures (forall step :: step in steps && step.Serve? ==> step.failing == {}) ==> Safe(Run(Start(stalled), steps))
    ensures var s := Run(Start(stalled), steps);
            i < |s.connections| && s.connections[i].unread == [] && s.connections[i].seen != []
            ==> s.connections[i].flag == s.running
  {
    RunKeeps(Start(stalled), steps);
    var s := Run(Start(stalled), steps);
    if i < |s.connections| && s.connections[i].unread == [] && s.connections[i].seen != [] {
      var c := s.connections[i];
      assert c.seen == s.log[c.since..];
      assert c.seen[|c.seen| - 1] == s.log[|s.log| - 1];
    }
  }

  // ---------- When commands take effect ----------

  /** A command keeps the monitor safe, unless a stall did not get through to a running CPU. */
  lemma ObeyedSafe(s: State, cmd: char, ok: bool)
    requires Safe(s)
    ensures Safe(Obeyed(s, cmd, ok)) <==> ok || s.stalled || !s.running || cmd != 'S'
  {
  }

  /** An unstall command starts the CPU, unless it had halted and the monitor had not yet noticed. */
  lemma UnstallRuns(s: State)
    ensures !Obeyed(s, 'U', true).stalled <==> !(s.running && s.stalled)
  {
  }

  /** A CPU that halts by itself is noticed by the next poll, and every server is told exactly once. */
  lemma PollNotices(s: State, i: nat)
    requires s.running && i < |s.connections|
    ensures var r := Polled(s.(stalled := true));
            !r.running && Told(r.connections[i]) == Told(s.connections[i]) + "H" && Polled(r) == r
  {
    assert s.connections[i].seen + (s.connections[i].unread + "H") == Told(s.connections[i]) + "H";
  }

  /** What a server's pending commands would do, if they were all read. */
  function Drain(s: State, commands: string): State
    decreases |commands|
  {
    if commands == [] then s else Drain(Obeyed(s, commands[0], true), commands[1..])
  }

  /** The last stall or unstall among commands, if there is one. */
  function LastCommand(commands: string): (last: string)
    ensures last == "" || last == "S" || last == "U"
  {
    if commands == [] then ""
    else if LastCommand(commands[1..]) != "" then LastCommand(commands[1..])
    else if commands[0] == 'S' then "S"
    else if commands[0] == 'U' then "U"
    else ""
  }

  lemma {:induction false} LastIsThere(commands: string)
    ensures LastCommand(commands) == "S" ==> 'S' in commands
    ensures LastCommand(commands) == "" ==> 'S' !in commands
  {
    if commands != [] {
      LastIsThere(commands[1..]);
    }
  }

  /**
   Where draining leaves the CPU: the last command decides, except that an unstall does nothing while the
   monitor takes the target to be running.
   */
  lemma {:induction false} DrainDecides(s: State, commands: string)
    requires Safe(s)
    ensures (Drain(s, commands).stalled
             <==> if LastCommand(commands) == "S" then true
                  else if LastCommand(commands) == "U" then s.stalled && s.running && 'S' !in commands
                  else s.stalled)
    decreases |commands|
  {
    if commands != [] {
      DrainDecides(Obeyed(s, commands[0], true), commands[1..]);
      LastIsThere(commands[1..]);
      assert 'S' in commands <==> commands[0] == 'S' || 'S' in commands[1..];
    }
  }

  /**
   Commands still in the pipe when a server leaves are lost. Unregistering leaves the CPU where reading
   them would have exactly when there are none, or the last one asks for what the CPU is doing already,
   or it is an unstall that would have had no effect.
   */
  lemma LeavingLosesNothing(s: State, i: nat)
    requires Safe(s) && i < |s.connections|
    ensures var c := s.connections[i];
            var last := LastCommand(c.commands);
            (Unregistered(s, c.commandsOut, c.messagesOut).stalled == Drain(s, c.commands).stalled
             <==> last == "" || (last == "S") == s.stalled || (s.running && 'S' !in c.commands))
  {
    DrainDecides(s, s.connections[i].commands);
    LastIsThere(s.connections[i].commands);
  }

  /** An instance: a server that stalls the CPU, restarts it and unregisters can leave it stalled. */
  lemma LeavingLosesUnstall(c: Connection)
    requires FreshFor(c, Start(false))
    ensures var steps := [Register(c), Send(0, 'S'), Send(0, 'U'), Serve({c.commandsIn}, {}),
                          Unregister(c.commandsOut, c.messagesOut)];
            var s := Run(Start(false), steps);
            s.stalled && !s.running && s.connections == []
  {
    var s0 := Start(false);
    var s1 := Do(s0, Register(c));
    var s2 := Do(s1, Send(0, 'S'));
    var s3 := Do(s2, Send(0, 'U'));
    assert s3.connections[0].commands == "SU";
    var s4 := Do(s3, Serve({c.commandsIn}, {}));
    assert s4 == ServedFrom(Served(s3, 0, true), 1, {c.commandsIn}, {}) == Served(s3, 0, true);
    var s5 := Do(s4, Unregister(c.commandsOut, c.messagesOut));
    var u := Unregister(c.commandsOut, c.messagesOut);
    var sv := Serve({c.commandsIn}, {});
    assert [Register(c), Send(0, 'S'), Send(0, 'U'), sv, u][1..] == [Send(0, 'S'), Send(0, 'U'), sv, u];
    assert [Send(0, 'S'), Send(0, 'U'), sv, u][1..] == [Send(0, 'U'), sv, u];
    assert [Send(0, 'U'), sv, u][1..] == [sv, u];
    assert [sv, u][1..] == [u];
    assert Run(s4, [u]) == Run(s5, []);
    assert Run(s3, [sv, u]) == s5;
    assert Run(s2, [Send(0, 'U'), sv, u]) == s5;
    assert Run(s1, [Send(0, 'S'), Send(0, 'U'), sv, u]) == s5;
  }

  // ---------- The monitor itself ----------

  class Monitor {
    var threadRunning: bool
    var targetIsRunning: bool
    var numConnections: nat
    const connections: array<Connection>
    /** The stall bit of the CPU. */
    var stalled: bool
    ghost var log: string

    ghost predicate Valid()
      reads this
    {
      connections.Length == MAX_MONITOR_CONNECTIONS && numConnections <= MAX_MONITOR_CONNECTIONS
    }

    ghost function View(): State
      requires Valid()
      reads this, connections
    {
      State(targetIsRunning, stalled, connections[..numConnections], log)
    }

    /** `started` is whether the monitor thread could be created. */
    constructor (stalled: bool, unused: Connection, started: bool)
      ensures threadRunning == started
      ensures Valid() && View() == Start(stalled) && fresh(connections)
    {
      threadRunning, targetIsRunning, numConnections, this.stalled, log := started, true, 0, stalled, [];
      connections := new Connection[MAX_MONITOR_CONNECTIONS](_ => unused);
    }

    /** Returns 0 when the monitor is not running or has no room, and 1 otherwise; never a negative number. */
    method Register(pipes: Connection) returns (ret: int)
      requires Valid()
      modifies this`numConnections, connections
      ensures Valid() && View() == if threadRunning then Registered(old(View()), pipes) else old(View())
      ensures ret >= 0
      ensures ret == if threadRunning && |old(View()).connections| < 5 then 1 else 0
    {
      if !threadRunning {
        return 0;
      }
      if numConnections >= MAX_MONITOR_CONNECTIONS {
        return 0;
      }
      connections[numConnections] := pipes;
      numConnections := numConnections + 1;
      ret := 1;
    }

    /** Gives the server back its two descriptors, invalidated if they were found. */
    method Unregister(commandsOut: int, messagesOut: int) returns (co: int, mo: int)
      requires Valid()
      modifies this`numConnections, connections
      ensures Valid()
      ensures View() == if commandsOut < 0 || messagesOut < 0 then old(View())
                        else Unregistered(old(View()), commandsOut, messagesOut)
      ensures co == mo == -1 || (co == commandsOut && mo == messagesOut && View() == old(View()))
    {
      co, mo := commandsOut, messagesOut;
      if commandsOut < 0 || messagesOut < 0 {
        return;
      }
      ghost var all := connections[..numConnections];
      ghost var at := IndexOf(all, commandsOut, messagesOut);
      for i := 0 to numConnections
        invariant connections[..] == old(connections[..]) && i <= at
        invariant co == commandsOut && mo == messagesOut
      {
        assert all[i] == connections[i];
        if connections[i].commandsOut == commandsOut && connections[i].messagesOut == messagesOut {
          co, mo := -1, -1;
          if i != numConnections - 1 {
            connections[i] := connections[numConnections - 1];
          }
          numConnections := numConnections - 1;
          assert connections[..numConnections] == Dropped(all, i);
          return;
        }
      }
    }

    /** Writes to the CPU; `ok` is whether that succeeded. */
    method StallTarget(stall: bool, ok: bool)
      requires Valid()
      modifies this`targetIsRunning, this`stalled
      ensures View() == StallCpu(old(View()), stall, ok)
      ensures Safe(View()) <==> ok || !stall || old(stalled)
    {
      if ok {
        stalled := stall;
      }
      targetIsRunning := !stall;
    }

    method NotifyListeners(message: char)
      requires Valid()
      modifies this`log, connections
      ensures Valid() && View() == Broadcast(old(View()), message)
    {
      for i := 0 to numConnections
        invariant log == old(log)
        invariant forall j :: 0 <= j < numConnections ==>
          var c := old(connections[j]);
          connections[j] == if j < i then c.(unread := c.unread + [message]) else c
      {
        connections[i] := connections[i].(unread := connections[i].unread + [message]);
      }
      log := log + [message];
      assert connections[..numConnections] == Tell(old(connections[..numConnections]), message);
    }

    method Obey(cmd: char, ok: bool)
      requires Valid()
      modifies this`targetIsRunning, this`stalled, this`log, connections
      ensures Valid() && View() == Obeyed(old(View()), cmd, ok)
    {
      if cmd == 'S' {
        if targetIsRunning {
          StallTarget(true, ok);
        }
        NotifyListeners('H');
      } else if cmd == 'U' {
        if !targetIsRunning {
          StallTarget(false, ok);
        }
        NotifyListeners('R');
      }
    }

    /** Reads one command from connection `i`. */
    method Serve(i: nat, ok: bool)
      requires Valid() && i < numConnections
      modifies this`targetIsRunning, this`stalled, this`log, connections
      ensures Valid() && View() == Served(old(View()), i, ok)
    {
      var c := connections[i];
      if c.commands != [] {
        connections[i] := c.(commands := c.commands[1..]);
        assert connections[..numConnections] == old(connections[..numConnections])[i := connections[i]];
        Obey(c.commands[0], ok);
      }
    }

    /** One pass over the connections after the wait for commands. */
    method ServeReady(ready: set<int>, failing: set<nat>)
      requires Valid()
      modifies this`targetIsRunning, this`stalled, this`log, connections
      ensures Valid() && View() == ServedFrom(old(View()), 0, ready, failing)
    {
      ghost var was := View();
      for i := 0 to numConnections
        invariant Valid() && numConnections == old(numConnections)
        invariant ServedFrom(was, 0, ready, failing) == ServedFrom(View(), i, ready, failing)
      {
        assert View().connections[i] == connections[i];
        if connections[i].commandsIn in ready {
          Serve(i, i !in failing);
        }
      }
    }

    /** The poll that follows when no command arrived in time. */
    method PollTarget()
      requires Valid()
      modifies this`targetIsRunning, this`log, connections
      ensures Valid() && View() == Polled(old(View()))
    {
      if targetIsRunning {
        if stalled {
          targetIsRunning := false;
          NotifyListeners('H');
        }
      }
    }
  }
}
