/**
 * The server side (UnityDemo/TcpServer.cs): the running flag, the registry of connected clients,
 * the per-connection receive handlers that run the framer, and the unicast and broadcast senders.
 *
 * Every operation is atomic.  A handler task (`HandleClientAsync`) is split into the steps at
 * which the model lets other operations interleave: its entry, each turn of its receive loop,
 * and its `finally` block.  Everything observable (notifications, socket writes and closes) is appended
 * to one event log.  Whether a socket reports `Connected`, whether a write fails and what a read
 * returns are supplied by the caller, standing for the transport.
 */
module Server {
  import opened Framing

  /** The identity of one accepted `TcpClient`. */
  type ClientId = nat

  /** What the server makes observable: its notifications and what it does to sockets. */
  datatype Event =
    | ServerStarted
    | ServerStopped
    | ClientConnected(client: ClientId)
    | ClientDisconnected(client: ClientId)
    | DataReceived(client: ClientId, message: string)
    | ErrorOccurred
    | Written(client: ClientId, data: string)  // the text handed to `WriteAsync`, before UTF-8 encoding
    | Closed(client: ClientId)                 // the client's stream and socket were closed

  // ---------------------------------------------------------------------------------------------
  // The registry as a list
  // ---------------------------------------------------------------------------------------------

  /** No client occurs twice. */
  predicate Distinct(s: seq<ClientId>)
  {
    forall i, j :: 0 <= i < j < |s| ==> s[i] != s[j]
  }

  /** The clients of a registry, as a set. */
  function Members(s: seq<ClientId>): set<ClientId>
  {
    set c | c in s
  }

  /** A registry without repetitions has as many entries as members. */
  lemma {:induction false} DistinctCount(s: seq<ClientId>)
    ensures Distinct(s) ==> |Members(s)| == |s|
  {
    if s != [] && Distinct(s) {
      DistinctCount(s[1..]);
      assert Members(s) == {s[0]} + Members(s[1..]);
      assert s[0] !in Members(s[1..]) by {
        assert forall j :: 1 <= j < |s| ==> s[j] != s[0];
      }
    }
  }

  /** `List<T>.Remove`: drops the first occurrence of `x`, if any. */
  function RemoveFirst(s: seq<ClientId>, x: ClientId): (r: seq<ClientId>)
    ensures x in s ==> |r| == |s| - 1
    ensures x !in s ==> r == s
  {
    if s == [] then []
    else if s[0] == x then s[1..]
    else [s[0]] + RemoveFirst(s[1..], x)
  }

  /** Removal takes exactly one occurrence of the client out of the registry, and nothing else. */
  lemma {:induction false} RemoveFirstCounts(s: seq<ClientId>, x: ClientId)
    ensures multiset(RemoveFirst(s, x)) == multiset(s) - multiset{x}
  {
    if s != [] {
      assert s == [s[0]] + s[1..];
      if s[0] != x {
        RemoveFirstCounts(s[1..], x);
      }
    }
  }

  /** In a registry without repetitions, removing a client removes it entirely and keeps every other. */
  lemma {:induction false} RemoveFirstDistinct(s: seq<ClientId>, x: ClientId)
    requires Distinct(s)
    ensures Distinct(RemoveFirst(s, x))
    ensures x !in RemoveFirst(s, x)
    ensures forall y :: y in RemoveFirst(s, x) <==> y in s && y != x
  {
    if s != [] {
      if s[0] == x {
        assert forall j :: 1 <= j < |s| ==> s[j] != x;
      } else {
        RemoveFirstDistinct(s[1..], x);
        assert forall y :: y in s <==> y == s[0] || y in s[1..];
        assert s[0] !in s[1..] by {
          assert forall j :: 1 <= j < |s| ==> s[j] != s[0];
        }
      }
    }
  }

  // ---------------------------------------------------------------------------------------------
  // What the senders append to the log
  // ---------------------------------------------------------------------------------------------

  /** One `DataReceived` notification per delivered frame, in order. */
  function Receipts(client: ClientId, messages: seq<string>): seq<Event>
  {
    seq(|messages|, k requires 0 <= k < |messages| => DataReceived(client, messages[k]))
  }

  /** `SendToClientAsync`: nothing for a blank message or a disconnected client; else one write of the framed message, or an error. */
  function SendLog(client: ClientId, message: string, connected: bool, writeOk: bool): seq<Event>
  {
    if IsBlank(message) || !connected then []
    else if writeOk then [Written(client, Encode(message))]
    else [ErrorOccurred]
  }

  /** The sends of a broadcast over `targets`: one per target that reports `Connected`, in snapshot order. */
  function Fanout(targets: seq<ClientId>, message: string, connected: set<ClientId>, failing: set<ClientId>): seq<Event>
  {
    if targets == [] then []
    else
      (if targets[0] in connected then SendLog(targets[0], message, true, targets[0] !in failing) else [])
      + Fanout(targets[1..], message, connected, failing)
  }

  /** `BroadcastAsync`: nothing for a blank message; else the fan-out over the snapshot. */
  function BroadcastLog(snapshot: seq<ClientId>, message: string, connected: set<ClientId>, failing: set<ClientId>): seq<Event>
  {
    if IsBlank(message) then [] else Fanout(snapshot, message, connected, failing)
  }

  /** A broadcast writes to a client exactly when the client is in the snapshot, reports `Connected` and its write succeeds. */
  lemma {:induction false} FanoutWrites(targets: seq<ClientId>, message: string, connected: set<ClientId>, failing: set<ClientId>, c: ClientId)
    requires !IsBlank(message)
    ensures Written(c, Encode(message)) in Fanout(targets, message, connected, failing)
        <==> c in targets && c in connected && c !in failing
  {
    if targets != [] {
      FanoutWrites(targets[1..], message, connected, failing, c);
      assert c in targets <==> c == targets[0] || c in targets[1..] by {
        assert targets == [targets[0]] + targets[1..];
      }
    }
  }

  /** Every event of a broadcast is a write of the framed message to a snapshot member that reports `Connected`, or an error. */
  lemma {:induction false} FanoutOnlyConnected(targets: seq<ClientId>, message: string, connected: set<ClientId>, failing: set<ClientId>)
    ensures forall e :: e in Fanout(targets, message, connected, failing) ==>
      e == ErrorOccurred || (e.Written? && e.client in targets && e.client in connected && e.data == Encode(message))
  {
    if targets != [] {
      FanoutOnlyConnected(targets[1..], message, connected, failing);
    }
  }

  /**
   * A blank message is not broadcast; otherwise the writes go to exactly the connected snapshot
   * members whose write succeeds, and every other event is an error.
   */
  lemma BroadcastReachesExactlyConnected(snapshot: seq<ClientId>, message: string, connected: set<ClientId>, failing: set<ClientId>)
    ensures IsBlank(message) ==> BroadcastLog(snapshot, message, connected, failing) == []
    ensures !IsBlank(message) ==> forall c ::
      (Written(c, Encode(message)) in BroadcastLog(snapshot, message, connected, failing) <==>
        c in snapshot && c in connected && c !in failing)
    ensures forall e :: e in BroadcastLog(snapshot, message, connected, failing) ==>
      e == ErrorOccurred || (e.Written? && e.client in snapshot && e.client in connected && e.data == Encode(message))
  {
    if !IsBlank(message) {
      forall c
        ensures Written(c, Encode(message)) in BroadcastLog(snapshot, message, connected, failing)
          <==> c in snapshot && c in connected && c !in failing
      {
        FanoutWrites(snapshot, message, connected, failing, c);
      }
      FanoutOnlyConnected(snapshot, message, connected, failing);
    }
  }

  /**
   * The registry invariant: a client is registered at most once and only while its handler runs
   * (it has a buffer), and between reads no buffer holds a delimiter.
   */
  predicate Registry(clients: seq<ClientId>, buffers: map<ClientId, string>)
  {
    && Distinct(clients)
    && (forall c :: c in clients ==> c in buffers)
    && (forall c :: c in buffers ==> Delimiter !in buffers[c])
  }

  /** A handler's `finally` keeps the invariant: the client leaves the registry together with its buffer. */
  lemma RegistryRemove(clients: seq<ClientId>, buffers: map<ClientId, string>, c: ClientId)
    requires Registry(clients, buffers)
    ensures Registry(RemoveFirst(clients, c), buffers - {c})
    ensures c !in RemoveFirst(clients, c)
  {
    RemoveFirstDistinct(clients, c);
  }

  /** A handler's entry keeps the invariant: a client without a buffer is not registered yet. */
  lemma RegistryAdd(clients: seq<ClientId>, buffers: map<ClientId, string>, c: ClientId)
    requires Registry(clients, buffers) && c !in buffers
    ensures Registry(clients + [c], buffers[c := []])
  {
    assert forall i :: 0 <= i < |clients| ==> clients[i] in buffers;
  }

  /** Framing a chunk keeps the invariant: the buffer is replaced by a delimiter-free remainder. */
  lemma RegistryUpdate(clients: seq<ClientId>, buffers: map<ClientId, string>, c: ClientId, rest: string)
    requires Registry(clients, buffers) && c in buffers && Delimiter !in rest
    ensures Registry(clients, buffers[c := rest])
  {
  }

  // ---------------------------------------------------------------------------------------------
  // The life of one connection, as seen in the log
  // ---------------------------------------------------------------------------------------------

  /** Events that announce neither a connection nor a disconnection. */
  predicate Quiet(events: seq<Event>)
  {
    forall e :: e in events ==> !e.ClientConnected? && !e.ClientDisconnected?
  }

  /**
   * The lifecycle invariant.  `used` holds every connection ever accepted, `waiting` those whose
   * handler has not started, `handlers` the buffers of those whose handler runs.  A waiting
   * connection has not been announced; a running one has been announced and has not left; a
   * connection that left was announced before (entry being one step here); and each connection
   * is announced, and leaves, at most once.
   */
  ghost predicate Lifecycle(log: seq<Event>, used: set<ClientId>, waiting: set<ClientId>, handlers: map<ClientId, string>)
  {
    && waiting <= used
    && (forall c :: c in waiting ==> ClientConnected(c) !in log)
    && (forall c :: c in handlers ==> c in used && c !in waiting)
    && (forall c :: c in handlers ==> ClientConnected(c) in log && ClientDisconnected(c) !in log)
    && (forall e :: e in log && e.ClientConnected? ==> e.client in used)
    && (forall e :: e in log && e.ClientDisconnected? ==> ClientConnected(e.client) in log)
    && (forall e :: e in log && (e.ClientConnected? || e.ClientDisconnected?) ==> multiset(log)[e] == 1)
  }

  /** Quiet events (writes, closes, errors, start and stop) keep the invariant. */
  lemma LifecycleQuiet(log: seq<Event>, used: set<ClientId>, waiting: set<ClientId>, handlers: map<ClientId, string>, events: seq<Event>)
    requires Lifecycle(log, used, waiting, handlers) && Quiet(events)
    ensures Lifecycle(log + events, used, waiting, handlers)
  {
    forall e | e in log + events && (e.ClientConnected? || e.ClientDisconnected?)
      ensures multiset(log + events)[e] == 1
    {
      assert e !in events;
      assert multiset(log + events) == multiset(log) + multiset(events);
    }
  }

  /** Accepting a connection never seen before keeps the invariant: it waits, unannounced. */
  lemma LifecycleAccept(log: seq<Event>, used: set<ClientId>, waiting: set<ClientId>, handlers: map<ClientId, string>, c: ClientId)
    requires Lifecycle(log, used, waiting, handlers) && c !in used
    ensures Lifecycle(log, used + {c}, waiting + {c}, handlers)
  {
  }

  /** A handler's entry keeps the invariant: its connection is announced for the first and only time. */
  lemma LifecycleEnter(log: seq<Event>, used: set<ClientId>, waiting: set<ClientId>, handlers: map<ClientId, string>, c: ClientId)
    requires Lifecycle(log, used, waiting, handlers) && c in waiting
    ensures Lifecycle(log + [ClientConnected(c)], used, waiting - {c}, handlers[c := []])
    ensures multiset(log + [ClientConnected(c)])[ClientConnected(c)] == 1
  {
    assert multiset(log + [ClientConnected(c)]) == multiset(log) + multiset{ClientConnected(c)};
    assert multiset(log)[ClientConnected(c)] == 0;
  }

  /** Framing a chunk keeps the invariant: the handler's buffer changes, its connection's state does not. */
  lemma LifecycleRefill(log: seq<Event>, used: set<ClientId>, waiting: set<ClientId>, handlers: map<ClientId, string>, c: ClientId, rest: string)
    requires Lifecycle(log, used, waiting, handlers) && c in handlers
    ensures Lifecycle(log, used, waiting, handlers[c := rest])
  {
  }

  /** What a handler's exit logs: the error if it failed, then the close and the disconnection. */
  function Farewell(c: ClientId, failed: bool): seq<Event>
  {
    (if failed then [ErrorOccurred] else []) + [Closed(c), ClientDisconnected(c)]
  }

  /** A handler's exit keeps the invariant: its connection leaves for the first and only time. */
  lemma LifecycleExit(log: seq<Event>, used: set<ClientId>, waiting: set<ClientId>, handlers: map<ClientId, string>, c: ClientId, failed: bool)
    requires Lifecycle(log, used, waiting, handlers) && c in handlers
    ensures Lifecycle(log + Farewell(c, failed), used, waiting, handlers - {c})
    ensures multiset(log + Farewell(c, failed))[ClientDisconnected(c)] == 1
  {
    var reported := (if failed then [ErrorOccurred] else []) + [Closed(c)];
    LifecycleQuiet(log, used, waiting, handlers, reported);
    var before := log + reported;
    assert log + Farewell(c, failed) == before + [ClientDisconnected(c)];
    assert multiset(before + [ClientDisconnected(c)]) == multiset(before) + multiset{ClientDisconnected(c)};
    assert multiset(before)[ClientDisconnected(c)] == 0;
  }

  /** A connection that has left stays gone: it is neither waiting nor live, and it never leaves again. */
  lemma DisconnectionIsFinal(log: seq<Event>, used: set<ClientId>, waiting: set<ClientId>, handlers: map<ClientId, string>, c: ClientId)
    requires Lifecycle(log, used, waiting, handlers) && ClientDisconnected(c) in log
    ensures c in used && c !in waiting && c !in handlers
    ensures multiset(log)[ClientConnected(c)] == 1 && multiset(log)[ClientDisconnected(c)] == 1
  {
  }

  /** One `Closed` event per registered client, in registry order. */
  function CloseAll(clients: seq<ClientId>): seq<Event>
  {
    seq(|clients|, k requires 0 <= k < |clients| => Closed(clients[k]))
  }

  // ---------------------------------------------------------------------------------------------
  // The server object
  // ---------------------------------------------------------------------------------------------

  class TcpServer {
    /** `_isRunning`.  The cancellation token is absent or cancelled exactly when this is false. */
    var running: bool
    /** `_connectedClients`. */
    var clients: seq<ClientId>
    /** Connections the accept loop has taken whose handler task has not started yet. */
    var accepted: set<ClientId>
    /** One entry per handler task still running: the contents of its private `messageBuilder`. */
    var buffers: map<ClientId, string>
    /** Everything the server made observable, oldest first. */
    var log: seq<Event>
    /** Every connection the accept loop has ever taken: each accepted socket is a new object. */
    ghost var used: set<ClientId>

    /** The registry and lifecycle invariants: waiting connections are `accepted`, live ones have a buffer. */
    ghost predicate Valid()
      reads this
    {
      && Registry(clients, buffers)
      && Lifecycle(log, used, accepted, buffers)
    }

    constructor ()
      ensures Valid()
      ensures !running && clients == [] && accepted == {} && buffers == map[] && log == [] && used == {}
    {
      running := false;
      clients := [];
      accepted := {};
      buffers := map[];
      log := [];
      used := {};
    }

    /** `IsRunning`. */
    function IsRunning(): bool
      reads this
    {
      running
    }

    /** `ConnectedClientsCount`: the number of registered clients, each counted once. */
    function ConnectedClientsCount(): (n: nat)
      reads this
      ensures n == |clients|
      ensures Distinct(clients) ==> n == |Members(clients)|
    {
      DistinctCount(clients);
      |clients|
    }

    /** `Start`: a no-op while running; otherwise the server runs and announces it. */
    method Start()
      requires Valid()
      modifies this
      ensures Valid()
      ensures running && clients == old(clients) && accepted == old(accepted) && buffers == old(buffers) && used == old(used)
      ensures log == old(log) + (if old(running) then [] else [ServerStarted])
    {
      if running {
        return;
      }
      LifecycleQuiet(log, used, accepted, buffers, [ServerStarted]);
      running := true;
      log := log + [ServerStarted];
    }

    /**
     * The accept loop takes connection `c` and hands it to a new handler task.  Once stopped, the
     * accept loop has ended and nothing is accepted.
     */
    method AcceptClient(c: ClientId)
      requires Valid()
      requires c !in used  // an accepted socket is a new object
      modifies this
      ensures Valid()
      ensures running == old(running) && clients == old(clients) && buffers == old(buffers) && log == old(log)
      ensures accepted == old(accepted) + (if running then {c} else {})
      ensures used == old(used) + (if running then {c} else {})
    {
      if !running {
        return;
      }
      LifecycleAccept(log, used, accepted, buffers, c);
      accepted := accepted + {c};
      used := used + {c};
    }

    /** The accept call threw while running: reported, and the loop goes on. */
    method AcceptFailed()
      requires Valid()
      modifies this`log
      ensures Valid()
      ensures running == old(running) && clients == old(clients) && accepted == old(accepted)
      ensures buffers == old(buffers)
      ensures log == old(log) + (if running then [ErrorOccurred] else [])
    {
      if running {
        LifecycleQuiet(log, used, accepted, buffers, [ErrorOccurred]);
        log := log + [ErrorOccurred];
      }
    }

    /**
     * The handler task of an accepted connection starts: the client is registered, gets an empty
     * buffer and is announced, whether or not the server has been stopped in the meantime.
     */
    method HandlerEnter(c: ClientId)
      requires Valid()
      requires c in accepted
      modifies this
      ensures Valid()
      ensures running == old(running) && accepted == old(accepted) - {c} && used == old(used)
      ensures clients == old(clients) + [c] && c in clients
      ensures buffers == old(buffers)[c := []]
      ensures log == old(log) + [ClientConnected(c)]
      ensures multiset(log)[ClientConnected(c)] == 1
    {
      RegistryAdd(clients, buffers, c);
      LifecycleEnter(log, used, accepted, buffers, c);
      accepted := accepted - {c};
      clients := clients + [c];
      buffers := buffers[c := []];
      log := log + [ClientConnected(c)];
    }

    /**
     * One turn of client `c`'s handler.  If the server is stopped or the socket no longer reports
     * `Connected`, or the read ends the stream or throws, the handler ends: the error (if any) is
     * reported, the client is unregistered, its socket closed and its disconnection announced.
     * Otherwise the chunk is appended to the handler's buffer and the framer delivers every
     * complete frame.
     */
    method HandlerStep(c: ClientId, connected: bool, read: ReadOutcome)
      requires Valid()
      requires c in buffers
      modifies this
      ensures Valid()
      ensures running == old(running) && accepted == old(accepted) && used == old(used)
      ensures (!running || !connected || !read.Chunk?) ==>
        && clients == RemoveFirst(old(clients), c) && c !in clients
        && buffers == old(buffers) - {c}
        && log == old(log) + Farewell(c, running && connected && read.ReadError?)
      ensures (running && connected && read.Chunk?) ==>
        && clients == old(clients)
        && buffers == old(buffers)[c := Remainder(old(buffers)[c] + read.text)]
        && log == old(log) + Receipts(c, Frames(old(buffers)[c] + read.text))
    {
      if running && connected && read.Chunk? {
        var messages, rest := ProcessCompleteMessages(buffers[c] + read.text);
        RegistryUpdate(clients, buffers, c, rest);
        assert Quiet(Receipts(c, messages));
        LifecycleQuiet(log, used, accepted, buffers, Receipts(c, messages));
        LifecycleRefill(log + Receipts(c, messages), used, accepted, buffers, c, rest);
        log := log + Receipts(c, messages);
        buffers := buffers[c := rest];
      } else {
        HandlerExit(c, running && connected && read.ReadError?);
      }
    }

    /**
     * The read that client `c`'s handler was awaiting when the server stopped throws (its token
     * was cancelled and its socket closed): the error is reported and the handler ends.
     */
    method HandlerCancelled(c: ClientId)
      requires Valid()
      requires c in buffers && !running
      modifies this
      ensures Valid()
      ensures !running && accepted == old(accepted) && used == old(used)
      ensures clients == RemoveFirst(old(clients), c) && c !in clients
      ensures buffers == old(buffers) - {c}
      ensures log == old(log) + [ErrorOccurred, Closed(c), ClientDisconnected(c)]
    {
      HandlerExit(c, true);
    }

    /** The handler's `catch` (when `failed`) and `finally`: report, unregister, close, announce. */
    method HandlerExit(c: ClientId, failed: bool)
      requires Valid()
      requires c in buffers
      modifies this
      ensures Valid()
      ensures running == old(running) && accepted == old(accepted) && used == old(used)
      ensures clients == RemoveFirst(old(clients), c) && c !in clients
      ensures buffers == old(buffers) - {c}
      ensures log == old(log) + Farewell(c, failed)
      ensures multiset(log)[ClientDisconnected(c)] == 1
    {
      RegistryRemove(clients, buffers, c);
      LifecycleExit(log, used, accepted, buffers, c, failed);
      clients := RemoveFirst(clients, c);
      buffers := buffers - {c};
      log := log + Farewell(c, failed);
    }

    /** `SendToClientAsync`: the guarded unicast of `message + ";"`. */
    method SendToClient(c: ClientId, message: string, connected: bool, writeOk: bool)
      requires Valid()
      modifies this`log
      ensures Valid()
      ensures log == old(log) + SendLog(c, message, connected, writeOk)
    {
      if IsBlank(message) || !connected {
        return;
      }
      LifecycleQuiet(log, used, accepted, buffers, SendLog(c, message, connected, writeOk));
      if writeOk {
        log := log + [Written(c, Encode(message))];
      } else {
        log := log + [ErrorOccurred];
      }
    }

    /** `BroadcastAsync`: a snapshot of the registry, then one send per member that reports `Connected`. */
    method Broadcast(message: string, connected: set<ClientId>, failing: set<ClientId>)
      requires Valid()
      modifies this`log
      ensures Valid()
      ensures log == old(log) + BroadcastLog(old(clients), message, connected, failing)
    {
      if IsBlank(message) {
        return;
      }
      var snapshot := clients;
      var i := 0;
      while i < |snapshot|
        invariant 0 <= i <= |snapshot| && snapshot == clients && Valid()
        invariant old(log) + BroadcastLog(snapshot, message, connected, failing)
          == log + Fanout(snapshot[i..], message, connected, failing)
      {
        var client := snapshot[i];
        assert snapshot[i..] == [client] + snapshot[i + 1..];
        if client in connected {
          SendToClient(client, message, true, client !in failing);
        }
        i := i + 1;
      }
    }

    /** `Stop`: a no-op when stopped; otherwise every registered socket is closed, the registry emptied and the stop announced. */
    method Stop()
      requires Valid()
      modifies this
      ensures Valid()
      ensures !running && accepted == old(accepted) && buffers == old(buffers) && used == old(used)
      ensures !old(running) ==> clients == old(clients) && log == old(log)
      ensures old(running) ==> clients == [] && log == old(log) + CloseAll(old(clients)) + [ServerStopped]
    {
      if !running {
        return;
      }
      var i := 0;
      while i < |clients|
        invariant 0 <= i <= |clients| && clients == old(clients) && accepted == old(accepted) && buffers == old(buffers)
        invariant used == old(used)
        invariant log == old(log) + CloseAll(clients[..i])
      {
        assert CloseAll(clients[..i + 1]) == CloseAll(clients[..i]) + [Closed(clients[i])];
        log := log + [Closed(clients[i])];
        i := i + 1;
      }
      assert clients[..i] == clients;
      assert Quiet(CloseAll(clients) + [ServerStopped]);
      LifecycleQuiet(old(log), used, accepted, buffers, CloseAll(clients) + [ServerStopped]);
      clients := [];
      running := false;
      log := log + [ServerStopped];
    }
  }
}
