/**
 * The client connector (UnityDemo/Tcp.cs): one outbound connection held in two nullable
 * references, a guarded sender that writes the message as it is, and a receive loop that runs
 * the same framer as the server over a private buffer.
 *
 * Sockets are identified by handles; `GetStream()` returns the stream of the same handle.  What a
 * connection attempt and each read produce is supplied by the caller, standing for the transport,
 * and everything observable is appended to one event log.
 */
module Client {
  import opened Wrappers
  import opened Framing

  /** The identity of one `TcpClient` (and of the `NetworkStream` it hands out). */
  type Handle = nat

  /** What the connector makes observable. */
  datatype Event =
    | Written(stream: Handle, data: string)  // the text handed to `WriteAsync`, before UTF-8 encoding
    | DataReceived(message: string)
    | StreamClosed(stream: Handle)
    | ClientClosed(client: Handle)

  /** How `ConnectAsync` ends: it returns true, or the connection attempt throws (refused, timed out). */
  datatype ConnectResult = Connected | Threw

  /** What `Disconnect` does to the sockets it finds: close the stream, then the client. */
  function DisconnectLog(stream: Option<Handle>, client: Option<Handle>): seq<Event>
  {
    (if stream.Some? then [StreamClosed(stream.value)] else [])
    + (if client.Some? then [ClientClosed(client.value)] else [])
  }

  /** One `DataReceived` notification per delivered frame, in order. */
  function Deliveries(messages: seq<string>): seq<Event>
  {
    seq(|messages|, k requires 0 <= k < |messages| => DataReceived(messages[k]))
  }

  lemma DeliveriesAppend(a: seq<string>, b: seq<string>)
    ensures Deliveries(a + b) == Deliveries(a) + Deliveries(b)
  {
  }

  // ---------------------------------------------------------------------------------------------
  // A run of reads
  // ---------------------------------------------------------------------------------------------

  /** The text of the chunks read before the first read that is not a chunk. */
  function Received(outcomes: seq<ReadOutcome>): string
  {
    if outcomes == [] || !outcomes[0].Chunk? then [] else outcomes[0].text + Received(outcomes[1..])
  }

  /** The first read that is not a chunk, if any: it ends the receive loop. */
  function Ending(outcomes: seq<ReadOutcome>): (r: Option<ReadOutcome>)
    ensures r.Some? ==> !r.value.Chunk? && r.value in outcomes
  {
    if outcomes == [] then None
    else if !outcomes[0].Chunk? then Some(outcomes[0])
    else Ending(outcomes[1..])
  }

  /** Splitting the reads at a chunk position: what has been read so far, then the rest. */
  lemma ReadsStep(outcomes: seq<ReadOutcome>, i: nat)
    requires i < |outcomes| && outcomes[i].Chunk?
    ensures Received(outcomes[i..]) == outcomes[i].text + Received(outcomes[i + 1..])
    ensures Ending(outcomes[i..]) == Ending(outcomes[i + 1..])
  {
    assert outcomes[i..][1..] == outcomes[i + 1..];
  }

  /** Framing after each chunk delivers, in total, the frames of everything read. */
  lemma DeliverStep(before: seq<Event>, data: string, chunk: string)
    ensures before + Deliveries(Frames(data)) + Deliveries(Frames(Remainder(data) + chunk))
         == before + Deliveries(Frames(data + chunk))
    ensures Remainder(Remainder(data) + chunk) == Remainder(data + chunk)
  {
    FramesAppend(data, chunk);
    DeliveriesAppend(Frames(data), Frames(Remainder(data) + chunk));
    AppendAssoc(before, Deliveries(Frames(data)), Deliveries(Frames(Remainder(data) + chunk)));
  }

  /** A read that is not a chunk ends the run: nothing more is received after it. */
  lemma ReadsStop(outcomes: seq<ReadOutcome>, i: nat)
    requires i <= |outcomes| && (i == |outcomes| || !outcomes[i].Chunk?)
    ensures Received(outcomes[i..]) == []
    ensures Ending(outcomes[i..]) == if i == |outcomes| then None else Some(outcomes[i])
  {
  }

  /**
   * The receive loop delivers exactly the frames of everything it read, whatever the chunking:
   * a single read of all the text would deliver the same.
   */
  lemma ReceiveMatchesOneRead(outcomes: seq<ReadOutcome>, chunks: seq<string>)
    requires |chunks| <= |outcomes|
    requires forall k :: 0 <= k < |chunks| ==> outcomes[k] == Chunk(chunks[k])
    requires |chunks| == |outcomes| || !outcomes[|chunks|].Chunk?
    ensures Received(outcomes) == Concat(chunks)
    ensures Feed([], chunks) == Fed(Frames(Received(outcomes)), Remainder(Received(outcomes)))
  {
    ReceivedIsConcat(outcomes, chunks);
    ChunkingIndependent([], chunks);
    assert [] + Concat(chunks) == Concat(chunks);
  }

  lemma {:induction false} ReceivedIsConcat(outcomes: seq<ReadOutcome>, chunks: seq<string>)
    requires |chunks| <= |outcomes|
    requires forall k :: 0 <= k < |chunks| ==> outcomes[k] == Chunk(chunks[k])
    requires |chunks| == |outcomes| || !outcomes[|chunks|].Chunk?
    ensures Received(outcomes) == Concat(chunks)
    decreases |chunks|
  {
    if chunks != [] {
      ReceivedIsConcat(outcomes[1..], chunks[1..]);
    }
  }

  // ---------------------------------------------------------------------------------------------
  // The connector object
  // ---------------------------------------------------------------------------------------------

  class Tcp {
    /** `_tcpClient`. */
    var tcpClient: Option<Handle>
    /** `_networkStream`. */
    var networkStream: Option<Handle>
    /** Everything the connector made observable, oldest first. */
    var log: seq<Event>

    constructor ()
      ensures tcpClient == None && networkStream == None && log == []
    {
      tcpClient := None;
      networkStream := None;
      log := [];
    }

    /** `IsConnected`: whether a stream reference is held; it does not probe the socket. */
    function IsConnected(): (connected: bool)
      reads this
      ensures connected <==> networkStream != None
    {
      networkStream.Some?
    }

    /** `Disconnect`: closes whatever stream and client are held and forgets both. */
    method Disconnect()
      modifies this
      ensures tcpClient == None && networkStream == None && !IsConnected()
      ensures log == old(log) + DisconnectLog(old(networkStream), old(tcpClient))
    {
      if networkStream.Some? {
        log := log + [StreamClosed(networkStream.value)];
      }
      if tcpClient.Some? {
        log := log + [ClientClosed(tcpClient.value)];
      }
      tcpClient := None;
      networkStream := None;
    }

    /**
     * `ConnectAsync`: drops an open connection, then connects a new client `handle`.  When the
     * attempt throws, the new client stays referenced but no stream is held.  On success the
     * receive loop is started separately (ReceiveData).
     */
    method ConnectAsync(handle: Handle, succeeds: bool) returns (result: ConnectResult)
      modifies this
      ensures result == Connected <==> succeeds
      ensures tcpClient == Some(handle)
      ensures networkStream == (if succeeds then Some(handle) else None)
      ensures IsConnected() <==> succeeds
      ensures log == old(log) + (if old(networkStream) != None then DisconnectLog(old(networkStream), old(tcpClient)) else [])
    {
      if networkStream != None {
        Disconnect();
      }
      tcpClient := Some(handle);
      if !succeeds {
        return Threw;
      }
      networkStream := Some(handle);
      return Connected;
    }

    /** `SendMessageAsync`: writes `message` as it is (no delimiter added) when connected and not blank. */
    method SendMessage(message: string)
      modifies this`log
      ensures log == old(log) + (if networkStream == None || IsBlank(message) then [] else [Written(networkStream.value, message)])
    {
      if networkStream == None || IsBlank(message) {
        return;
      }
      log := log + [Written(networkStream.value, message)];
    }

    /**
     * `ReceiveDataAsync`: while a stream is held, read; append each chunk to the private buffer
     * and deliver every complete frame; a zero-length read disconnects and ends the loop; a read
     * that throws ends the loop (the exception is lost with the task).  `outcomes` is what the
     * reads return, in order; the loop also ends when they run out.
     */
    method ReceiveData(outcomes: seq<ReadOutcome>)
      modifies this
      ensures old(networkStream) == None ==>
        tcpClient == old(tcpClient) && networkStream == None && log == old(log)
      ensures old(networkStream) != None ==>
        var eof := Ending(outcomes) == Some(EndOfStream);
        && tcpClient == (if eof then None else old(tcpClient))
        && networkStream == (if eof then None else old(networkStream))
        && log == old(log) + Deliveries(Frames(Received(outcomes)))
                  + (if eof then DisconnectLog(old(networkStream), old(tcpClient)) else [])
    {
      var messageBuilder: string := [];
      var i := 0;
      ghost var data: string := [];
      while networkStream != None && i < |outcomes|
        invariant 0 <= i <= |outcomes|
        invariant networkStream == old(networkStream) && tcpClient == old(tcpClient)
        invariant old(networkStream) == None ==> data == []
        invariant Received(outcomes) == data + Received(outcomes[i..])
        invariant Ending(outcomes) == Ending(outcomes[i..])
        invariant messageBuilder == Remainder(data)
        invariant log == old(log) + Deliveries(Frames(data))
        decreases |outcomes| - i
      {
        if !outcomes[i].Chunk? {
          ReadsStop(outcomes, i);
          AppendEmpty(data);
          if outcomes[i] == EndOfStream {
            Disconnect();
          }
          break;
        }
        var receivedChunk := outcomes[i].text;
        ReadsStep(outcomes, i);
        AppendAssoc(data, receivedChunk, Received(outcomes[i + 1..]));
        var messages, rest := ProcessCompleteMessages(messageBuilder + receivedChunk);
        log := log + Deliveries(messages);
        messageBuilder := rest;
        DeliverStep(old(log), data, receivedChunk);
        data := data + receivedChunk;
        i := i + 1;
      }
      if i == |outcomes| {
        ReadsStop(outcomes, i);
        AppendEmpty(data);
      }
    }
  }
}
