/**
  The modem driver of modem.c: one in-flight command, a wrapping tag counter, the public
  command operations and the ALP frame handler, over the serial transport of ModemInterface.

  The blocking wait of a synchronous command is where the receive worker runs concurrently.
  Each synchronous operation is therefore split at that point: Begin... does everything up to
  the wait, BlockUntilCmdCompleted ends it, and the frames the worker handles in between are
  ProcessSerialFrame calls (or RxWorkerStep passes) made between the two. The wait itself ends
  either signalled or timed out, which the caller chooses (`signalled`).
 */
module ModemDriver {
  import opened Bytes
  import opened Framing
  import opened Alp
  import opened CommandSpec
  import MI = ModemInterface
  import ModemProperties

  /** The command body in bytes: the ALP encoding of each action, in order. */
  function EncodeBody(encode: Action -> seq<uint8>, body: seq<Action>): (r: seq<uint8>)
    ensures body == [] ==> r == []
    decreases |body|
  {
    if body == [] then [] else encode(body[0]) + EncodeBody(encode, body[1..])
  }

  /**
    Encoding distributes over concatenation: appending actions to the command FIFO one at a time
    yields the encoding of the whole body.
   */
  lemma {:induction false} EncodeBodyAppend(encode: Action -> seq<uint8>, a: seq<Action>, b: seq<Action>)
    ensures EncodeBody(encode, a + b) == EncodeBody(encode, a) + EncodeBody(encode, b)
    decreases |a|
  {
    if a != [] {
      assert (a + b)[0] == a[0] && (a + b)[1..] == a[1..] + b;
      EncodeBodyAppend(encode, a[1..], b);
    } else {
      assert a + b == b;
    }
  }

  /**
    What a command sends: fifo_get_size of the command FIFO is passed as the 8-bit length of
    modem_interface_transfer_bytes, so only the first (size mod 256) bytes go out.
   */
  function Wire(bytes: seq<uint8>): (r: seq<uint8>)
    ensures |r| < 0x100 && |r| == |bytes| % 0x100
    ensures r == bytes[..|r|]
  {
    bytes[..|bytes| % 0x100]
  }

  /**
    The actions process_serial_frame decodes from an ALP payload: its loop runs only while the
    payload FIFO holds bytes, so an empty payload yields no action; otherwise the ALP decoder's.
   */
  function DecodeFrame(decode: seq<uint8> -> seq<Action>, payload: seq<uint8>): seq<Action>
  {
    if payload == [] then [] else decode(payload)
  }

  /** An empty ALP frame decodes to nothing, so it neither completes a command nor raises an event. */
  lemma EmptyFrameChangesNothing(decode: seq<uint8> -> seq<Action>, cbs: Callbacks, c: Command, events: seq<Event>)
    ensures AllHandled(DecodeFrame(decode, []))
    ensures FrameEffect(cbs, c, events, DecodeFrame(decode, [])) == (c, events)
  {
  }

  /** The handler modem_init registers for ALP frames: process_serial_frame. */
  const ProcessSerialFrameHandler: MI.Handler := MI.Registered(0)

  class Modem {
    const link: MI.ModemInterface
    const encode: Action -> seq<uint8>
    const decode: seq<uint8> -> seq<Action>
    var callbacks: Option<Callbacks>     // None while the static pointer is still NULL
    var command: Command
    var nextTagId: uint8
    var events: seq<Event>

    ghost predicate Valid()
      reads this, link, link.header
    {
      link.Valid() && link.alpHandler == ProcessSerialFrameHandler
    }

    /**
      modem_init: initialise the transport and register process_serial_frame as the ALP handler.
      The callback pointer stays NULL until CbInit; the static command record starts zeroed, with
      a NULL response buffer.
     */
    constructor (crc: CrcFn, encode: Action -> seq<uint8>, decode: seq<uint8> -> seq<Action>)
      ensures Valid() && fresh(link) && fresh(link.header)
      ensures link.crc == crc && this.encode == encode && this.decode == decode
      ensures link.State() == MI.Link([], false, 0, [0, 0, 0, 0, 0, 0, 0], 0, 0, [],
                                      ProcessSerialFrameHandler, MI.Null, MI.Null)
      ensures callbacks == None
      ensures command == Command(0, false, false, false, [], []) && nextTagId == 0 && events == []
    {
      var l := new MI.ModemInterface(crc);
      l.RegisterHandler(ProcessSerialFrameHandler, AlpData);
      link := l;
      this.encode := encode;
      this.decode := decode;
      callbacks := None;
      command := Command(0, false, false, false, [], []);
      nextTagId := 0;
      events := [];
    }

    /** modem_cb_init */
    method CbInit(cbs: Callbacks)
      modifies this`callbacks
      ensures callbacks == Some(cbs)
    {
      callbacks := Some(cbs);
    }

    /** modem_reinit: free the command slot, whatever state it is in. */
    method Reinit()
      modifies this`command
      ensures command == old(command).(isActive := false)
    {
      command := command.(isActive := false);
    }

    /** modem_send_ping: a ping-request frame with payload [0x01]. */
    method SendPing()
      requires Valid()
      modifies link
      ensures Valid()
      ensures link.State() == MI.Transmit(link.crc, old(link.State()), [0x01], PingRequest)
    {
      link.TransferBytes([0x01], PingRequest);
    }

    /** modem_execute_raw_alp: send caller-encoded ALP bytes as they are, with no command. */
    method ExecuteRawAlp(alp: seq<uint8>)
      requires Valid() && |alp| < 0x100
      modifies link
      ensures Valid()
      ensures link.State() == MI.Transmit(link.crc, old(link.State()), alp, AlpData)
    {
      link.TransferBytes(alp, AlpData);
    }

    /** alloc_command */
    method AllocCommand() returns (ok: bool)
      modifies this`command, this`nextTagId
      ensures (ok, command, nextTagId) == Alloc(old(command), old(nextTagId))
    {
      if command.isActive {
        return false;
      }
      command := command.(isActive := true, executeSynchronous := false, completedWithError := false, body := []);
      command := command.(tagId := nextTagId);
      nextTagId := Inc8(nextTagId);
      command := command.(body := command.body + [TagRequest(command.tagId, true)]);
      ok := true;
      assert command.body == [TagRequest(old(nextTagId), true)];
    }

    /** Hand the command body to the transport as one ALP frame. */
    method SendBody()
      requires Valid()
      modifies link
      ensures Valid()
      ensures link.State() == MI.Transmit(link.crc, old(link.State()), Wire(EncodeBody(encode, command.body)), AlpData)
    {
      link.TransferBytes(Wire(EncodeBody(encode, command.body)), AlpData);
    }

    /** send_read_file: append a read-file-data action and send the body. */
    method SendReadFile(fileId: uint8, offset: uint32, size: uint32)
      requires Valid()
      modifies this`command, link
      ensures Valid()
      ensures command == old(command).(body := old(command).body + [ReadFileData(fileId, offset, size)])
      ensures link.State() == MI.Transmit(link.crc, old(link.State()), Wire(EncodeBody(encode, command.body)), AlpData)
    {
      command := command.(body := command.body + [ReadFileData(fileId, offset, size)]);
      SendBody();
    }

    /** modem_read_file_async: BUSY when allocation fails, else send the read and return PROCESSING. */
    method ReadFileAsync(fileId: uint8, offset: uint32, size: uint32) returns (status: ModemStatus)
      requires Valid()
      modifies this`command, this`nextTagId, link
      ensures Valid()
      ensures var (ok, c, next) := Alloc(old(command), old(nextTagId));
        && status == (if ok then CommandProcessing else Busy)
        && nextTagId == next
        && (ok ==> command == c.(body := c.body + [ReadFileData(fileId, offset, size)]))
        && (ok ==> link.State() == MI.Transmit(link.crc, old(link.State()), Wire(EncodeBody(encode, command.body)), AlpData))
        && (!ok ==> command == old(command) && link.State() == old(link.State()))
    {
      var ok := AllocCommand();
      if !ok {
        return Busy;
      }
      SendReadFile(fileId, offset, size);
      return CommandProcessing;
    }

    /**
      modem_read_file up to its wait: allocate (or report busy), make the command synchronous with
      the caller's buffer as its response buffer, and send the read.
     */
    method BeginReadFile(fileId: uint8, offset: uint32, size: uint32, responseBuffer: seq<uint8>) returns (busy: bool)
      requires Valid()
      modifies this`command, this`nextTagId, link
      ensures Valid()
      ensures var (ok, c, next) := Alloc(old(command), old(nextTagId));
        && busy == !ok
        && nextTagId == next
        && (ok ==> command == c.(executeSynchronous := true, responseBuffer := responseBuffer,
                                 body := c.body + [ReadFileData(fileId, offset, size)]))
        && (ok ==> link.State() == MI.Transmit(link.crc, old(link.State()), Wire(EncodeBody(encode, command.body)), AlpData))
        && (!ok ==> command == old(command) && link.State() == old(link.State()))
    {
      var ok := AllocCommand();
      if !ok {
        return true;
      }
      command := command.(executeSynchronous := true, responseBuffer := responseBuffer);
      SendReadFile(fileId, offset, size);
      return false;
    }

    /** block_until_cmd_completed, once the wait has ended signalled or timed out. */
    method BlockUntilCmdCompleted(signalled: bool) returns (status: ModemStatus)
      modifies this`command
      ensures (status, command) == Wait(old(command), signalled)
    {
      if signalled {
        command := command.(isActive := false);
        if command.completedWithError {
          return CompletedError;
        } else {
          return CompletedSuccess;
        }
      } else {
        return CommandTimeout;
      }
    }

    /** modem_read_file, with no frame handled during the wait. */
    method ReadFile(fileId: uint8, offset: uint32, size: uint32, responseBuffer: seq<uint8>, signalled: bool)
      returns (status: ModemStatus)
      requires Valid()
      modifies this`command, this`nextTagId, link
      ensures Valid()
      ensures old(command).isActive ==>
        status == Busy && command == old(command) && nextTagId == old(nextTagId) && link.State() == old(link.State())
      ensures !old(command).isActive ==>
        var c := Command(old(nextTagId), true, false, true,
                         [TagRequest(old(nextTagId), true), ReadFileData(fileId, offset, size)], responseBuffer);
        && (status, command) == Wait(c, signalled)
        && nextTagId == Inc8(old(nextTagId))
        && link.State() == MI.Transmit(link.crc, old(link.State()), Wire(EncodeBody(encode, c.body)), AlpData)
    {
      var busy := BeginReadFile(fileId, offset, size, responseBuffer);
      if busy {
        return Busy;
      }
      assert [TagRequest(old(nextTagId), true)] + [ReadFileData(fileId, offset, size)]
          == [TagRequest(old(nextTagId), true), ReadFileData(fileId, offset, size)];
      status := BlockUntilCmdCompleted(signalled);
    }

    /** modem_write_file_async: BUSY when allocation fails, else send the write and return PROCESSING. */
    method WriteFileAsync(fileId: uint8, offset: uint32, data: seq<uint8>) returns (status: ModemStatus)
      requires Valid()
      modifies this`command, this`nextTagId, link
      ensures Valid()
      ensures var (ok, c, next) := Alloc(old(command), old(nextTagId));
        && status == (if ok then CommandProcessing else Busy)
        && nextTagId == next
        && (ok ==> command == c.(body := c.body + [WriteFileData(fileId, offset, data)]))
        && (ok ==> link.State() == MI.Transmit(link.crc, old(link.State()), Wire(EncodeBody(encode, command.body)), AlpData))
        && (!ok ==> command == old(command) && link.State() == old(link.State()))
    {
      var ok := AllocCommand();
      if !ok {
        return Busy;
      }
      command := command.(body := command.body + [WriteFileData(fileId, offset, data)]);
      SendBody();
      return CommandProcessing;
    }

    /**
      modem_send_unsolicited_response up to its wait: allocate (or report busy), append the forward
      action chosen by the interface type and then the return-file-data action, make the command
      synchronous and send it. The response buffer pointer is not touched.
     */
    method BeginUnsolicitedResponse(fileId: uint8, offset: uint32, data: seq<uint8>, config: SessionConfig)
      returns (busy: bool)
      requires Valid()
      modifies this`command, this`nextTagId, link
      ensures Valid()
      ensures var (ok, c, next) := Alloc(old(command), old(nextTagId));
        && busy == !ok
        && nextTagId == next
        && (ok ==> command == c.(executeSynchronous := true,
                                 body := c.body + ForwardFor(config) + [ReturnFileData(fileId, offset, data)]))
        && (ok ==> link.State() == MI.Transmit(link.crc, old(link.State()), Wire(EncodeBody(encode, command.body)), AlpData))
        && (!ok ==> command == old(command) && link.State() == old(link.State()))
    {
      var ok := AllocCommand();
      if !ok {
        return true;
      }
      match config {
        case Dash7Session(c) =>
          command := command.(body := command.body + [Forward(D7asp, c)]);
        case LoRaWanOtaaSession(c) =>
          command := command.(body := command.body + [Forward(LoRaWanOtaa, c)]);
        case LoRaWanAbpSession(c) =>
          command := command.(body := command.body + [Forward(LoRaWanAbp, c)]);
        case OtherInterface(_) =>
      }
      command := command.(body := command.body + [ReturnFileData(fileId, offset, data)]);
      command := command.(executeSynchronous := true);
      SendBody();
      return false;
    }

    /** modem_send_unsolicited_response, with no frame handled during the wait. */
    method SendUnsolicitedResponse(fileId: uint8, offset: uint32, data: seq<uint8>, config: SessionConfig,
                                   signalled: bool) returns (status: ModemStatus)
      requires Valid()
      modifies this`command, this`nextTagId, link
      ensures Valid()
      ensures old(command).isActive ==>
        status == Busy && command == old(command) && nextTagId == old(nextTagId) && link.State() == old(link.State())
      ensures !old(command).isActive ==>
        var c := Command(old(nextTagId), true, false, true,
                         [TagRequest(old(nextTagId), true)] + ForwardFor(config) + [ReturnFileData(fileId, offset, data)],
                         old(command).responseBuffer);
        && (status, command) == Wait(c, signalled)
        && nextTagId == Inc8(old(nextTagId))
        && link.State() == MI.Transmit(link.crc, old(link.State()), Wire(EncodeBody(encode, c.body)), AlpData)
    {
      var busy := BeginUnsolicitedResponse(fileId, offset, data, config);
      if busy {
        return Busy;
      }
      status := BlockUntilCmdCompleted(signalled);
    }

    /**
      process_serial_frame: decode the inbound actions one by one, matching tag responses against
      the command's tag and routing file data; on completion finish the command.
      The firmware asserts that every action is of a kind it handles, and it dereferences the
      callback pointer and the response buffer unchecked: FrameSafe states when that is valid.
     */
    method ProcessSerialFrame(frame: seq<Action>)
      requires AllHandled(frame) && FrameSafe(callbacks, command, frame)
      modifies this`command, this`events
      ensures (command, events) == FrameEffect(CallbackTable(callbacks), old(command), old(events), frame)
    {
      var commandCompleted := false;
      var i := 0;
      while i < |frame|
        invariant 0 <= i <= |frame|
        invariant Decoding(command, commandCompleted, events)
               == ApplyAll(CallbackTable(callbacks), Decoding(old(command), false, old(events)), frame[..i])
      {
        var action := frame[i];
        assert action in frame;
        match action {
          case ReturnTag(tag, completed, error) =>
            if tag == command.tagId {
              commandCompleted := completed;
              command := command.(completedWithError := error);
            }
          case WriteFileData(fileId, offset, data) =>
            if callbacks.value.writeFileData {
              events := events + [WriteFileDataCb(fileId, offset, data)];
            }
          case ReturnFileData(fileId, offset, data) =>
            if command.executeSynchronous {
              command := command.(responseBuffer := Overwrite(command.responseBuffer, data));
            } else if callbacks.value.returnFileData {
              events := events + [ReturnFileDataCb(fileId, offset, data)];
            }
          case ReturnStatus(_) =>
          case _ =>
            assert false;
        }
        assert frame[..i + 1][..i] == frame[..i];
        i := i + 1;
      }
      assert frame[..|frame|] == frame;
      ModemProperties.DecodeTagMatching(CallbackTable(callbacks), Decoding(old(command), false, old(events)), frame);
      FinishCommand(commandCompleted);
    }

    /**
      The end of process_serial_frame: on completion release the synchronous waiter or call the
      completion callback through the callback pointer, then clear is_active.
     */
    method FinishCommand(commandCompleted: bool)
      requires commandCompleted && !command.executeSynchronous ==> callbacks.Some?
      modifies this`command, this`events
      ensures (command, events) == Complete(CallbackTable(callbacks), Decoding(old(command), commandCompleted, old(events)))
    {
      if commandCompleted {
        if command.executeSynchronous {
          events := events + [WaiterReleased];
        } else if callbacks.value.commandCompleted {
          events := events + [CommandCompletedCb(command.completedWithError)];
        }
        command := command.(isActive := false);
      }
    }

    /**
      One pass of the receive worker (rx_thread): process_rx_fifo, which hands a checked ALP
      payload to process_serial_frame, under that call's precondition for this pass's payload.
     */
    method RxWorkerStep(handlerConsumes: nat) returns (ev: MI.RxEvent)
      requires Valid()
      requires var (_, e) := MI.RxStep(link.crc, link.State(), handlerConsumes);
        e.PayloadChecked? && e.verdict.Dispatched? && e.verdict.msgType == AlpData ==>
          AllHandled(DecodeFrame(decode, e.verdict.payload))
          && FrameSafe(callbacks, command, DecodeFrame(decode, e.verdict.payload))
      modifies this`command, this`events, link, link.header
      ensures Valid()
      ensures (link.State(), ev) == MI.RxStep(link.crc, old(link.State()), handlerConsumes)
      ensures if ev.PayloadChecked? && ev.verdict.Dispatched? && ev.verdict.msgType == AlpData
              then (command, events) == FrameEffect(CallbackTable(callbacks), old(command), old(events), DecodeFrame(decode, ev.verdict.payload))
              else command == old(command) && events == old(events)
    {
      ev := link.ProcessRxFifo(handlerConsumes);
      if ev.PayloadChecked? && ev.verdict.Dispatched? && ev.verdict.msgType == AlpData {
        ProcessSerialFrame(DecodeFrame(decode, ev.verdict.payload));
      }
    }
  }
}
