/**
  End-to-end runs of the driver on fresh objects: a synchronous file read answered by the
  modem, a timed-out command that keeps the slot until modem_reinit, and an asynchronous write
  completed by a frame that arrives byte by byte on the UART and goes through the receive parser.
 */
module Scenarios {
  import opened Bytes
  import opened Framing
  import opened Alp
  import opened CommandSpec
  import MI = ModemInterface
  import RxProperties
  import opened ModemDriver

  /**
    modem_read_file of 8 bytes: the modem answers with the file data and a completed tag
    response for the command's tag. The caller's buffer ends up holding the data, the waiter is
    released once, and the read reports success.
   */
  method SyncRead(crc: CrcFn, encode: Action -> seq<uint8>, decode: seq<uint8> -> seq<Action>, data: seq<uint8>)
    returns (status: ModemStatus, buffer: seq<uint8>, events: seq<Event>)
    requires |data| == 8
    ensures status == CompletedSuccess && buffer == data && events == [WaiterReleased]
  {
    var m := new Modem(crc, encode, decode);
    m.CbInit(Callbacks(true, true, true));
    var zeros: seq<uint8> := [0, 0, 0, 0, 0, 0, 0, 0];
    var busy := m.BeginReadFile(0x40, 0, 8, zeros);
    var c := m.command;
    assert !busy && c.tagId == 0 && c.executeSynchronous && c.responseBuffer == zeros;
    var reply := [ReturnFileData(0x40, 0, data), ReturnTag(0, true, false)];
    assert reply[..1] == [ReturnFileData(0x40, 0, data)] && reply[..1][..0] == [];
    assert Overwrite(zeros, data) == data;
    var d1 := Decoding(c.(responseBuffer := data), false, []);
    assert ApplyAll(CallbackTable(m.callbacks), Decoding(c, false, []), reply[..1]) == d1;
    assert ApplyAll(CallbackTable(m.callbacks), Decoding(c, false, []), reply) == d1.(completed := true);
    m.ProcessSerialFrame(reply);
    status := m.BlockUntilCmdCompleted(true);
    buffer := m.command.responseBuffer;
    events := m.events;
  }

  /**
    A command that times out keeps the slot: after modem_read_file reports TIMEOUT, the next
    command is refused with BUSY; after modem_reinit it is accepted, with the tag after the one
    the timed-out read used.
   */
  method TimeoutThenReinit(crc: CrcFn, encode: Action -> seq<uint8>, decode: seq<uint8> -> seq<Action>)
    returns (first: ModemStatus, second: ModemStatus, third: ModemStatus, tag: uint8)
    ensures first == CommandTimeout && second == Busy && third == CommandProcessing && tag == 1
  {
    var m := new Modem(crc, encode, decode);
    first := m.ReadFile(0x40, 0, 8, [], false);
    second := m.WriteFileAsync(0x40, 0, [1]);
    m.Reinit();
    third := m.WriteFileAsync(0x40, 0, [1]);
    tag := m.command.tagId;
  }

  /** A burst of uart_rx_cb interrupts: the bytes join the receive FIFO in order, nothing else changes. */
  method Receive(link: MI.ModemInterface, bytes: seq<uint8>)
    requires link.Valid() && |link.rx| + |bytes| <= RxBufferSize
    modifies link`rx
    ensures link.Valid()
    ensures link.State() == old(link.State()).(rx := old(link.rx) + bytes)
  {
    var i := 0;
    while i < |bytes|
      invariant 0 <= i <= |bytes|
      invariant link.Valid()
      invariant link.State() == old(link.State()).(rx := old(link.rx) + bytes[..i])
    {
      assert bytes[..i + 1] == bytes[..i] + [bytes[i]];
      link.UartRxCb(bytes[i]);
      i := i + 1;
    }
    assert bytes[..|bytes|] == bytes;
  }

  /**
    A freshly initialised modem with only the completion callback set, after
    modem_write_file_async: the write is in flight under tag 0 and nothing has been received.
   */
  method StartWrite(crc: CrcFn, encode: Action -> seq<uint8>, decode: seq<uint8> -> seq<Action>)
    returns (m: Modem, status: ModemStatus)
    ensures fresh(m) && fresh(m.link) && fresh(m.link.header) && m.Valid()
    ensures m.link.crc == crc && m.decode == decode
    ensures status == CommandProcessing
    ensures m.command.tagId == 0 && m.command.isActive && !m.command.executeSynchronous
    ensures m.callbacks == Some(Callbacks(true, false, false)) && m.events == []
    ensures m.link.rx == [] && !m.link.parsedHeader && m.link.downCounter == 0
  {
    m := new Modem(crc, encode, decode);
    m.CbInit(Callbacks(true, false, false));
    status := m.WriteFileAsync(0x40, 0, [7]);
  }

  /**
    An asynchronous write completed over the wire: the modem's answer, an ALP frame with
    counter 1 whose payload decodes to a completed tag response for tag 0, arrives byte by byte.
    The first worker pass consumes the header, the second checks the CRC, reports no gap and
    hands the payload to process_serial_frame, which frees the slot and calls the completion
    callback once, without error.
   */
  method WriteCompletedOverTheWire(crc: CrcFn, encode: Action -> seq<uint8>)
    returns (status: ModemStatus, ev1: MI.RxEvent, ev2: MI.RxEvent, events: seq<Event>, active: bool)
    ensures status == CommandProcessing
    ensures ev1 == MI.HeaderFound(1) && ev2 == MI.PayloadChecked(false, MI.Dispatched(AlpData, [0x11], 1))
    ensures events == [CommandCompletedCb(false)] && !active
  {
    var decode := (p: seq<uint8>) => if p == [] then [] else [ReturnTag(0, true, false)];
    var m;
    m, status := StartWrite(crc, encode, decode);
    var wire := Frame(crc, 1, AlpData, [0x11]);
    Receive(m.link, wire);
    ghost var l0 := m.link.State();
    assert l0.rx == Header(1, AlpData, 1, crc([0x11])) + [0x11] + [];
    assert l0.alpHandler.Registered? && l0.downCounter == 0;
    RxProperties.TwoPassParse(crc, l0, 1, AlpData, crc([0x11]), [0x11], [], 0);
    ghost var c := m.command;

    ev1 := m.RxWorkerStep(0);
    assert ev1 == MI.HeaderFound(1) && m.command == c && m.events == [];
    ev2 := m.RxWorkerStep(0);
    assert ev2 == MI.PayloadChecked(false, MI.Dispatched(AlpData, [0x11], 1));
    var frame := [ReturnTag(0, true, false)];
    assert frame[..0] == [];
    assert ApplyAll(CallbackTable(m.callbacks), Decoding(c, false, []), frame) == Decoding(c.(completedWithError := false), true, []);
    events := m.events;
    active := m.command.isActive;
  }
}
