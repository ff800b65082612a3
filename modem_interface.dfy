/**
  The serial transport of the modem driver: the frame encoder on the transmit side, the byte
  ingress and the two-phase receive parser that rebuilds frames from the byte stream, checks
  them and hands their payloads to the handler registered for their message type.

  The class ModemInterface holds the driver's global transport state. Its methods are proved
  against the value-level specification below (Link, Transmit, RxStep): every method ensures
  that the new State() is the specification function applied to the old one.
 */
module ModemInterface {
  import opened Bytes
  import opened Framing

  /** A handler slot (cmd_handler_t): empty (NULL) or a registered callback. */
  datatype Handler = Null | Registered(id: nat)

  /** The transport state as a value: the fields of class ModemInterface. */
  datatype Link = Link(
    rx: seq<uint8>,             // the receive FIFO, oldest byte first
    parsedHeader: bool,
    payloadLen: uint8,
    header: seq<uint8>,         // the global header buffer of the receive side
    upCounter: uint8,           // packet_up_counter
    downCounter: uint8,         // packet_down_counter
    tx: seq<uint8>,             // every byte written to the UART so far
    alpHandler: Handler,
    pingResponseHandler: Handler,
    loggingHandler: Handler)

  /** What holds of the transport state between two calls. */
  predicate Inv(l: Link)
  {
    && |l.header| == HeaderSize
    && |l.rx| <= RxBufferSize
    && (l.parsedHeader ==> l.payloadLen == l.header[SizeField])
    && (!l.parsedHeader ==> l.payloadLen == 0)
  }

  /** The result of a checked payload. */
  datatype Verdict =
    | CrcInvalid                                                   // dropped, nothing consumed
    | Dispatched(msgType: uint8, payload: seq<uint8>, consumed: nat) // given to a registered handler
    | PingAnswered                                                 // answered with a ping response
    | NotImplemented(msgType: uint8)                               // no handler: payload skipped

  /** What one pass of the receive worker did. */
  datatype RxEvent =
    | AwaitingHeader                        // at most a header's worth of bytes is buffered
    | SkippedByte                           // wrong sync or version byte: one byte dropped
    | HeaderFound(length: uint8)            // header consumed, payload length recorded
    | AwaitingPayload                       // the payload has not fully arrived
    | PayloadChecked(gap: bool, verdict: Verdict)

  /** Bytes a handler can take from a view of `n` bytes when it asks for `k`. */
  function Clamp(k: nat, n: nat): (r: nat)
    ensures r <= n && r <= k && (r == k || r == n)
  {
    if k <= n then k else n
  }

  /**
    modem_interface_transfer_bytes: stamp the incremented up-counter, put the 7-byte header and
    then the payload into the 255-byte transmit FIFO, and flush the FIFO to the UART. A put that
    does not fit is refused whole, so a payload of more than 248 bytes leaves only the header.
   */
  function Transmit(crc: CrcFn, l: Link, payload: seq<uint8>, msgType: uint8): (r: Link)
    requires |payload| < 0x100
    ensures r.upCounter == Inc8(l.upCounter)
    ensures r == l.(upCounter := r.upCounter, tx := r.tx)
    ensures HeaderSize + |payload| <= TxFifoSize ==>
              r.tx == l.tx + Frame(crc, r.upCounter, msgType, payload)
    ensures HeaderSize + |payload| > TxFifoSize ==>
              r.tx == l.tx + Header(r.upCounter, msgType, |payload|, crc(payload))
  {
    var counter := Inc8(l.upCounter);
    var header := Header(counter, msgType, |payload|, crc(payload));
    var sent := if HeaderSize + |payload| <= TxFifoSize then header + payload else header;
    l.(upCounter := counter, tx := l.tx + sent)
  }

  /**
    The handler dispatch of a payload whose CRC matched: the new state, the number of payload
    bytes consumed and the verdict. The ALP handler drains its whole view; the ping-response and
    logging handlers take `handlerConsumes` bytes, at most the view; a ping request takes one byte
    and is answered; any other type, or a type whose handler is NULL, skips the whole payload.
   */
  function Dispatch(crc: CrcFn, l: Link, msgType: uint8, view: seq<uint8>, handlerConsumes: nat)
    : (r: (Link, nat, Verdict))
    ensures r.1 <= |view|
  {
    if msgType == AlpData && l.alpHandler.Registered? then
      (l, |view|, Dispatched(msgType, view, |view|))
    else if msgType == PingResponse && l.pingResponseHandler.Registered? then
      var k := Clamp(handlerConsumes, |view|);
      (l, k, Dispatched(msgType, view, k))
    else if msgType == Logging && l.loggingHandler.Registered? then
      var k := Clamp(handlerConsumes, |view|);
      (l, k, Dispatched(msgType, view, k))
    else if msgType == PingRequest then
      (Transmit(crc, l, [0x02], PingResponse), Clamp(1, |view|), PingAnswered)
    else
      (l, |view|, NotImplemented(msgType))
  }

  /**
    One pass of process_rx_fifo. Header search: with more than 7 bytes buffered, peek a header;
    a wrong sync or version byte drops exactly one byte, a right one consumes the 7 header bytes
    and records the payload length. Payload phase: once the payload has arrived, verify it (which
    resynchronises the down-counter to the header's counter); on a CRC match dispatch it and drop
    only the bytes consumed, on a mismatch drop nothing; then go back to header search.
   */
  function RxStep(crc: CrcFn, l: Link, handlerConsumes: nat): (r: (Link, RxEvent))
    requires Inv(l)
    ensures Inv(r.0)
    ensures r.0.upCounter != l.upCounter ==> r.1.PayloadChecked? && r.1.verdict == PingAnswered
  {
    if !l.parsedHeader then
      if |l.rx| > HeaderSize then
        var h := l.rx[..HeaderSize];
        if !StartsHeader(h) then
          (l.(rx := l.rx[1..], header := h, parsedHeader := false, payloadLen := 0), SkippedByte)
        else
          (l.(rx := l.rx[HeaderSize..], header := h, parsedHeader := true, payloadLen := h[SizeField]),
           HeaderFound(h[SizeField]))
      else
        (l, AwaitingHeader)
    else if |l.rx| < l.payloadLen then
      (l, AwaitingPayload)
    else
      var view := l.rx[..l.payloadLen];
      var gap := l.header[CounterField] != Inc8(l.downCounter);
      var checked := l.(downCounter := l.header[CounterField]);
      if !CrcMatches(crc, l.header, view) then
        (checked.(parsedHeader := false, payloadLen := 0), PayloadChecked(gap, CrcInvalid))
      else
        var d := Dispatch(crc, checked, l.header[TypeField], view, handlerConsumes);
        (d.0.(rx := l.rx[d.1..], parsedHeader := false, payloadLen := 0), PayloadChecked(gap, d.2))
  }

  /** modem_interface_register_handler: fill the slot of `msgType`; other types change nothing. */
  function Register(l: Link, handler: Handler, msgType: uint8): (r: Link)
    ensures r.alpHandler == (if msgType == AlpData then handler else l.alpHandler)
    ensures r.pingResponseHandler == (if msgType == PingResponse then handler else l.pingResponseHandler)
    ensures r.loggingHandler == (if msgType == Logging then handler else l.loggingHandler)
    ensures r == l.(alpHandler := r.alpHandler, pingResponseHandler := r.pingResponseHandler,
                    loggingHandler := r.loggingHandler)
  {
    if msgType == AlpData then l.(alpHandler := handler)
    else if msgType == PingResponse then l.(pingResponseHandler := handler)
    else if msgType == Logging then l.(loggingHandler := handler)
    else l
  }

  class ModemInterface {
    const crc: CrcFn
    const header: array<uint8>
    var rx: seq<uint8>
    var parsedHeader: bool
    var payloadLen: uint8
    var upCounter: uint8
    var downCounter: uint8
    var txFifo: seq<uint8>
    var tx: seq<uint8>
    var alpHandler: Handler
    var pingResponseHandler: Handler
    var loggingHandler: Handler

    ghost function State(): Link
      reads this, header
    {
      Link(rx, parsedHeader, payloadLen, header[..], upCounter, downCounter, tx,
           alpHandler, pingResponseHandler, loggingHandler)
    }

    /** Between calls the transmit FIFO is empty: every transfer flushes it. */
    ghost predicate Valid()
      reads this, header
    {
      Inv(State()) && header.Length == HeaderSize && txFifo == []
    }

    /** modem_interface_init: empty FIFOs, zero counters, no handler registered. */
    constructor (crc: CrcFn)
      ensures Valid() && fresh(header) && this.crc == crc
      ensures State() == Link([], false, 0, [0, 0, 0, 0, 0, 0, 0], 0, 0, [], Null, Null, Null)
    {
      this.crc := crc;
      header := new uint8[HeaderSize](_ => 0);
      rx, parsedHeader, payloadLen := [], false, 0;
      upCounter, downCounter := 0, 0;
      txFifo, tx := [], [];
      alpHandler, pingResponseHandler, loggingHandler := Null, Null, Null;
      new;
      assert header[..] == [0, 0, 0, 0, 0, 0, 0];
    }

    /**
      uart_rx_cb: append one received byte. The driver asserts that the 256-byte FIFO has room:
      an overflow stops the firmware instead of dropping the byte, so room is a precondition.
     */
    method UartRxCb(data: uint8)
      requires Valid() && |rx| < RxBufferSize
      modifies this`rx
      ensures Valid()
      ensures State() == old(State()).(rx := old(rx) + [data])
    {
      rx := rx + [data];
    }

    /** fifo_put on the transmit FIFO: all of `data` if it fits, otherwise nothing. */
    method PutTx(data: seq<uint8>)
      modifies this`txFifo
      ensures txFifo == if |old(txFifo)| + |data| <= TxFifoSize then old(txFifo) + data else old(txFifo)
    {
      if |txFifo| + |data| <= TxFifoSize {
        txFifo := txFifo + data;
      }
    }

    /** flush_modem_interface_tx_fifo: pop everything and write it to the UART. */
    method FlushTx()
      modifies this`txFifo, this`tx
      ensures tx == old(tx) + old(txFifo) && txFifo == []
    {
      var buffer := txFifo;
      txFifo := [];
      tx := tx + buffer;
    }

    /** modem_interface_transfer_bytes */
    method TransferBytes(bytes: seq<uint8>, msgType: uint8)
      requires Valid() && |bytes| < 0x100
      modifies this`upCounter, this`txFifo, this`tx
      ensures Valid()
      ensures State() == Transmit(crc, old(State()), bytes, msgType)
    {
      var c := crc(bytes);
      upCounter := Inc8(upCounter);
      var frameHeader := Header(upCounter, msgType, |bytes|, c);
      PutTx(frameHeader);
      assert txFifo == frameHeader;
      PutTx(bytes);
      assert txFifo == if HeaderSize + |bytes| <= TxFifoSize then frameHeader + bytes else frameHeader;
      FlushTx();
    }

    /**
      modem_interface_transfer: send a C string as a logging frame. `s` holds the characters
      before the terminator (so none of them is zero); its strlen is narrowed to the 8-bit length
      parameter.
     */
    method Transfer(s: seq<uint8>)
      requires Valid() && 0 !in s
      modifies this`upCounter, this`txFifo, this`tx
      ensures Valid()
      ensures State() == Transmit(crc, old(State()), s[..|s| % 0x100], Logging)
    {
      TransferBytes(s[..|s| % 0x100], Logging);
    }

    /**
      verify_payload: peek the payload from the view, resynchronise the down-counter to the
      header's counter (reporting a gap when it is not the expected successor) and compare both
      stored CRC bytes with the CRC of the payload. Nothing is removed from any FIFO.
     */
    method VerifyPayload(view: seq<uint8>) returns (valid: bool, gap: bool)
      requires header.Length == HeaderSize && |view| >= header[SizeField]
      modifies this`downCounter
      ensures downCounter == header[CounterField]
      ensures gap <==> header[CounterField] != Inc8(old(downCounter))
      ensures valid <==> CrcMatches(crc, header[..], view[..header[SizeField]])
    {
      var payload := view[..header[SizeField]];
      downCounter := Inc8(downCounter);
      gap := false;
      if header[CounterField] != downCounter {
        gap := true;
        downCounter := header[CounterField];
      }
      var calculated := crc(payload);
      if header[Crc1Field] != HighByte(calculated) || header[Crc2Field] != LowByte(calculated) {
        valid := false;
      } else {
        valid := true;
      }
    }

    /**
      process_rx_fifo: one pass of the receive worker. `handlerConsumes` is how many bytes an
      externally registered ping-response or logging handler takes from its view.
     */
    method ProcessRxFifo(handlerConsumes: nat) returns (ev: RxEvent)
      requires Valid()
      modifies this, header
      ensures Valid()
      ensures (State(), ev) == RxStep(crc, old(State()), handlerConsumes)
    {
      if !parsedHeader {
        ev := SearchHeader();
      } else {
        ev := ParsePayload(handlerConsumes);
      }
    }

    /** The header-search branch of process_rx_fifo. */
    method SearchHeader() returns (ev: RxEvent)
      requires Valid() && !parsedHeader
      modifies this`rx, this`parsedHeader, this`payloadLen, header
      ensures Valid()
      ensures (State(), ev) == RxStep(crc, old(State()), 0)
    {
      if |rx| > HeaderSize {
        forall i | 0 <= i < HeaderSize {
          header[i] := rx[i];
        }
        assert header[..] == rx[..HeaderSize];
        if header[0] != SyncByte || header[1] != Version {
          rx := rx[1..];
          parsedHeader := false;
          payloadLen := 0;
          return SkippedByte;
        }
        parsedHeader := true;
        rx := rx[HeaderSize..];
        payloadLen := header[SizeField];
        return HeaderFound(payloadLen);
      }
      return AwaitingHeader;
    }

    /** The payload branch of process_rx_fifo: wait for the payload, verify it and dispatch it. */
    method ParsePayload(handlerConsumes: nat) returns (ev: RxEvent)
      requires Valid() && parsedHeader
      modifies this`rx, this`parsedHeader, this`payloadLen, this`downCounter, this`upCounter, this`txFifo, this`tx
      ensures Valid()
      ensures (State(), ev) == RxStep(crc, old(State()), handlerConsumes)
    {
      if |rx| < payloadLen {
        return AwaitingPayload;
      }
      var view := rx[..payloadLen];
      var valid, gap := VerifyPayload(view);
      assert view[..header[SizeField]] == view;
      var verdict: Verdict;
      if valid {
        var consumed;
        consumed, verdict := DispatchPayload(header[TypeField], view, handlerConsumes);
        rx := rx[consumed..];
      } else {
        verdict := CrcInvalid;
      }
      payloadLen := 0;
      parsedHeader := false;
      ev := PayloadChecked(gap, verdict);
    }

    /**
      The handler dispatch of process_rx_fifo for a payload whose CRC matched: the number of view
      bytes consumed (the payload length minus what is left in the view) and the verdict.
     */
    method DispatchPayload(msgType: uint8, view: seq<uint8>, handlerConsumes: nat) returns (consumed: nat, verdict: Verdict)
      requires Valid()
      modifies this`upCounter, this`txFifo, this`tx
      ensures Valid()
      ensures (State(), consumed, verdict) == Dispatch(crc, old(State()), msgType, view, handlerConsumes)
    {
      var rest := view;
      if msgType == AlpData && alpHandler.Registered? {
        verdict := Dispatched(msgType, view, |view|);
        rest := [];
      } else if msgType == PingResponse && pingResponseHandler.Registered? {
        var k := Clamp(handlerConsumes, |view|);
        verdict := Dispatched(msgType, view, k);
        rest := view[k..];
      } else if msgType == Logging && loggingHandler.Registered? {
        var k := Clamp(handlerConsumes, |view|);
        verdict := Dispatched(msgType, view, k);
        rest := view[k..];
      } else if msgType == PingRequest {
        rest := view[Clamp(1, |view|)..];
        TransferBytes([0x02], PingResponse);
        verdict := PingAnswered;
      } else {
        rest := view[|view|..];
        verdict := NotImplemented(msgType);
      }
      consumed := |view| - |rest|;
    }

    /** modem_interface_register_handler */
    method RegisterHandler(handler: Handler, msgType: uint8)
      requires Valid()
      modifies this`alpHandler, this`pingResponseHandler, this`loggingHandler
      ensures Valid()
      ensures State() == Register(old(State()), handler, msgType)
    {
      if msgType == AlpData {
        alpHandler := handler;
      } else if msgType == PingResponse {
        pingResponseHandler := handler;
      } else if msgType == Logging {
        loggingHandler := handler;
      }
    }
  }
}
