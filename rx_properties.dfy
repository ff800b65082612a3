/**
  Properties of the serial transport: what one transfer puts on the wire, what one pass of the
  receive parser does in each phase, and what several passes do with a whole byte stream
  (resynchronisation over garbage, a frame parsed in two passes, what a sender's frame becomes
  at the receiver).
 */
module RxProperties {
  import opened Bytes
  import opened Framing
  import opened ModemInterface

  /** A transfer appends exactly the 7 header bytes and the payload, and stamps the new counter. */
  lemma TransmitAppendsFrame(crc: CrcFn, l: Link, payload: seq<uint8>, msgType: uint8)
    requires |payload| <= TxFifoSize - HeaderSize
    ensures var r := Transmit(crc, l, payload, msgType);
      && r.upCounter == (l.upCounter + 1) % 0x100
      && r.tx == l.tx + [SyncByte, Version, r.upCounter, msgType, |payload|,
                         HighByte(crc(payload)), LowByte(crc(payload))] + payload
      && |r.tx| == |l.tx| + HeaderSize + |payload|
      && r.tx[|l.tx| + CounterField] == r.upCounter
      && r.rx == l.rx && r.downCounter == l.downCounter && r.parsedHeader == l.parsedHeader
  {
  }

  /**
    The header a transfer appends depends on the payload only through its length and CRC, whether
    or not the payload fits the transmit FIFO.
   */
  lemma TransmitCrcCoversPayloadOnly(crc: CrcFn, l: Link, p: seq<uint8>, q: seq<uint8>, msgType: uint8)
    requires |p| == |q| < 0x100 && crc(p) == crc(q)
    ensures Transmit(crc, l, p, msgType).tx[..|l.tx| + HeaderSize]
         == Transmit(crc, l, q, msgType).tx[..|l.tx| + HeaderSize]
  {
    assert Transmit(crc, l, p, msgType).tx[..|l.tx| + HeaderSize] == l.tx + Header(Inc8(l.upCounter), msgType, |p|, crc(p));
    assert Transmit(crc, l, q, msgType).tx[..|l.tx| + HeaderSize] == l.tx + Header(Inc8(l.upCounter), msgType, |q|, crc(q));
  }

  /**
    Header search (process_rx_fifo while no header is parsed): it acts only on strictly more than
    7 buffered bytes; a wrong sync or version byte drops exactly one byte; a right one consumes
    exactly the 7 header bytes and records the length byte as the payload length.
   */
  lemma HeaderSearch(crc: CrcFn, l: Link, k: nat)
    requires Inv(l) && !l.parsedHeader
    ensures var (r, ev) := RxStep(crc, l, k);
      && (|l.rx| <= HeaderSize ==> r == l && ev == AwaitingHeader)
      && (|l.rx| > HeaderSize && !StartsHeader(l.rx) ==>
            && ev == SkippedByte
            && r == l.(rx := l.rx[1..], header := l.rx[..HeaderSize]))
      && (|l.rx| > HeaderSize && StartsHeader(l.rx) ==>
            && ev == HeaderFound(l.rx[SizeField])
            && r == l.(rx := l.rx[HeaderSize..], header := l.rx[..HeaderSize],
                       parsedHeader := true, payloadLen := l.rx[SizeField]))
  {
  }

  /**
    Payload phase: nothing changes until the whole payload is buffered. Afterwards the parser is
    back in header search, the down-counter equals the header's counter (a gap is reported when it
    is not the successor of the previous one), the CRC verdict is exactly the comparison of both
    stored CRC bytes, a CRC failure removes nothing, and a success removes at most the payload.
   */
  lemma PayloadPhase(crc: CrcFn, l: Link, k: nat)
    requires Inv(l) && l.parsedHeader
    ensures var (r, ev) := RxStep(crc, l, k);
      && (|l.rx| < l.payloadLen ==> r == l && ev == AwaitingPayload)
      && (|l.rx| >= l.payloadLen ==>
            && ev.PayloadChecked?
            && !r.parsedHeader && r.payloadLen == 0
            && r.downCounter == l.header[CounterField]
            && (ev.gap <==> l.header[CounterField] != Inc8(l.downCounter))
            && (ev.verdict == CrcInvalid <==> !CrcMatches(crc, l.header, l.rx[..l.payloadLen]))
            && (ev.verdict == CrcInvalid ==> r.rx == l.rx)
            && |l.rx| - |r.rx| <= l.payloadLen
            && r.rx == l.rx[|l.rx| - |r.rx|..])
  {
  }

  /**
    Dispatch of a payload whose CRC matched: the ALP handler takes the whole payload; a registered
    ping-response or logging handler takes what it consumed; a ping request takes one byte and is
    answered with a ping-response frame carrying [0x02]; any other type, or a type whose handler is
    NULL, skips the whole payload. Only the consumed bytes leave the receive FIFO.
   */
  lemma DispatchRules(crc: CrcFn, l: Link, k: nat)
    requires Inv(l) && l.parsedHeader && |l.rx| >= l.payloadLen
    requires CrcMatches(crc, l.header, l.rx[..l.payloadLen])
    ensures var (r, ev) := RxStep(crc, l, k);
      var t := l.header[TypeField];
      var p := l.rx[..l.payloadLen];
      && ev.PayloadChecked?
      && (t == AlpData && l.alpHandler.Registered? ==>
            ev.verdict == Dispatched(t, p, |p|) && r.rx == l.rx[|p|..])
      && (t == PingResponse && l.pingResponseHandler.Registered? ==>
            ev.verdict == Dispatched(t, p, Clamp(k, |p|)) && r.rx == l.rx[Clamp(k, |p|)..])
      && (t == Logging && l.loggingHandler.Registered? ==>
            ev.verdict == Dispatched(t, p, Clamp(k, |p|)) && r.rx == l.rx[Clamp(k, |p|)..])
      && (t == PingRequest ==>
            && ev.verdict == PingAnswered
            && r.rx == l.rx[Clamp(1, |p|)..]
            && r.upCounter == Inc8(l.upCounter)
            && r.tx == l.tx + Frame(crc, r.upCounter, PingResponse, [0x02]))
      && (t != PingRequest ==> r.tx == l.tx && r.upCounter == l.upCounter)
      && ((t == AlpData && l.alpHandler.Null?) || (t == PingResponse && l.pingResponseHandler.Null?)
          || (t == Logging && l.loggingHandler.Null?) || t !in {AlpData, PingRequest, PingResponse, Logging} ==>
            ev.verdict == NotImplemented(t) && r.rx == l.rx[|p|..])
  {
  }

  /** `n` passes of the receive worker, each handler taking `k` bytes. */
  function RxSteps(crc: CrcFn, l: Link, n: nat, k: nat): (r: Link)
    requires Inv(l)
    ensures Inv(r)
    decreases n
  {
    if n == 0 then l else RxSteps(crc, RxStep(crc, l, k).0, n - 1, k)
  }

  /** No position before `n` starts with the sync byte followed by the version byte. */
  predicate NoHeaderBefore(s: seq<uint8>, n: nat)
    requires n < |s|
  {
    forall i | 0 <= i < n :: !(s[i] == SyncByte && s[i + 1] == Version)
  }

  /**
    Resynchronisation: garbage in which no header starts, followed by more than a header's worth
    of bytes, is dropped one byte per pass; after exactly |garbage| passes the parser is still in
    header search at the first byte after the garbage, and nothing but the header buffer changed.
   */
  lemma {:induction false} ResyncSkipsGarbage(crc: CrcFn, l: Link, garbage: seq<uint8>, rest: seq<uint8>, k: nat)
    requires Inv(l) && !l.parsedHeader
    requires l.rx == garbage + rest && |rest| > HeaderSize
    requires NoHeaderBefore(garbage + rest, |garbage|)
    ensures var r := RxSteps(crc, l, |garbage|, k);
      r == l.(rx := rest, header := r.header)
    decreases |garbage|
  {
    if garbage != [] {
      var s := garbage + rest;
      assert !(s[0] == SyncByte && s[1] == Version);
      var (l1, ev) := RxStep(crc, l, k);
      HeaderSearch(crc, l, k);
      assert l1 == l.(rx := s[1..], header := s[..HeaderSize]);
      assert s[1..] == garbage[1..] + rest;
      forall i | 0 <= i < |garbage| - 1
        ensures !((garbage[1..] + rest)[i] == SyncByte && (garbage[1..] + rest)[i + 1] == Version)
      {
        assert (garbage[1..] + rest)[i] == s[i + 1] && (garbage[1..] + rest)[i + 1] == s[i + 2];
      }
      ResyncSkipsGarbage(crc, l1, garbage[1..], rest, k);
    }
  }

  /**
    A frame with header counter `counter`, type `msgType` and stored checksum `stored` at the head
    of the receive FIFO is parsed in two passes: the first consumes its header, the second checks
    it. The check fails exactly when `stored` is not the CRC of the payload, and then the payload
    stays in the FIFO; otherwise an ALP frame goes whole to the ALP handler. Either way the
    down-counter becomes `counter`, with a gap reported when it is not the expected successor.
    The header search needs at least one byte after the header.
   */
  lemma {:induction false} TwoPassParse(crc: CrcFn, l: Link, counter: uint8, msgType: uint8, stored: uint16,
                                        payload: seq<uint8>, rest: seq<uint8>, k: nat)
    requires Inv(l) && !l.parsedHeader && |payload| < 0x100 && |payload| + |rest| > 0
    requires l.rx == Header(counter, msgType, |payload|, stored) + payload + rest
    ensures var (l1, e1) := RxStep(crc, l, k);
      var (l2, e2) := RxStep(crc, l1, k);
      && e1 == HeaderFound(|payload|)
      && l1.rx == payload + rest
      && e2.PayloadChecked?
      && l2.downCounter == counter
      && (e2.gap <==> counter != Inc8(l.downCounter))
      && (e2.verdict == CrcInvalid <==> stored != crc(payload))
      && (stored != crc(payload) ==> l2.rx == payload + rest)
      && (stored == crc(payload) && msgType == AlpData && l.alpHandler.Registered? ==>
            e2.verdict == Dispatched(AlpData, payload, |payload|) && l2.rx == rest)
      && !l2.parsedHeader
  {
    var h := Header(counter, msgType, |payload|, stored);
    assert l.rx[..HeaderSize] == h;
    assert l.rx[HeaderSize..] == payload + rest;
    HeaderSearch(crc, l, k);
    var (l1, e1) := RxStep(crc, l, k);
    assert l1.header == h && l1.payloadLen == |payload|;
    assert l1.rx[..l1.payloadLen] == payload;
    PayloadPhase(crc, l1, k);
    CrcMatchesIffEqual(crc, counter, msgType, stored, payload);
    if stored == crc(payload) && msgType == AlpData && l.alpHandler.Registered? {
      DispatchRules(crc, l1, k);
      assert l1.rx[|payload|..] == rest;
    }
  }

  /**
    What a transfer puts on the wire is what the receive parser delivers: the bytes one
    Transmit appends, arriving in an empty receive FIFO, are read back in two passes as a frame
    whose CRC checks, with the sender's counter; an ALP frame delivers exactly the payload.
   */
  lemma {:induction false} TransmittedFrameIsDelivered(crc: CrcFn, sender: Link, receiver: Link,
                                                       payload: seq<uint8>, msgType: uint8, k: nat)
    requires 0 < |payload| <= TxFifoSize - HeaderSize
    requires Inv(receiver) && !receiver.parsedHeader && receiver.rx == []
    ensures var sent := Transmit(crc, sender, payload, msgType);
      var wire := sent.tx[|sender.tx|..];
      var (l1, e1) := RxStep(crc, receiver.(rx := wire), k);
      var (l2, e2) := RxStep(crc, l1, k);
      && e1 == HeaderFound(|payload|)
      && e2.PayloadChecked? && e2.verdict != CrcInvalid
      && l2.downCounter == sent.upCounter
      && (msgType == AlpData && receiver.alpHandler.Registered? ==>
            e2.verdict == Dispatched(AlpData, payload, |payload|) && l2.rx == [])
  {
    var sent := Transmit(crc, sender, payload, msgType);
    var wire := sent.tx[|sender.tx|..];
    assert wire == Header(sent.upCounter, msgType, |payload|, crc(payload)) + payload + [];
    TwoPassParse(crc, receiver.(rx := wire), sent.upCounter, msgType, crc(payload), payload, [], k);
  }
}
