/**
  The serial frame of the modem link:
    [sync 0xC0][version 0x00][counter][type][length][crc high][crc low][payload: length bytes]
  The CRC-16 is taken over the payload only.
 */
module Framing {
  import opened Bytes

  const SyncByte: uint8 := 0xC0
  const Version: uint8 := 0x00
  const HeaderSize: nat := 7
  const CounterField: nat := 2
  const TypeField: nat := 3
  const SizeField: nat := 4
  const Crc1Field: nat := 5
  const Crc2Field: nat := 6

  /** Capacity of the receive FIFO (RX_BUFFER_SIZE). */
  const RxBufferSize: nat := 256
  /** Capacity of the transmit FIFO (MODEM_INTERFACE_TX_FIFO_SIZE). */
  const TxFifoSize: nat := 255

  /** serial_message_type_t */
  const AlpData: uint8 := 0x01
  const PingRequest: uint8 := 0x02
  const PingResponse: uint8 := 0x03
  const Logging: uint8 := 0x04

  /** The CRC routine of the firmware (crc_calculate), whose algorithm is not part of this model. */
  type CrcFn = seq<uint8> -> uint16

  /** The 7 header bytes that precede a payload of `length` bytes with checksum `crc`. */
  function Header(counter: uint8, msgType: uint8, length: uint8, crc: uint16): (h: seq<uint8>)
    ensures |h| == HeaderSize
  {
    [SyncByte, Version, counter, msgType, length, HighByte(crc), LowByte(crc)]
  }

  /** The whole frame that carries `payload`, as it goes on the wire. */
  function Frame(crc: CrcFn, counter: uint8, msgType: uint8, payload: seq<uint8>): (f: seq<uint8>)
    requires |payload| < 0x100
    ensures |f| == HeaderSize + |payload|
    ensures f[..HeaderSize] == Header(counter, msgType, |payload|, crc(payload))
    ensures f[HeaderSize..] == payload
  {
    Header(counter, msgType, |payload|, crc(payload)) + payload
  }

  /** The header search accepts a window as a header when its sync and version bytes are right. */
  predicate StartsHeader(h: seq<uint8>)
    requires |h| >= 2
  {
    h[0] == SyncByte && h[1] == Version
  }

  /** The stored checksum bytes of header `h` agree with the CRC of `payload`. */
  predicate CrcMatches(crc: CrcFn, h: seq<uint8>, payload: seq<uint8>)
    requires |h| == HeaderSize
  {
    h[Crc1Field] == HighByte(crc(payload)) && h[Crc2Field] == LowByte(crc(payload))
  }

  /** Checking both stored CRC bytes is the same as checking the whole 16-bit CRC. */
  lemma CrcMatchesIffEqual(crc: CrcFn, counter: uint8, msgType: uint8, stored: uint16, payload: seq<uint8>)
    requires |payload| < 0x100
    ensures CrcMatches(crc, Header(counter, msgType, |payload|, stored), payload) <==> stored == crc(payload)
  {
    BytesDetermineWord(stored, crc(payload));
  }
}
