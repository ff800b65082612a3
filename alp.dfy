/**
  The ALP (DASH7 Alliance Protocol application layer) actions the driver builds and receives.
  The ALP encoder and decoder belong to the firmware's ALP library, which is not part of this
  model: an action is kept as an abstract value, a command body and an inbound frame are lists of
  them, and turning an action into bytes is a parameter of the modem (see modem.dfy).
 */
module Alp {
  import opened Bytes

  /** The forward-to-interface identifiers the driver uses (alp_itf_id_t). */
  datatype InterfaceId = D7asp | LoRaWanOtaa | LoRaWanAbp

  datatype Action =
    | TagRequest(tag: uint8, respondWhenCompleted: bool)             // ALP tag request
    | ReturnTag(tag: uint8, completed: bool, error: bool)            // ALP_OP_RETURN_TAG
    | ReadFileData(fileId: uint8, offset: uint32, size: uint32)
    | WriteFileData(fileId: uint8, offset: uint32, data: seq<uint8>) // ALP_OP_WRITE_FILE_DATA
    | ReturnFileData(fileId: uint8, offset: uint32, data: seq<uint8>) // ALP_OP_RETURN_FILE_DATA
    | ReturnStatus(status: seq<uint8>)                               // ALP_OP_RETURN_STATUS
    | Forward(itf: InterfaceId, config: seq<uint8>)

  /**
    The operations process_serial_frame has a case for; any other operation reaches its
    `default: assert(false)`.
   */
  predicate Handled(a: Action)
  {
    a.ReturnTag? || a.WriteFileData? || a.ReturnFileData? || a.ReturnStatus?
  }

  /**
    session_config_t: the interface type selects which member of the configuration union is
    meaningful. A configuration is kept as the bytes the driver copies into the forward action.
   */
  datatype SessionConfig =
    | Dash7Session(d7apConfig: seq<uint8>)
    | LoRaWanOtaaSession(otaaConfig: seq<uint8>)
    | LoRaWanAbpSession(abpConfig: seq<uint8>)
    | OtherInterface(interfaceType: uint8)

  /**
    The forward action modem_send_unsolicited_response puts before the data: the interface id
    chosen by the interface type, with that interface's configuration; none for other types.
   */
  function ForwardFor(config: SessionConfig): (r: seq<Action>)
    ensures |r| <= 1
    ensures r == [] <==> config.OtherInterface?
  {
    match config
    case Dash7Session(c) => [Forward(D7asp, c)]
    case LoRaWanOtaaSession(c) => [Forward(LoRaWanOtaa, c)]
    case LoRaWanAbpSession(c) => [Forward(LoRaWanAbp, c)]
    case OtherInterface(_) => []
  }
}
