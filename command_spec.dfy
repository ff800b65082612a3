/**
  The command correlation engine of modem.c as values: the single in-flight command record,
  allocation with a wrapping tag, the decoding of one inbound ALP frame (tag matching and the
  routing of file data), and the outcome of a blocking wait. The class Modem (modem.dfy) is
  proved against these functions; modem_properties.dfy proves what they promise.
 */
module CommandSpec {
  import opened Bytes
  import opened Alp

  /**
    command_t. `responseBuffer` is the content of the caller's buffer the command points to; the
    zeroed record's NULL pointer is a buffer with room for nothing.
   */
  datatype Command = Command(
    tagId: uint8,
    isActive: bool,
    completedWithError: bool,
    executeSynchronous: bool,
    body: seq<Action>,
    responseBuffer: seq<uint8>)

  /** Which callbacks of modem_callbacks_t are set (non-NULL). */
  datatype Callbacks = Callbacks(commandCompleted: bool, returnFileData: bool, writeFileData: bool)

  /**
    The callback table process_serial_frame consults: the one modem_cb_init installed, or, while
    the pointer is still NULL, one with no callback set (only ever used for frames that never
    reach a callback test, see FrameSafe).
   */
  function CallbackTable(cbs: Option<Callbacks>): Callbacks
  {
    if cbs.Some? then cbs.value else Callbacks(false, false, false)
  }

  /** What the engine signals to the outside, in order. */
  datatype Event =
    | CommandCompletedCb(withError: bool)
    | ReturnFileDataCb(fileId: uint8, offset: uint32, data: seq<uint8>)
    | WriteFileDataCb(fileId: uint8, offset: uint32, data: seq<uint8>)
    | WaiterReleased                                  // mutex_unlock(&cmd_mutex) for a sync waiter

  /** modem_status_t */
  datatype ModemStatus = Busy | CommandTimeout | CompletedSuccess | CompletedError | CommandProcessing

  /** memcpy(buffer, data, |data|): the first |data| bytes of the buffer become `data`. */
  function Overwrite(buffer: seq<uint8>, data: seq<uint8>): (r: seq<uint8>)
    ensures |r| == if |data| <= |buffer| then |buffer| else |data|
    ensures r[..|data|] == data
    ensures |data| <= |buffer| ==> r[|data|..] == buffer[|data|..]
  {
    if |data| <= |buffer| then data + buffer[|data|..] else data
  }

  /**
    alloc_command: refuse while a command is active (nothing changes); otherwise start an
    active, asynchronous, error-free command with the next tag, whose body is a tag request for
    that tag, and advance the tag modulo 256. The response buffer pointer is left as it was.
   */
  function Alloc(c: Command, nextTag: uint8): (r: (bool, Command, uint8))
    ensures r.0 <==> !c.isActive
    ensures !r.0 ==> r.1 == c && r.2 == nextTag
    ensures r.0 ==> && r.1.isActive && !r.1.executeSynchronous && !r.1.completedWithError
                    && r.1.tagId == nextTag && r.1.body == [TagRequest(r.1.tagId, true)]
                    && r.1.responseBuffer == c.responseBuffer
                    && r.2 == (nextTag + 1) % 0x100
  {
    if c.isActive then (false, c, nextTag)
    else (true, Command(nextTag, true, false, false, [TagRequest(nextTag, true)], c.responseBuffer), Inc8(nextTag))
  }

  /** The decoding state of process_serial_frame: the command, the local flag, the events. */
  datatype Decoding = Decoding(command: Command, completed: bool, events: seq<Event>)

  /**
    One pass of the decode loop of process_serial_frame, for one inbound action. It can change
    only the completion flag, the error flag and the caller's buffer, and adds at most one event
    at the end of the log; a tag response for another tag changes nothing at all.
   */
  function Apply(cbs: Callbacks, d: Decoding, a: Action): (r: Decoding)
    requires Handled(a)
    ensures r.command == d.command.(completedWithError := r.command.completedWithError,
                                    responseBuffer := r.command.responseBuffer)
    ensures d.events <= r.events && |r.events| <= |d.events| + 1
    ensures !a.ReturnTag? ==> r.completed == d.completed && r.command.completedWithError == d.command.completedWithError
    ensures a.ReturnTag? && a.tag != d.command.tagId ==> r == d
  {
    match a
    case ReturnTag(tag, completed, error) =>
      if tag == d.command.tagId then d.(completed := completed, command := d.command.(completedWithError := error))
      else d
    case WriteFileData(fileId, offset, data) =>
      if cbs.writeFileData then d.(events := d.events + [WriteFileDataCb(fileId, offset, data)]) else d
    case ReturnFileData(fileId, offset, data) =>
      if d.command.executeSynchronous then
        d.(command := d.command.(responseBuffer := Overwrite(d.command.responseBuffer, data)))
      else if cbs.returnFileData then d.(events := d.events + [ReturnFileDataCb(fileId, offset, data)])
      else d
    case ReturnStatus(_) => d
  }

  predicate AllHandled(frame: seq<Action>)
  {
    forall a | a in frame :: Handled(a)
  }

  /**
    The decode loop over a whole frame, action by action. It never changes the command's tag,
    activity, mode or body, and only appends to the event log.
   */
  function ApplyAll(cbs: Callbacks, d: Decoding, frame: seq<Action>): (r: Decoding)
    requires AllHandled(frame)
    ensures r.command.tagId == d.command.tagId && r.command.isActive == d.command.isActive
    ensures r.command.executeSynchronous == d.command.executeSynchronous && r.command.body == d.command.body
    ensures d.events <= r.events
    decreases |frame|
  {
    if frame == [] then d
    else Apply(cbs, ApplyAll(cbs, d, frame[..|frame| - 1]), frame[|frame| - 1])
  }

  /**
    The end of process_serial_frame: on completion, first release the synchronous waiter or call
    the completion callback with the error flag, then mark the command inactive. Only activity
    changes in the command, and at most one event is appended.
   */
  function Complete(cbs: Callbacks, d: Decoding): (r: (Command, seq<Event>))
    ensures r.0 == d.command.(isActive := r.0.isActive)
    ensures r.0.isActive == (d.command.isActive && !d.completed)
    ensures d.events <= r.1 && |r.1| <= |d.events| + 1
    ensures !d.completed ==> r.1 == d.events
  {
    if !d.completed then (d.command, d.events)
    else if d.command.executeSynchronous then (d.command.(isActive := false), d.events + [WaiterReleased])
    else if cbs.commandCompleted then
      (d.command.(isActive := false), d.events + [CommandCompletedCb(d.command.completedWithError)])
    else (d.command.(isActive := false), d.events)
  }

  /** process_serial_frame: what one inbound frame does to the command and the event log. */
  function FrameEffect(cbs: Callbacks, c: Command, events: seq<Event>, frame: seq<Action>): (r: (Command, seq<Event>))
    requires AllHandled(frame)
    ensures r.0.tagId == c.tagId && r.0.executeSynchronous == c.executeSynchronous && r.0.body == c.body
    ensures r.0.isActive ==> c.isActive
    ensures events <= r.1
  {
    Complete(cbs, ApplyAll(cbs, Decoding(c, false, events), frame))
  }

  /**
    block_until_cmd_completed once the wait is over: when signalled, mark the command inactive
    and report its outcome; on timeout report TIMEOUT and leave the command as it is.
   */
  function Wait(c: Command, signalled: bool): (r: (ModemStatus, Command))
    ensures r.0 == CommandTimeout <==> !signalled
    ensures r.1 == c.(isActive := r.1.isActive)
    ensures signalled ==> !r.1.isActive && (r.0 == CompletedError <==> c.completedWithError)
                          && r.0 in {CompletedError, CompletedSuccess}
    ensures !signalled ==> r.1 == c
  {
    if signalled then
      (if c.completedWithError then CompletedError else CompletedSuccess, c.(isActive := false))
    else
      (CommandTimeout, c)
  }

  /** The frame completes the command with tag `tag`: its last tag response for `tag` says completed. */
  predicate Completes(frame: seq<Action>, tag: uint8)
  {
    var m := MatchingTags(frame, tag);
    m != [] && m[|m| - 1].completed
  }

  /**
    process_serial_frame only dereferences valid pointers on `frame`: while no callback table is
    installed (modem_cb_init not called) the frame reaches no callback test (no write-file-data,
    no asynchronous return-file-data, no completion of an asynchronous command), and in
    synchronous mode every return-file-data payload fits the caller's buffer.
   */
  predicate FrameSafe(cbs: Option<Callbacks>, c: Command, frame: seq<Action>)
  {
    && (forall a | a in frame && a.ReturnFileData? && c.executeSynchronous :: |a.data| <= |c.responseBuffer|)
    && (cbs.None? ==> forall a | a in frame :: !a.WriteFileData? && !(a.ReturnFileData? && !c.executeSynchronous))
    && (cbs.None? && !c.executeSynchronous ==> !Completes(frame, c.tagId))
  }

  // ---------------------------------------------------------------------------------------------
  // Reference definitions the decode loop is proved against (modem_properties.dfy)

  /** The tag responses of `frame` that carry `tag`, in order. */
  function MatchingTags(frame: seq<Action>, tag: uint8): (r: seq<Action>)
    ensures forall a | a in r :: a.ReturnTag? && a.tag == tag
    decreases |frame|
  {
    if frame == [] then []
    else
      var a := frame[|frame| - 1];
      MatchingTags(frame[..|frame| - 1], tag) + (if a.ReturnTag? && a.tag == tag then [a] else [])
  }

  /** The callbacks the file-data actions of `frame` trigger, in order. */
  function Deliveries(cbs: Callbacks, sync: bool, frame: seq<Action>): (r: seq<Event>)
    decreases |frame|
  {
    if frame == [] then []
    else
      var a := frame[|frame| - 1];
      Deliveries(cbs, sync, frame[..|frame| - 1]) +
        (if a.WriteFileData? && cbs.writeFileData then [WriteFileDataCb(a.fileId, a.offset, a.data)]
         else if a.ReturnFileData? && !sync && cbs.returnFileData then [ReturnFileDataCb(a.fileId, a.offset, a.data)]
         else [])
  }

  /** The caller's buffer after the return-file-data payloads of `frame` are copied into it in turn. */
  function Copies(buffer: seq<uint8>, frame: seq<Action>): seq<uint8>
    decreases |frame|
  {
    if frame == [] then buffer
    else
      var a := frame[|frame| - 1];
      var b := Copies(buffer, frame[..|frame| - 1]);
      if a.ReturnFileData? then Overwrite(b, a.data) else b
  }
}
