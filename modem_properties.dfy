/**
  Properties of the command correlation engine: how an inbound frame is matched against the
  command's tag (the last matching tag response wins; foreign tags change nothing), how file
  data is routed (caller's buffer in synchronous mode, callbacks otherwise), and how the single
  command slot is taken and freed (allocation, completion, timeout, reinit).
 */
module ModemProperties {
  import opened Bytes
  import opened Alp
  import opened CommandSpec

  /**
    The decode loop never changes the command's tag, activity, mode or body. Its completion flag
    and the command's error flag are those of the last tag response carrying the command's tag,
    and stay as they were when there is none.
   */
  lemma {:induction false} DecodeTagMatching(cbs: Callbacks, d: Decoding, frame: seq<Action>)
    requires AllHandled(frame)
    ensures var r := ApplyAll(cbs, d, frame);
      var m := MatchingTags(frame, d.command.tagId);
      && r.command.tagId == d.command.tagId
      && r.command.isActive == d.command.isActive
      && r.command.executeSynchronous == d.command.executeSynchronous
      && r.command.body == d.command.body
      && r.completed == (if m == [] then d.completed else m[|m| - 1].completed)
      && r.command.completedWithError == (if m == [] then d.command.completedWithError else m[|m| - 1].error)
    decreases |frame|
  {
    if frame != [] {
      var f, a := frame[..|frame| - 1], frame[|frame| - 1];
      DecodeTagMatching(cbs, d, f);
      var prev := ApplyAll(cbs, d, f);
      assert ApplyAll(cbs, d, frame) == Apply(cbs, prev, a);
      assert MatchingTags(frame, d.command.tagId)
          == MatchingTags(f, d.command.tagId) + (if a.ReturnTag? && a.tag == d.command.tagId then [a] else []);
    }
  }

  /**
    The decode loop adds exactly the file-data callbacks of the frame to the event log, and
    copies return-file-data payloads into the caller's buffer only in synchronous mode.
   */
  lemma {:induction false} DecodeDataRouting(cbs: Callbacks, d: Decoding, frame: seq<Action>)
    requires AllHandled(frame)
    ensures var r := ApplyAll(cbs, d, frame);
      && r.events == d.events + Deliveries(cbs, d.command.executeSynchronous, frame)
      && r.command.responseBuffer
         == (if d.command.executeSynchronous then Copies(d.command.responseBuffer, frame)
             else d.command.responseBuffer)
    decreases |frame|
  {
    if frame != [] {
      var f, a := frame[..|frame| - 1], frame[|frame| - 1];
      DecodeDataRouting(cbs, d, f);
      DecodeTagMatching(cbs, d, f);
      var prev := ApplyAll(cbs, d, f);
      assert prev.command.executeSynchronous == d.command.executeSynchronous;
      assert ApplyAll(cbs, d, frame) == Apply(cbs, prev, a);
      var sync := d.command.executeSynchronous;
      assert Deliveries(cbs, sync, frame)
          == Deliveries(cbs, sync, f)
           + (if a.WriteFileData? && cbs.writeFileData then [WriteFileDataCb(a.fileId, a.offset, a.data)]
              else if a.ReturnFileData? && !sync && cbs.returnFileData then [ReturnFileDataCb(a.fileId, a.offset, a.data)]
              else []);
    }
  }

  /**
    Routing of file data: in synchronous mode no return-file-data callback fires (the data goes
    to the caller's buffer); a write-file-data action fires its callback in either mode exactly
    when that callback is set.
   */
  lemma {:induction false} DeliveriesRouting(cbs: Callbacks, sync: bool, frame: seq<Action>)
    ensures sync ==> forall e | e in Deliveries(cbs, sync, frame) :: !e.ReturnFileDataCb?
    ensures !cbs.returnFileData ==> forall e | e in Deliveries(cbs, sync, frame) :: !e.ReturnFileDataCb?
    ensures !cbs.writeFileData ==> forall e | e in Deliveries(cbs, sync, frame) :: !e.WriteFileDataCb?
    ensures cbs.writeFileData ==>
      forall a | a in frame && a.WriteFileData? :: WriteFileDataCb(a.fileId, a.offset, a.data) in Deliveries(cbs, sync, frame)
    ensures !sync && cbs.returnFileData ==>
      forall a | a in frame && a.ReturnFileData? :: ReturnFileDataCb(a.fileId, a.offset, a.data) in Deliveries(cbs, sync, frame)
    decreases |frame|
  {
    if frame != [] {
      var f := frame[..|frame| - 1];
      DeliveriesRouting(cbs, sync, f);
      assert forall a | a in frame :: a in f || a == frame[|frame| - 1];
    }
  }

  /**
    process_serial_frame as a whole: completion happens exactly when the last tag response
    carrying the command's tag says completed. Completion releases the synchronous waiter, or
    calls the completion callback (if set) with the error flag, and then clears is_active;
    without completion is_active is unchanged. The tag, mode and body are never changed.
   */
  lemma FrameCompletion(cbs: Callbacks, c: Command, events: seq<Event>, frame: seq<Action>)
    requires AllHandled(frame)
    ensures var (c', events') := FrameEffect(cbs, c, events, frame);
      var m := MatchingTags(frame, c.tagId);
      var done := m != [] && m[|m| - 1].completed;
      var delivered := events + Deliveries(cbs, c.executeSynchronous, frame);
      && c'.isActive == (c.isActive && !done)
      && c'.tagId == c.tagId && c'.executeSynchronous == c.executeSynchronous && c'.body == c.body
      && c'.completedWithError == (if m == [] then c.completedWithError else m[|m| - 1].error)
      && c'.responseBuffer == (if c.executeSynchronous then Copies(c.responseBuffer, frame) else c.responseBuffer)
      && (!done ==> events' == delivered)
      && (done && c.executeSynchronous ==> events' == delivered + [WaiterReleased])
      && (done && !c.executeSynchronous && cbs.commandCompleted ==>
            events' == delivered + [CommandCompletedCb(c'.completedWithError)])
      && (done && !c.executeSynchronous && !cbs.commandCompleted ==> events' == delivered)
  {
    DecodeTagMatching(cbs, Decoding(c, false, events), frame);
    DecodeDataRouting(cbs, Decoding(c, false, events), frame);
  }

  /** A frame with no tag response carrying `tag` has no matching tag response. */
  lemma {:induction false} NoMatchingTags(frame: seq<Action>, tag: uint8)
    requires forall a | a in frame && a.ReturnTag? :: a.tag != tag
    ensures MatchingTags(frame, tag) == []
    decreases |frame|
  {
    if frame != [] {
      NoMatchingTags(frame[..|frame| - 1], tag);
    }
  }

  /**
    Tag responses for other tags leave the command record untouched: a frame whose tag
    responses all carry foreign tags changes neither is_active nor the error flag and completes
    nothing; only its file data can reach the caller's buffer.
   */
  lemma ForeignTagsLeaveCommand(cbs: Callbacks, c: Command, events: seq<Event>, frame: seq<Action>)
    requires AllHandled(frame)
    requires forall a | a in frame && a.ReturnTag? :: a.tag != c.tagId
    ensures var (c', events') := FrameEffect(cbs, c, events, frame);
      && c' == c.(responseBuffer := c'.responseBuffer)
      && events' == events + Deliveries(cbs, c.executeSynchronous, frame)
      && (!c.executeSynchronous ==> c' == c)
  {
    NoMatchingTags(frame, c.tagId);
    FrameCompletion(cbs, c, events, frame);
  }

  /** A timed-out wait leaves an active command active, so allocation keeps answering BUSY. */
  lemma TimeoutKeepsSlot(c: Command, nextTag: uint8)
    requires c.isActive
    ensures var (status, c') := Wait(c, false);
      status == CommandTimeout && !Alloc(c', nextTag).0
  {
  }

  /** The command after a series of inbound frames, handled in order. */
  function FramesEffect(cbs: Callbacks, c: Command, events: seq<Event>, frames: seq<seq<Action>>): Command
    requires forall f | f in frames :: AllHandled(f)
    decreases |frames|
  {
    if frames == [] then c
    else FrameEffect(cbs, FramesEffect(cbs, c, events, frames[..|frames| - 1]), events, frames[|frames| - 1]).0
  }

  /**
    A taken slot is freed only by a completing frame (or modem_reinit): after any series of
    frames none of which completes the command, the command is still active with the same tag,
    and every allocation answers BUSY. In particular a timed-out command keeps the slot.
   */
  lemma {:induction false} SlotStaysTaken(cbs: Callbacks, c: Command, events: seq<Event>,
                                          frames: seq<seq<Action>>, nextTag: uint8)
    requires c.isActive
    requires forall f | f in frames :: AllHandled(f)
    requires forall f | f in frames :: !Completes(f, c.tagId)
    ensures var c' := FramesEffect(cbs, c, events, frames);
      c'.isActive && c'.tagId == c.tagId && !Alloc(c', nextTag).0
    decreases |frames|
  {
    if frames != [] {
      var init := frames[..|frames| - 1];
      SlotStaysTaken(cbs, c, events, init, nextTag);
      var before := FramesEffect(cbs, c, events, init);
      FrameCompletion(cbs, before, events, frames[|frames| - 1]);
    }
  }

  /**
    Correlation: an idle slot allocated with tag N is completed by a frame holding a completed
    tag response for N, which fires exactly one completion and frees the slot, so the next
    allocation succeeds with tag N + 1; a completed tag response for any other tag leaves the
    command active and fires nothing.
   */
  lemma Correlation(cbs: Callbacks, c: Command, events: seq<Event>, n: uint8, other: uint8, error: bool)
    requires !c.isActive && other != n
    ensures var (ok, c1, next) := Alloc(c, n);
      var (c2, events2) := FrameEffect(cbs, c1, events, [ReturnTag(n, true, error)]);
      var (c3, events3) := FrameEffect(cbs, c1, events, [ReturnTag(other, true, error)]);
      && ok && c1.tagId == n
      && !c2.isActive && c2.completedWithError == error
      && (cbs.commandCompleted ==> events2 == events + [CommandCompletedCb(error)])
      && Alloc(c2, next).0 && Alloc(c2, next).1.tagId == Inc8(n)
      && c3 == c1 && events3 == events
  {
    var (ok, c1, next) := Alloc(c, n);
    var mine, foreign := [ReturnTag(n, true, error)], [ReturnTag(other, true, error)];
    assert mine[..0] == [] && foreign[..0] == [];
    assert ApplyAll(cbs, Decoding(c1, false, events), mine)
        == Decoding(c1.(completedWithError := error), true, events);
    assert ApplyAll(cbs, Decoding(c1, false, events), foreign) == Decoding(c1, false, events);
  }
}
