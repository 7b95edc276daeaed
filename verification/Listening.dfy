/** What the bus brings while a transfer waits for flow control, and what a transmitter makes of the grants among it. */
module Listening {
  import opened Basics
  import opened CanFrames
  import opened Arrivals
  import opened IsoTp
  import opened IsoTpTheorems
  import opened Pacing

  /** What the next poll of the bus brings: the wait for flow control running out, a failed read, or frames. */
  datatype BusEvent = DeadlinePasses | ReadFails | Arrive(frames: seq<CanFrame>)

  /** The frames the next poll brings. */
  function Brought(events: seq<BusEvent>): seq<CanFrame> {
    if events != [] && events[0].Arrive? then events[0].frames else []
  }

  /** Every frame these events bring, in order. */
  ghost function FramesOf(events: seq<BusEvent>): seq<CanFrame> {
    if events == [] then [] else Brought(events) + FramesOf(events[1..])
  }

  ghost function DeadlinesIn(events: seq<BusEvent>): nat {
    if events == [] then 0 else (if events[0] == DeadlinePasses then 1 else 0) + DeadlinesIn(events[1..])
  }

  lemma {:induction false} DeadlineTaken(events: seq<BusEvent>)
    requires events != [] && events[0] == DeadlinePasses
    ensures FramesOf(events[1..]) == FramesOf(events) && DeadlinesIn(events[1..]) + 1 == DeadlinesIn(events)
  {
  }

  // ---------------------------------------------------------------- which grants a transfer gets

  /** The frames looked at before the deadline, one per poll, starting with those queued. */
  function Seen(queue: seq<CanFrame>, events: seq<BusEvent>): seq<CanFrame>
    decreases |events|
  {
    if events == [] || events[0] == DeadlinePasses then []
    else
      var waiting := queue + Brought(events);
      if waiting == [] then Seen([], events[1..]) else [waiting[0]] + Seen(waiting[1..], events[1..])
  }

  /** The flow control among these frames for identifiers the bridge owns. */
  function ControlsIn(frames: seq<CanFrame>, owned: set<CanId>): seq<Data> {
    if frames == [] then []
    else (if IsFlowControl(frames[0]) && frames[0].canId in owned then [frames[0].data] else []) + ControlsIn(frames[1..], owned)
  }

  /** A transmitter after sending all the block in progress allows. */
  function BlockSent(tx: Tx): Tx
    decreases |tx.pdu| - tx.sent
  {
    var (next, frame) := Advanced(tx);
    if frame.None? then next else BlockSent(next)
  }

  /** How a transfer ends that hears just these flow control frames: completed, refused, or out of time. */
  function Listen(tx: Tx, controls: seq<Data>): Result<(), TransportError>
    decreases |controls|
  {
    var idle := BlockSent(tx);
    if idle.state == Complete then Ok(())
    else if controls == [] then TimedOut(idle).1
    else
      var (next, verdict) := FlowControlled(idle, controls[0]);
      if verdict.Err? then verdict else Listen(next, controls[1..])
  }

  /** How a transfer ends with these frames queued and these events to come. */
  function Heard(tx: Tx, queue: seq<CanFrame>, events: seq<BusEvent>, owned: set<CanId>): Result<(), TransportError> {
    Listen(tx, ControlsIn(Seen(queue, events), owned))
  }

  // ---------------------------------------------------------------- one poll at a time

  lemma NothingToSend(tx: Tx)
    requires tx.state != SendingBlock
    ensures BlockSent(tx) == tx
  {
  }

  lemma HeardAfterBlock(tx: Tx, queue: seq<CanFrame>, events: seq<BusEvent>, owned: set<CanId>)
    requires BlockSent(tx).state == Complete || BlockSent(tx).state == AwaitingFlowControl
    ensures Heard(BlockSent(tx), queue, events, owned) == Heard(tx, queue, events, owned)
  {
    NothingToSend(BlockSent(tx));
    hide BlockSent, ControlsIn, Seen;
  }

  lemma HeardOutOfTimeIf(tx: Tx, queue: seq<CanFrame>, events: seq<BusEvent>, owned: set<CanId>)
    requires tx.state == AwaitingFlowControl
    ensures events == [] || events[0] == DeadlinePasses ==> Heard(tx, queue, events, owned) == Err(FlowControlTimeout(tx.framesSent))
  {
    NothingToSend(tx);
    hide BlockSent;
  }

  lemma HeardComplete(tx: Tx, queue: seq<CanFrame>, events: seq<BusEvent>, owned: set<CanId>)
    requires tx.state == Complete
    ensures Heard(tx, queue, events, owned) == Ok(())
  {
    NothingToSend(tx);
    hide BlockSent, ControlsIn, Seen;
  }

  lemma HeardNothing(tx: Tx, events: seq<BusEvent>, owned: set<CanId>)
    requires events != [] && events[0] != DeadlinePasses && Brought(events) == []
    ensures Heard(tx, [], events, owned) == Heard(tx, [], events[1..], owned)
  {
    hide Listen, ControlsIn;
    assert [] + Brought(events) == [];
  }

  /** The frame a poll looks at: flow control goes to the transmitter, everything else leaves the transfer as it is. */
  lemma HeardFrame(tx: Tx, queue: seq<CanFrame>, events: seq<BusEvent>, owned: set<CanId>)
    requires tx.state == AwaitingFlowControl && events != [] && events[0] != DeadlinePasses && queue + Brought(events) != []
    ensures var waiting := queue + Brought(events);
            var (next, verdict) := if IsFlowControl(waiting[0]) && waiting[0].canId in owned then FlowControlled(tx, waiting[0].data) else (tx, Ok(()));
            Heard(tx, queue, events, owned) == if verdict.Err? then verdict else Heard(next, waiting[1..], events[1..], owned)
  {
    NothingToSend(tx);
    var waiting := queue + Brought(events);
    var later := Seen(waiting[1..], events[1..]);
    SeenFirst(queue, events);
    ControlsOfMore(waiting[0], later, owned);
    hide BlockSent, Seen, ControlsIn, FlowControlled;
  }

  lemma SeenFirst(queue: seq<CanFrame>, events: seq<BusEvent>)
    requires events != [] && events[0] != DeadlinePasses && queue + Brought(events) != []
    ensures var waiting := queue + Brought(events); Seen(queue, events) == [waiting[0]] + Seen(waiting[1..], events[1..])
  {
  }

  lemma ControlsOfMore(frame: CanFrame, later: seq<CanFrame>, owned: set<CanId>)
    ensures var controls := ControlsIn([frame] + later, owned);
            if IsFlowControl(frame) && frame.canId in owned
            then controls != [] && controls[0] == frame.data && controls[1..] == ControlsIn(later, owned)
            else controls == ControlsIn(later, owned)
  {
    assert ([frame] + later)[1..] == later;
  }

  // ---------------------------------------------------------------- which transfers complete

  /** A flow control frame that lets the transmitter go on. */
  ghost predicate IsGrant(control: Data) {
    |control| >= 3 && control[0] % 16 == 0
  }

  lemma {:induction false} BlockMoves(tx: Tx)
    requires tx.state == SendingBlock && tx.sent < |tx.pdu|
    ensures var idle := BlockSent(tx);
            && idle.pdu == tx.pdu && tx.sent <= idle.sent <= |tx.pdu|
            && (idle.state == Complete || idle.state == AwaitingFlowControl)
            && (idle.state == AwaitingFlowControl ==> tx.remainingInBlock.Some? && idle.sent < |tx.pdu|)
            && (tx.remainingInBlock != Some(0) && idle.state == AwaitingFlowControl ==> idle.sent >= tx.sent + CONSECUTIVE_FRAME_PAYLOAD)
    decreases |tx.pdu| - tx.sent
  {
    hide ConsecutiveFrame, BlockSent;
    var (next, frame) := Advanced(tx);
    SendingStep(tx);
    if frame.None? {
    } else if next.state == Complete {
      NothingToSend(next);
    } else {
      BlockMoves(next);
    }
  }

  lemma SendingStep(tx: Tx)
    ensures BlockSent(tx) == var (next, frame) := Advanced(tx); if frame.None? then next else BlockSent(next)
  {
    hide Advanced;
  }

  /** Seeing nothing but grants, and one for each frame still to go, a transfer completes, whatever the block sizes. */
  lemma {:induction false} EnoughGrantsComplete(tx: Tx, controls: seq<Data>)
    requires tx.state == AwaitingFlowControl && tx.sent < |tx.pdu|
    requires forall k :: 0 <= k < |controls| ==> IsGrant(controls[k])
    requires tx.sent + CONSECUTIVE_FRAME_PAYLOAD * |controls| >= |tx.pdu|
    ensures Listen(tx, controls) == Ok(())
    decreases |controls|
  {
    hide BlockSent;
    NothingToSend(tx);
    assert IsGrant(controls[0]);
    var next := FlowControlled(tx, controls[0]).0;
    BlockMoves(next);
    if BlockSent(next).state == AwaitingFlowControl {
      EnoughGrantsComplete(BlockSent(next), controls[1..]);
      NothingToSend(BlockSent(next));
      ListenAfterBlock(next, controls[1..]);
    } else {
      ListenComplete(next, controls[1..]);
    }
    ListenStep(tx, controls);
  }

  /** A single grant of unlimited size completes any transfer. */
  lemma UnlimitedGrantCompletes(tx: Tx, control: Data, more: seq<Data>)
    requires tx.state == AwaitingFlowControl && tx.sent < |tx.pdu| && IsGrant(control) && control[1] == 0
    ensures Listen(tx, [control] + more) == Ok(())
  {
    hide BlockSent, Listen;
    NothingToSend(tx);
    var next := FlowControlled(tx, control).0;
    BlockMoves(next);
    ListenComplete(next, more);
    assert ([control] + more)[1..] == more;
    ListenStep(tx, [control] + more);
  }

  /** Seeing no flow control at all a transfer that waits runs out of time. */
  lemma SilenceTimesOut(tx: Tx, queue: seq<CanFrame>, events: seq<BusEvent>, owned: set<CanId>)
    requires tx.state == AwaitingFlowControl && ControlsIn(Seen(queue, events), owned) == []
    ensures Heard(tx, queue, events, owned) == Err(FlowControlTimeout(tx.framesSent))
  {
    NothingToSend(tx);
    hide BlockSent, ControlsIn, Seen;
  }

  lemma ListenStep(tx: Tx, controls: seq<Data>)
    requires tx.state == AwaitingFlowControl && BlockSent(tx) == tx && controls != []
    ensures Listen(tx, controls) ==
              var (next, verdict) := FlowControlled(tx, controls[0]); if verdict.Err? then verdict else Listen(next, controls[1..])
  {
    hide BlockSent, FlowControlled;
  }

  lemma ListenAfterBlock(tx: Tx, controls: seq<Data>)
    requires BlockSent(BlockSent(tx)) == BlockSent(tx)
    ensures Listen(BlockSent(tx), controls) == Listen(tx, controls)
  {
    hide BlockSent;
  }

  lemma ListenComplete(tx: Tx, controls: seq<Data>)
    requires BlockSent(tx).state == Complete
    ensures Listen(tx, controls) == Ok(())
  {
    hide BlockSent;
  }

  // ---------------------------------------------------------------- waits and refusals

  /** A flow control frame that asks to wait. */
  ghost predicate IsWait(control: Data) {
    |control| >= 3 && control[0] % 16 == 1
  }

  /** How many waits come before the first flow control frame that decides anything; one too short decides nothing. */
  ghost function LeadingWaits(controls: seq<Data>): nat {
    if controls == [] then 0
    else if |controls[0]| < 3 then LeadingWaits(controls[1..])
    else if IsWait(controls[0]) then 1 + LeadingWaits(controls[1..])
    else 0
  }

  lemma OneControl(tx: Tx, control: Data)
    requires tx.state == AwaitingFlowControl
    ensures var (next, verdict) := FlowControlled(tx, control);
            && (|control| < 3 ==> next == tx && verdict.Ok?)
            && (IsWait(control) && tx.waits < 10 ==> next == tx.(waits := tx.waits + 1) && verdict.Ok?)
            && (IsWait(control) && tx.waits >= 10 ==> verdict == Err(TooManyWaitFrames(tx.waits + 1)))
            && (|control| >= 3 && control[0] % 16 == 2 ==> verdict == Err(ReceiverOverflow))
            && (|control| >= 3 && control[0] % 16 >= 3 ==> verdict == Err(InvalidFlowStatus(control[0] % 16)))
            && (IsGrant(control) ==> verdict.Ok? && next.state == SendingBlock && next.waits == 0)
  {
  }

  /** What has been decided but for the waits counted is decided alike. */
  lemma CountMatters(tx: Tx, control: Data, waits: nat)
    requires tx.state == AwaitingFlowControl && |control| >= 3 && !IsWait(control)
    ensures FlowControlled(tx.(waits := waits), control).1 == FlowControlled(tx, control).1
    ensures FlowControlled(tx, control).1.Ok? ==> FlowControlled(tx.(waits := waits), control) == FlowControlled(tx, control)
  {
  }

  /** The waits counted so far matter only if those still in front bring them past ten. */
  lemma {:induction false} WaitsDecide(tx: Tx, controls: seq<Data>)
    requires tx.state == AwaitingFlowControl && tx.waits <= 10
    ensures Listen(tx, controls) ==
            if tx.waits + LeadingWaits(controls) > 10 then Err(TooManyWaitFrames(11)) else Listen(tx.(waits := 0), controls)
    decreases |controls|
  {
    hide BlockSent, FlowControlled, IsWait, IsGrant;
    var anew := tx.(waits := 0);
    NothingToSend(tx);
    NothingToSend(anew);
    if controls != [] {
      OneControl(tx, controls[0]);
      OneControl(anew, controls[0]);
      ListenStep(tx, controls);
      ListenStep(anew, controls);
      if |controls[0]| < 3 {
        WaitsDecide(tx, controls[1..]);
      } else if IsWait(controls[0]) {
        WaitsDecide(anew.(waits := 1), controls[1..]);
        if tx.waits < 10 { WaitsDecide(tx.(waits := tx.waits + 1), controls[1..]); }
      } else {
        CountMatters(tx, controls[0], 0);
      }
    }
  }

  /** Up to ten waits in a row change nothing about how a transfer ends; the eleventh aborts it. */
  lemma {:induction false} TenWaitsChangeNothing(tx: Tx, waits: seq<Data>, controls: seq<Data>)
    requires tx.state == AwaitingFlowControl && tx.waits == 0
    requires forall k :: 0 <= k < |waits| ==> IsWait(waits[k])
    ensures Listen(tx, waits + controls) ==
            if |waits| + LeadingWaits(controls) > 10 then Err(TooManyWaitFrames(11)) else Listen(tx, controls)
    decreases |waits|
  {
    WaitsLead(waits, controls);
    WaitsDecide(tx, controls);
    WaitsDecide(tx, waits + controls);
    if waits == [] {
      assert waits + controls == controls;
    } else if |waits| + LeadingWaits(controls) <= 10 {
      OneControl(tx, waits[0]);
      NothingToSend(tx);
      assert (waits + controls)[1..] == waits[1..] + controls;
      ListenStep(tx, waits + controls);
      WaitsLead(waits[1..], controls);
      WaitsDecide(tx.(waits := 1), waits[1..] + controls);
      TenWaitsChangeNothing(tx, waits[1..], controls);
    }
  }

  lemma {:induction false} WaitsLead(waits: seq<Data>, controls: seq<Data>)
    requires forall k :: 0 <= k < |waits| ==> IsWait(waits[k])
    ensures LeadingWaits(waits + controls) == |waits| + LeadingWaits(controls)
    decreases |waits|
  {
    if waits == [] {
      assert waits + controls == controls;
    } else {
      assert (waits + controls)[1..] == waits[1..] + controls;
      assert IsWait(waits[0]);
      WaitsLead(waits[1..], controls);
    }
  }

  /** A grant starts the count afresh. */
  lemma GrantForgetsWaits(tx: Tx, grant: Data, more: seq<Data>, waits: nat)
    requires tx.state == AwaitingFlowControl && IsGrant(grant)
    ensures Listen(tx.(waits := waits), [grant] + more) == Listen(tx, [grant] + more)
    ensures FlowControlled(tx, grant).0.waits == 0
  {
    hide BlockSent, Listen;
    NothingToSend(tx);
    NothingToSend(tx.(waits := waits));
    CountMatters(tx, grant, waits);
    OneControl(tx, grant);
    ListenStep(tx, [grant] + more);
    ListenStep(tx.(waits := waits), [grant] + more);
  }

  /** Status 2 aborts a transfer for overflow, status 3 and above as invalid, and a frame too short does nothing. */
  lemma OtherStatusesAbort(tx: Tx, control: Data, more: seq<Data>)
    requires tx.state == AwaitingFlowControl
    ensures var end := Listen(tx, [control] + more);
            && (|control| >= 3 && control[0] % 16 == 2 ==> end == Err(ReceiverOverflow))
            && (|control| >= 3 && control[0] % 16 >= 3 ==> end == Err(InvalidFlowStatus(control[0] % 16)))
            && (|control| < 3 ==> end == Listen(tx, more))
  {
    hide BlockSent, Listen, FlowControlled;
    NothingToSend(tx);
    OneControl(tx, control);
    assert ([control] + more)[1..] == more;
    ListenStep(tx, [control] + more);
  }

  // ---------------------------------------------------------------- what flow control is

  /** Whatever a receiver answers with, put on the bus, is flow control; so is a wait. */
  lemma AnswersAreFlowControl(rx: Rx, data: Data, timestamp: real, canId: CanId)
    ensures var answer := Received(rx, data).1;
            answer.SendFlowControl? || answer.Refused? ==> IsFlowControl(NewClassic(timestamp, canId, answer.frame))
    ensures IsFlowControl(NewClassic(timestamp, canId, FlowControlFrame(rx.params, 0x31)))
  {
    BuiltIsFlowControl(rx.params, 0x30, timestamp, canId);
    BuiltIsFlowControl(rx.params, 0x31, timestamp, canId);
    BuiltIsFlowControl(rx.params, 0x32, timestamp, canId);
    hide FlowControlFrame, NewClassic, IsFlowControl;
  }

  lemma BuiltIsFlowControl(params: IsoTpParameters, status: Byte, timestamp: real, canId: CanId)
    requires 0x30 <= status <= 0x3F
    ensures IsFlowControl(NewClassic(timestamp, canId, FlowControlFrame(params, status)))
  {
    BuiltStartsWith(params, status);
    hide FlowControlFrame;
  }

  lemma BuiltStartsWith(params: IsoTpParameters, status: Byte)
    ensures var frame := FlowControlFrame(params, status);
            |frame| >= 3 && frame[0] == status && frame[1] == params.blockSize && frame[2] == params.separationTimeMin
  {
    var frame := FlowControlFrame(params, status);
    assert frame[..3] == [status, params.blockSize, params.separationTimeMin];
    assert frame[0] == frame[..3][0] && frame[1] == frame[..3][1] && frame[2] == frame[..3][2];
  }

  /** No frame a message is sent in is flow control: single, first and consecutive ones start otherwise. */
  lemma MessagesAreNoFlowControl(pdu: Data, padding: Option<Byte>, i: nat, frame: CanFrame)
    requires IsSendable(pdu) && i < |Frames(pdu, padding)| && frame.data == Frames(pdu, padding)[i]
    ensures !IsFlowControl(frame)
  {
    var data := FrameAt(pdu, padding, i);
    if |pdu| <= MAX_SINGLE_FRAME {
      assert data[..1 + |pdu|] == [|pdu|] + pdu;
      assert data[0] == data[..1 + |pdu|][0];
    } else if i > 0 {
      FrameTakenApart(pdu, padding, i);
    }
  }

  /** So a waiting transfer whose next frame is an unlimited grant some receiver sent on an owned identifier completes. */
  lemma ReceiversGrantCompletes(tx: Tx, queue: seq<CanFrame>, events: seq<BusEvent>, owned: set<CanId>,
                                params: IsoTpParameters, timestamp: real, canId: CanId)
    requires tx.state == AwaitingFlowControl && tx.sent < |tx.pdu| && canId in owned && params.blockSize == 0
    requires events != [] && events[0] != DeadlinePasses && queue + Brought(events) != []
    requires (queue + Brought(events))[0] == NewClassic(timestamp, canId, FlowControlFrame(params, 0x30))
    ensures Heard(tx, queue, events, owned) == Ok(())
  {
    hide Seen, ControlsIn, Listen, FlowControlFrame, IsFlowControl;
    var waiting := queue + Brought(events);
    var grant, later := waiting[0], Seen(waiting[1..], events[1..]);
    BuiltIsFlowControl(params, 0x30, timestamp, canId);
    BuiltStartsWith(params, 0x30);
    SeenFirst(queue, events);
    ControlsOfMore(grant, later, owned);
    var controls := ControlsIn([grant] + later, owned);
    assert controls == [controls[0]] + controls[1..];
    UnlimitedGrantCompletes(tx, grant.data, controls[1..]);
  }
}
