/**
 * ISO-TP (ISO 15765-2) transport: the transmitter, the receiver and the offline reassembler, each
 * as a step on values and as the object the engine runs.
 */
module IsoTp {
  import opened Basics
  import opened Pacing

  type Data = seq<Byte>

  const FRAME_LENGTH := 8
  const MAX_SINGLE_FRAME := 7
  const FIRST_FRAME_PAYLOAD := 6
  const CONSECUTIVE_FRAME_PAYLOAD := 7
  const MAX_PDU := 4095
  const MAX_WAIT_FRAMES := 10

  function Min(a: nat, b: nat): nat {
    if a < b then a else b
  }

  /** Fill a frame up to eight bytes, where a padding byte is set. */
  function WithPadding(frame: Data, padding: Option<Byte>): (padded: Data)
    ensures frame <= padded
    ensures padding.Some? && |frame| <= FRAME_LENGTH ==> |padded| == FRAME_LENGTH
    ensures padding.None? || |frame| >= FRAME_LENGTH ==> padded == frame
    ensures forall k :: |frame| <= k < |padded| ==> padding == Some(padded[k])
    decreases FRAME_LENGTH - |frame|
  {
    if padding.None? || |frame| >= FRAME_LENGTH then frame
    else WithPadding(frame + [padding.value], padding)
  }

  method ApplyPadding(frame: Data, padding: Option<Byte>) returns (padded: Data)
    ensures padded == WithPadding(frame, padding)
  {
    padded := frame;
    if padding.None? { return; }
    while |padded| < FRAME_LENGTH
      invariant WithPadding(padded, padding) == WithPadding(frame, padding)
    {
      padded := padded + [padding.value];
    }
  }

  // ---------------------------------------------------------------- transmitting, as values

  datatype TransportError =
    | PduTooLong(length: nat)
    | EmptyPdu
    | FlowControlTimeout(framesSent: nat)
    | TooManyWaitFrames(waits: nat)
    | ReceiverOverflow
    | InvalidFlowStatus(status: Byte)

  datatype TransmitState = Idle | AwaitingFlowControl | SendingBlock | Complete | Aborted(error: TransportError)

  datatype Tx = Tx(
    params: IsoTpParameters,
    pdu: Data,
    sent: nat,
    sequence: Byte,
    remainingInBlock: Option<Byte>,
    separation: nat,
    waits: nat,
    framesSent: nat,
    state: TransmitState)

  function NewTx(params: IsoTpParameters): Tx {
    Tx(params, [], 0, 1, None, 0, 0, 0, Idle)
  }

  function SingleFrame(pdu: Data, padding: Option<Byte>): Data
    requires |pdu| <= MAX_SINGLE_FRAME
  {
    WithPadding([|pdu|] + pdu, padding)
  }

  function FirstFrame(pdu: Data): Data
    requires FIRST_FRAME_PAYLOAD <= |pdu| <= MAX_PDU
  {
    [0x10 + |pdu| / 256, |pdu| % 256] + pdu[..FIRST_FRAME_PAYLOAD]
  }

  function ConsecutiveFrame(pdu: Data, sent: nat, sequence: Byte, padding: Option<Byte>): Data
    requires sent <= |pdu|
  {
    WithPadding([0x20 + sequence % 16] + pdu[sent..sent + Min(|pdu| - sent, CONSECUTIVE_FRAME_PAYLOAD)], padding)
  }

  function Begun(tx: Tx, pdu: Data): (Tx, Result<Data, TransportError>) {
    if pdu == [] then (tx, Err(EmptyPdu))
    else if |pdu| > MAX_PDU then (tx, Err(PduTooLong(|pdu|)))
    else
      var begun := tx.(pdu := pdu, sent := 0, sequence := 1, waits := 0, framesSent := 1);
      if |pdu| <= MAX_SINGLE_FRAME then
        (begun.(state := Complete, sent := |pdu|), Ok(SingleFrame(pdu, tx.params.padding)))
      else
        (begun.(state := AwaitingFlowControl, sent := FIRST_FRAME_PAYLOAD), Ok(FirstFrame(pdu)))
  }

  function AbortedWith(tx: Tx, error: TransportError): (Tx, Result<(), TransportError>) {
    (tx.(state := Aborted(error)), Err(error))
  }

  function FlowControlled(tx: Tx, frame: Data): (Tx, Result<(), TransportError>) {
    if tx.state != AwaitingFlowControl || |frame| < 3 then (tx, Ok(()))
    else
      var status := frame[0] % 16;
      if status == 0 then
        (tx.(waits := 0, remainingInBlock := if frame[1] == 0 then None else Some(frame[1]),
             separation := DecodeSeparationTime(frame[2]), state := SendingBlock), Ok(()))
      else if status == 1 then
        var waiting := tx.(waits := tx.waits + 1);
        if waiting.waits > MAX_WAIT_FRAMES then AbortedWith(waiting, TooManyWaitFrames(waiting.waits)) else (waiting, Ok(()))
      else if status == 2 then AbortedWith(tx, ReceiverOverflow)
      else AbortedWith(tx, InvalidFlowStatus(status))
  }

  function TimedOut(tx: Tx): (Tx, Result<(), TransportError>) {
    AbortedWith(tx, FlowControlTimeout(tx.framesSent))
  }

  function Advanced(tx: Tx): (Tx, Option<Data>) {
    if tx.state != SendingBlock then (tx, None)
    else if tx.sent >= |tx.pdu| then (tx.(state := Complete), None)
    else if tx.remainingInBlock == Some(0) then (tx.(state := AwaitingFlowControl), None)
    else
      var frame := ConsecutiveFrame(tx.pdu, tx.sent, tx.sequence, tx.params.padding);
      var sent := tx.sent + Min(|tx.pdu| - tx.sent, CONSECUTIVE_FRAME_PAYLOAD);
      (tx.(remainingInBlock := if tx.remainingInBlock.Some? then Some(tx.remainingInBlock.value - 1) else None,
           sent := sent, sequence := (tx.sequence + 1) % 16, framesSent := tx.framesSent + 1,
           state := if sent >= |tx.pdu| then Complete else SendingBlock), Some(frame))
  }

  // ---------------------------------------------------------------- the transmitter

  class IsoTpTransmitter {
    const params: IsoTpParameters
    var pdu: Data
    var sent: nat
    var sequence: Byte
    var remainingInBlock: Option<Byte>
    var separation: nat
    var waits: nat
    var framesSent: nat
    var state: TransmitState

    constructor (params: IsoTpParameters)
      ensures Now() == NewTx(params)
    {
      this.params := params;
      pdu, sent, sequence, remainingInBlock := [], 0, 1, None;
      separation, waits, framesSent, state := 0, 0, 0, Idle;
    }

    function Now(): Tx
      reads this
    {
      Tx(params, pdu, sent, sequence, remainingInBlock, separation, waits, framesSent, state)
    }

    method Begin(message: Data) returns (first: Result<Data, TransportError>)
      modifies this
      ensures (Now(), first) == Begun(old(Now()), message)
    {
      if message == [] { return Err(EmptyPdu); }
      if |message| > MAX_PDU { return Err(PduTooLong(|message|)); }
      pdu, sent, sequence, waits, framesSent := message, 0, 1, 0, 1;
      if |message| <= MAX_SINGLE_FRAME {
        state := Complete;
        sent := |message|;
        var single := ApplyPadding([|pdu|] + pdu, params.padding);
        return Ok(single);
      }
      state := AwaitingFlowControl;
      var opening := [0x10 + |pdu| / 256, |pdu| % 256] + pdu[..FIRST_FRAME_PAYLOAD];
      sent := FIRST_FRAME_PAYLOAD;
      return Ok(opening);
    }

    method OnFlowControl(frame: Data) returns (verdict: Result<(), TransportError>)
      modifies this
      ensures (Now(), verdict) == FlowControlled(old(Now()), frame)
    {
      if state != AwaitingFlowControl { return Ok(()); }
      if |frame| < 3 { return Ok(()); }
      var status := frame[0] % 16;
      if status == 0 {
        waits := 0;
        remainingInBlock := if frame[1] == 0 then None else Some(frame[1]);
        separation := DecodeSeparationTime(frame[2]);
        state := SendingBlock;
        return Ok(());
      }
      if status == 1 {
        waits := waits + 1;
        if waits > MAX_WAIT_FRAMES {
          verdict := Abort(TooManyWaitFrames(waits));
          return;
        }
        return Ok(());
      }
      if status == 2 {
        verdict := Abort(ReceiverOverflow);
      } else {
        verdict := Abort(InvalidFlowStatus(status));
      }
    }

    method OnFlowControlTimeout() returns (verdict: Result<(), TransportError>)
      modifies this
      ensures (Now(), verdict) == TimedOut(old(Now()))
    {
      verdict := Abort(FlowControlTimeout(framesSent));
    }

    method Abort(error: TransportError) returns (verdict: Result<(), TransportError>)
      modifies this`state
      ensures (Now(), verdict) == AbortedWith(old(Now()), error)
    {
      state := Aborted(error);
      return Err(error);
    }

    method NextConsecutiveFrame() returns (next: Option<Data>)
      modifies this
      ensures (Now(), next) == Advanced(old(Now()))
    {
      if state != SendingBlock { return None; }
      if sent >= |pdu| {
        state := Complete;
        return None;
      }
      if remainingInBlock.Some? {
        if remainingInBlock.value == 0 {
          state := AwaitingFlowControl;
          return None;
        }
        remainingInBlock := Some(remainingInBlock.value - 1);
      }
      var taken := Min(|pdu| - sent, CONSECUTIVE_FRAME_PAYLOAD);
      var frame := ApplyPadding([0x20 + sequence % 16] + pdu[sent..sent + taken], params.padding);
      sent := sent + taken;
      sequence := (sequence + 1) % 16;
      framesSent := framesSent + 1;
      if sent >= |pdu| { state := Complete; }
      return Some(frame);
    }
  }

  // ---------------------------------------------------------------- receiving, as values

  datatype ReceiveError = WrongSequenceNumber(expected: Byte, received: Byte, missing: Byte)

  datatype ReceiveOutcome =
    | Nothing
    | Completed(pdu: Data)
    | SendFlowControl(frame: Data)
    | Refused(frame: Data)
    | Abandoned(reason: ReceiveError)

  datatype Pending = Pending(buffer: Data, remaining: nat, nextSequence: Byte, remainingInBlock: Option<Byte>)

  datatype Rx = Rx(params: IsoTpParameters, maxPduLength: nat, isFunctional: bool, pending: Option<Pending>)

  function NewPhysical(params: IsoTpParameters): Rx {
    Rx(params, MAX_PDU, false, None)
  }

  function BlockAllowance(params: IsoTpParameters): Option<Byte> {
    if params.blockSize == 0 then None else Some(params.blockSize)
  }

  function FlowControlFrame(params: IsoTpParameters, status: Byte): Data {
    WithPadding([status, params.blockSize, params.separationTimeMin], params.padding)
  }

  /** The length a first frame announces: twelve bits across its first two bytes. */
  function Announced(data: Data): nat
    requires |data| >= 2
  {
    data[0] as int % 16 * 256 + data[1] as int
  }

  function OnSingleFrame(rx: Rx, data: Data): (Rx, ReceiveOutcome)
    requires data != []
  {
    var length := data[0] % 16;
    (rx.(pending := None), if length == 0 || length + 1 > |data| then Nothing else Completed(data[1..1 + length]))
  }

  function OnFirstFrame(rx: Rx, data: Data): (Rx, ReceiveOutcome)
    requires data != []
  {
    if rx.isFunctional || |data| < 2 || Announced(data) <= CONSECUTIVE_FRAME_PAYLOAD then (rx, Nothing)
    else if Announced(data) > rx.maxPduLength then (rx.(pending := None), Refused(FlowControlFrame(rx.params, 0x32)))
    else
      var taken := Min(|data| - 2, Announced(data));
      (rx.(pending := Some(Pending(data[2..2 + taken], Announced(data) - taken, 1, BlockAllowance(rx.params)))),
       SendFlowControl(FlowControlFrame(rx.params, 0x30)))
  }

  function OnConsecutiveFrame(rx: Rx, data: Data): (Rx, ReceiveOutcome)
    requires data != []
  {
    if rx.pending.None? then (rx, Nothing)
    else
      var p := rx.pending.value;
      var received := data[0] % 16;
      if received != p.nextSequence then
        (rx.(pending := None), Abandoned(WrongSequenceNumber(p.nextSequence, received, (received - p.nextSequence) % 16)))
      else
        var taken := Min(|data| - 1, p.remaining);
        var q := Pending(p.buffer + data[1..1 + taken], p.remaining - taken, (p.nextSequence + 1) % 16, p.remainingInBlock);
        if q.remaining == 0 then (rx.(pending := None), Completed(q.buffer))
        else if q.remainingInBlock.Some? then
          if q.remainingInBlock.value <= 1 then
            (rx.(pending := Some(q.(remainingInBlock := BlockAllowance(rx.params)))), SendFlowControl(FlowControlFrame(rx.params, 0x30)))
          else
            (rx.(pending := Some(q.(remainingInBlock := Some(q.remainingInBlock.value - 1)))), Nothing)
        else (rx.(pending := Some(q)), Nothing)
  }

  function Received(rx: Rx, data: Data): (Rx, ReceiveOutcome) {
    if data == [] then (rx, Nothing)
    else
      match data[0] / 16
      case 0 => OnSingleFrame(rx, data)
      case 1 => OnFirstFrame(rx, data)
      case 2 => OnConsecutiveFrame(rx, data)
      case _ => (rx, Nothing)
  }

  // ---------------------------------------------------------------- the receiver

  class IsoTpReceiver {
    const params: IsoTpParameters
    const maxPduLength: nat
    const isFunctional: bool
    var pending: Option<Pending>

    constructor (params: IsoTpParameters, maxPduLength: nat, isFunctional: bool)
      ensures Now() == Rx(params, Min(maxPduLength, MAX_PDU), isFunctional, None)
    {
      this.params, this.maxPduLength, this.isFunctional := params, Min(maxPduLength, MAX_PDU), isFunctional;
      pending := None;
    }

    function Now(): Rx
      reads this
    {
      Rx(params, maxPduLength, isFunctional, pending)
    }

    method OnFrame(data: Data) returns (outcome: ReceiveOutcome)
      modifies this
      ensures (Now(), outcome) == Received(old(Now()), data)
    {
      if data == [] { return Nothing; }
      match data[0] / 16 {
        case 0 => outcome := SingleFrameArrived(data);
        case 1 => outcome := FirstFrameArrived(data);
        case 2 => outcome := ConsecutiveFrameArrived(data);
        case _ => outcome := Nothing;
      }
    }

    method SingleFrameArrived(data: Data) returns (outcome: ReceiveOutcome)
      requires data != []
      modifies this
      ensures (Now(), outcome) == OnSingleFrame(old(Now()), data)
    {
      pending := None;
      var length := data[0] % 16;
      if length == 0 || length + 1 > |data| { return Nothing; }
      return Completed(data[1..1 + length]);
    }

    method FirstFrameArrived(data: Data) returns (outcome: ReceiveOutcome)
      requires data != []
      modifies this
      ensures (Now(), outcome) == OnFirstFrame(old(Now()), data)
    {
      if isFunctional { return Nothing; }
      if |data| < 2 { return Nothing; }
      var total: nat := data[0] as int % 16 * 256 + data[1] as int;
      if total <= CONSECUTIVE_FRAME_PAYLOAD { return Nothing; }
      if total > maxPduLength {
        pending := None;
        return Refused(FlowControlFrame(params, 0x32));
      }
      var first := data[2..];
      var taken := Min(|first|, total);
      assert first[..taken] == data[2..2 + taken];
      pending := Some(Pending(first[..taken], total - taken, 1, BlockAllowance(params)));
      return SendFlowControl(FlowControlFrame(params, 0x30));
    }

    method ConsecutiveFrameArrived(data: Data) returns (outcome: ReceiveOutcome)
      requires data != []
      modifies this
      ensures (Now(), outcome) == OnConsecutiveFrame(old(Now()), data)
    {
      if pending.None? { return Nothing; }
      var p := pending.value;
      pending := None;
      var received := data[0] % 16;
      if received != p.nextSequence {
        return Abandoned(WrongSequenceNumber(p.nextSequence, received, (received - p.nextSequence) % 16));
      }
      var payload := data[1..];
      var taken := Min(|payload|, p.remaining);
      var q := Pending(p.buffer + payload[..taken], p.remaining - taken, (p.nextSequence + 1) % 16, p.remainingInBlock);
      assert payload[..taken] == data[1..1 + taken];
      if q.remaining == 0 { return Completed(q.buffer); }
      if q.remainingInBlock.Some? {
        if q.remainingInBlock.value <= 1 {
          pending := Some(q.(remainingInBlock := BlockAllowance(params)));
          return SendFlowControl(FlowControlFrame(params, 0x30));
        }
        q := q.(remainingInBlock := Some(q.remainingInBlock.value - 1));
      }
      pending := Some(q);
      return Nothing;
    }
  }

  // ---------------------------------------------------------------- reassembling a capture

  datatype Partial = Partial(buffer: Data, remaining: nat, nextSequence: Byte)

  /** The capture reader's state: the message in progress and the messages found. */
  datatype Capture = Capture(partial: Option<Partial>, messages: seq<Data>)

  function DecodeSingleFrame(data: Data): Option<Data>
    requires data != []
  {
    var nibble := data[0] % 16;
    if nibble == 0 && |data| < 2 then None
    else
      var length := if nibble == 0 then data[1] else nibble;
      var start := if nibble == 0 then 2 else 1;
      if length == 0 || start + length > |data| then None else Some(data[start..start + length])
  }

  function StartFirstFrame(data: Data): Option<Partial>
    requires data != []
  {
    if |data| < 2 || Announced(data) == 0 then None
    else
      var taken := Min(|data| - 2, Announced(data));
      Some(Partial(data[2..2 + taken], Announced(data) - taken, 1))
  }

  function Observed(c: Capture, data: Data): Capture {
    if data == [] then c
    else
      var kind := data[0] / 16;
      if c.partial.Some? && kind == 2 then
        var p := c.partial.value;
        if data[0] % 16 != p.nextSequence then c.(partial := None)
        else
          var taken := Min(|data| - 1, p.remaining);
          var q := Partial(p.buffer + data[1..1 + taken], p.remaining - taken, (p.nextSequence + 1) % 16);
          if q.remaining == 0 then Capture(None, c.messages + [q.buffer]) else c.(partial := Some(q))
      else if kind == 3 then c
      else if kind == 0 then
        match DecodeSingleFrame(data)
        case None => c.(partial := None)
        case Some(pdu) => Capture(None, c.messages + [pdu])
      else if kind == 1 then c.(partial := StartFirstFrame(data))
      else c.(partial := None)
  }

  function Reassembled(frames: seq<Data>): Capture {
    if frames == [] then Capture(None, []) else Observed(Reassembled(frames[..|frames| - 1]), frames[|frames| - 1])
  }

  method ReassembleStream(frames: seq<Data>) returns (messages: seq<Data>)
    ensures messages == Reassembled(frames).messages
  {
    messages := [];
    var partial: Option<Partial> := None;
    for k := 0 to |frames|
      invariant Reassembled(frames[..k]) == Capture(partial, messages)
    {
      assert frames[..k + 1][..k] == frames[..k];
      var data := frames[k];
      if data == [] { continue; }
      var kind := data[0] / 16;
      var taken := partial;
      partial := None;
      if taken.Some? {
        var p := taken.value;
        if kind == 2 {
          if data[0] % 16 != p.nextSequence { continue; }
          var take := Min(|data| - 1, p.remaining);
          p := Partial(p.buffer + data[1..1 + take], p.remaining - take, (p.nextSequence + 1) % 16);
          if p.remaining == 0 {
            messages := messages + [p.buffer];
          } else {
            partial := Some(p);
          }
          continue;
        }
        if kind == 3 {
          partial := taken;
          continue;
        }
      }
      if kind == 0 {
        var decoded := DecodeSingleFrame(data);
        if decoded.Some? { messages := messages + [decoded.value]; }
      } else if kind == 1 {
        partial := StartFirstFrame(data);
      }
    }
    assert frames[..|frames|] == frames;
  }
}
