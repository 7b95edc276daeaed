/**
 * The main results about ISO-TP: what is sent for a PDU does not depend on the peer, what is sent
 * is what is received, losing frames never corrupts a PDU, and live and offline reading agree.
 */
module IsoTpTheorems {
  import opened Basics
  import opened Pacing
  import opened IsoTp

  // ---------------------------------------------------------------- the frames of a PDU

  ghost predicate IsSendable(pdu: Data) {
    1 <= |pdu| <= MAX_PDU
  }

  /** A first frame and as many consecutive frames as the rest needs, or one single frame. */
  ghost function FrameCount(pdu: Data): nat {
    if |pdu| <= MAX_SINGLE_FRAME then 1 else 1 + DivCeil(|pdu| - FIRST_FRAME_PAYLOAD, CONSECUTIVE_FRAME_PAYLOAD)
  }

  /** How many bytes the first `n` frames carry. */
  ghost function Carried(pdu: Data, n: nat): nat
    requires n > 0
  {
    Min(|pdu|, FIRST_FRAME_PAYLOAD + CONSECUTIVE_FRAME_PAYLOAD * (n - 1))
  }

  ghost function FrameAt(pdu: Data, padding: Option<Byte>, i: nat): Data
    requires IsSendable(pdu)
  {
    if |pdu| <= MAX_SINGLE_FRAME then SingleFrame(pdu, padding)
    else if i == 0 then FirstFrame(pdu)
    else ConsecutiveFrame(pdu, Carried(pdu, i), i % 16, padding)
  }

  ghost function Frames(pdu: Data, padding: Option<Byte>): (frames: seq<Data>)
    requires IsSendable(pdu)
    ensures |frames| == FrameCount(pdu)
    ensures forall i :: 0 <= i < |frames| ==> frames[i] == FrameAt(pdu, padding, i)
  {
    seq(FrameCount(pdu), i requires 0 <= i < FrameCount(pdu) => FrameAt(pdu, padding, i))
  }

  /** The last frame is the first one by which everything is carried. */
  lemma CountIsTight(pdu: Data, n: nat)
    requires |pdu| > MAX_SINGLE_FRAME && n > 0
    ensures FrameCount(pdu) > 1
    ensures n >= FrameCount(pdu) <==> Carried(pdu, n) == |pdu|
    ensures n < FrameCount(pdu) ==> Carried(pdu, n) == FIRST_FRAME_PAYLOAD + CONSECUTIVE_FRAME_PAYLOAD * (n - 1)
    ensures n < FrameCount(pdu) ==> Carried(pdu, n + 1) == Carried(pdu, n) + Min(|pdu| - Carried(pdu, n), CONSECUTIVE_FRAME_PAYLOAD)
  {
  }

  /**
   * The frames, byte by byte: up to seven bytes behind their length, or six behind 0x1 and the length in
   * twelve bits, then sevens behind 0x2 and a number counting up to fifteen; padded to eight bytes if at all.
   */
  lemma FramesOnTheWire(pdu: Data, padding: Option<Byte>, i: nat)
    requires IsSendable(pdu) && i < |Frames(pdu, padding)|
    ensures var frame, rest := Frames(pdu, padding)[i], |pdu| - 6 - 7 * (i - 1);
            var content :=
              if |pdu| <= 7 then [|pdu|] + pdu
              else if i == 0 then [0x10 + |pdu| / 256, |pdu| % 256] + pdu[..6]
              else [0x20 + i % 16] + (if rest > 7 then pdu[|pdu| - rest..|pdu| - rest + 7] else pdu[|pdu| - rest..]);
            && content <= frame && |frame| == (if padding.Some? then 8 else |content|)
            && forall k :: |content| <= k < |frame| ==> padding == Some(frame[k])
  {
    hide WithPadding, FrameCount, Carried, ConsecutiveFrame;
    if |pdu| > MAX_SINGLE_FRAME && i > 0 {
      ConsecutiveOnTheWire(pdu, padding, i);
    } else if |pdu| > MAX_SINGLE_FRAME {
      hide SingleFrame;
      assert |FirstFrame(pdu)| == 8;
    }
  }

  lemma ConsecutiveOnTheWire(pdu: Data, padding: Option<Byte>, i: nat)
    requires MAX_SINGLE_FRAME < |pdu| <= MAX_PDU && 0 < i < FrameCount(pdu)
    ensures var frame, rest := FrameAt(pdu, padding, i), |pdu| - 6 - 7 * (i - 1);
            && 0 < rest < |pdu|
            && var content := [0x20 + i % 16] + (if rest > 7 then pdu[|pdu| - rest..|pdu| - rest + 7] else pdu[|pdu| - rest..]);
               frame == WithPadding(content, padding) && |content| <= 8
  {
    hide WithPadding, FrameCount, Carried, Min, FrameAt;
    CarriedByNow(pdu, i);
    FrameIsPadded(pdu, padding, i);
    SliceIs(pdu, Carried(pdu, i), Min(|pdu| - Carried(pdu, i), CONSECUTIVE_FRAME_PAYLOAD), 6 + 7 * (i - 1));
  }

  lemma CarriedByNow(pdu: Data, n: nat)
    requires MAX_SINGLE_FRAME < |pdu| && 0 < n < FrameCount(pdu)
    ensures Carried(pdu, n) == 6 + 7 * (n - 1) < |pdu|
  {
    CountIsTight(pdu, n);
    hide FrameCount;
  }

  lemma SliceIs(pdu: Data, sent: nat, taken: nat, start: nat)
    requires sent == start <= |pdu| && taken == Min(|pdu| - sent, 7)
    ensures var rest := |pdu| - start;
            pdu[sent..sent + taken] == if rest > 7 then pdu[|pdu| - rest..|pdu| - rest + 7] else pdu[|pdu| - rest..]
  {
  }

  /** One frame for up to seven bytes, else one for the first six and one for every seven begun after that. */
  lemma FramesNeeded(pdu: Data, padding: Option<Byte>)
    requires IsSendable(pdu)
    ensures var n := |Frames(pdu, padding)|;
            if |pdu| <= 7 then n == 1 else 6 + 7 * (n - 2) < |pdu| <= 6 + 7 * (n - 1)
  {
  }

  // ---------------------------------------------------------------- the transmitter and any peer

  datatype TxEvent = PeerSays(frame: Data) | AskNext | TimeOut

  datatype Sending = Sending(tx: Tx, emitted: seq<Data>)

  ghost function Driven(s: Sending, event: TxEvent): Sending {
    match event
    case PeerSays(frame) => s.(tx := FlowControlled(s.tx, frame).0)
    case TimeOut => s.(tx := TimedOut(s.tx).0)
    case AskNext =>
      var (tx, frame) := Advanced(s.tx);
      Sending(tx, if frame.Some? then s.emitted + [frame.value] else s.emitted)
  }

  ghost function DrivenBy(params: IsoTpParameters, pdu: Data, events: seq<TxEvent>): Sending {
    if events == [] then
      var (tx, first) := Begun(NewTx(params), pdu);
      Sending(tx, if first.Ok? then [first.value] else [])
    else Driven(DrivenBy(params, pdu, events[..|events| - 1]), events[|events| - 1])
  }

  /** A transfer on course: so many of the PDU's frames are out, and the counters say so. */
  ghost predicate OnCourse(s: Sending, pdu: Data, padding: Option<Byte>)
    requires IsSendable(pdu)
  {
    && s.tx.pdu == pdu && s.tx.params.padding == padding
    && 0 < s.tx.framesSent == |s.emitted| <= FrameCount(pdu)
    && s.emitted == Frames(pdu, padding)[..|s.emitted|]
    && s.tx.state != Idle
    && (|pdu| > MAX_SINGLE_FRAME ==> s.tx.sent == Carried(pdu, |s.emitted|) && s.tx.sequence == |s.emitted| % 16)
    && (s.tx.state == Complete ==> |s.emitted| == FrameCount(pdu))
    && (s.tx.state == AwaitingFlowControl || s.tx.state == SendingBlock ==> |s.emitted| < FrameCount(pdu))
  }

  lemma ManyFramesMeanLong(pdu: Data, n: nat)
    requires 0 < n < FrameCount(pdu)
    ensures |pdu| > MAX_SINGLE_FRAME
  {
  }

  /** The step that sends: the next frame of the PDU, and the counters one further. */
  lemma AdvancingSendsTheNext(tx: Tx, pdu: Data, padding: Option<Byte>, n: nat)
    requires MAX_SINGLE_FRAME < |pdu| <= MAX_PDU && 0 < n < FrameCount(pdu)
    requires tx.pdu == pdu && tx.params.padding == padding && tx.sent == Carried(pdu, n) && tx.sequence == n % 16 && tx.framesSent == n
    requires tx.state == SendingBlock && tx.remainingInBlock != Some(0)
    ensures var (next, frame) := Advanced(tx);
            && frame == Some(FrameAt(pdu, padding, n))
            && next.pdu == pdu && next.params == tx.params
            && next.sent == Carried(pdu, n + 1) && next.sequence == (n + 1) % 16 && next.framesSent == n + 1
            && next.state == (if n + 1 == FrameCount(pdu) then Complete else SendingBlock)
            && next.remainingInBlock == (if tx.remainingInBlock.Some? then Some(tx.remainingInBlock.value - 1) else None)
  {
    hide Carried, FrameCount, ConsecutiveFrame;
    CountIsTight(pdu, n);
    CountIsTight(pdu, n + 1);
    NextSequence(n);
  }

  lemma NextSequence(n: nat)
    ensures (n % 16 + 1) % 16 == (n + 1) % 16
  {
  }

  lemma DrivingStaysOnCourse(s: Sending, pdu: Data, padding: Option<Byte>, event: TxEvent)
    requires IsSendable(pdu) && OnCourse(s, pdu, padding)
    ensures OnCourse(Driven(s, event), pdu, padding)
    ensures s.emitted <= Driven(s, event).emitted
  {
    var n := |s.emitted|;
    hide Carried, FrameCount, FrameAt, ConsecutiveFrame;
    if event == AskNext && s.tx.state == SendingBlock {
      ManyFramesMeanLong(pdu, n);
      CountIsTight(pdu, n);
      if s.tx.remainingInBlock != Some(0) {
        AdvancingSendsTheNext(s.tx, pdu, padding, n);
        var frames := Frames(pdu, padding);
        assert frames[..n] + [frames[n]] == frames[..n + 1];
      }
    }
  }

  /** A transfer that begins at all begins on course. */
  lemma BeginsOnCourse(params: IsoTpParameters, pdu: Data)
    ensures var (tx, first) := Begun(NewTx(params), pdu);
            && (first.Ok? <==> IsSendable(pdu))
            && (first.Ok? ==>
                  && OnCourse(Sending(tx, [first.value]), pdu, params.padding)
                  && (tx.state == Complete || tx.state == AwaitingFlowControl) && tx.waits == 0)
            && (first.Ok? <==> 1 <= |pdu| <= 4095)
            && (first.Err? ==> first.error == if pdu == [] then EmptyPdu else PduTooLong(|pdu|))
  {
    if IsSendable(pdu) {
      var frames := Frames(pdu, params.padding);
      if |pdu| > MAX_SINGLE_FRAME { CountIsTight(pdu, 1); }
      assert frames[..1] == [frames[0]];
    }
  }

  lemma OnCourseIsAStart(s: Sending, pdu: Data, padding: Option<Byte>)
    requires IsSendable(pdu) && OnCourse(s, pdu, padding)
    ensures s.emitted != [] && s.emitted <= Frames(pdu, padding)
    ensures s.tx.state == Complete ==> s.emitted == Frames(pdu, padding)
  {
    hide FrameAt, Carried, FrameCount;
  }

  /**
   * Whatever the peer answers, waits, refuses or garbles, and however often more is asked for, what
   * has gone out is a beginning of the same frames; a transfer that completes has sent all of them.
   */
  lemma {:induction false} SendsTheSameFramesToAnyPeer(params: IsoTpParameters, pdu: Data, events: seq<TxEvent>)
    requires IsSendable(pdu)
    ensures OnCourse(DrivenBy(params, pdu, events), pdu, params.padding)
    ensures DrivenBy(params, pdu, events).emitted <= Frames(pdu, params.padding)
    ensures DrivenBy(params, pdu, events).tx.state == Complete ==> DrivenBy(params, pdu, events).emitted == Frames(pdu, params.padding)
  {
    hide OnCourse, Begun, Driven, Frames;
    if events == [] {
      BeginsOnCourse(params, pdu);
    } else {
      var earlier := events[..|events| - 1];
      SendsTheSameFramesToAnyPeer(params, pdu, earlier);
      DrivingStaysOnCourse(DrivenBy(params, pdu, earlier), pdu, params.padding, events[|events| - 1]);
    }
    OnCourseIsAStart(DrivenBy(params, pdu, events), pdu, params.padding);
  }

  // ---------------------------------------------------------------- the receiver and those frames

  datatype Hearing = Hearing(rx: Rx, outcomes: seq<ReceiveOutcome>)

  /** What a receiver has made of the first `n` of these frames. */
  ghost function HeardFrom(rx: Rx, frames: seq<Data>, n: nat): Hearing
    requires n <= |frames|
    decreases n
  {
    if n == 0 then Hearing(rx, [])
    else
      var h := HeardFrom(rx, frames, n - 1);
      var (next, outcome) := Received(h.rx, frames[n - 1]);
      Hearing(next, h.outcomes + [outcome])
  }

  /** A receiver with room for a message: physical, and its buffer long enough. */
  ghost predicate CanHold(rx: Rx, pdu: Data) {
    !rx.isFunctional && |pdu| <= rx.maxPduLength
  }

  ghost function BlockLeft(params: IsoTpParameters, consecutive: nat): Option<Byte> {
    if params.blockSize == 0 then None else Some(params.blockSize - consecutive % params.blockSize)
  }

  /** The message in progress after the first `n` frames. */
  ghost function PartWay(params: IsoTpParameters, pdu: Data, n: nat): Pending
    requires n > 0
  {
    Pending(pdu[..Carried(pdu, n)], |pdu| - Carried(pdu, n), n % 16, BlockLeft(params, n - 1))
  }

  /** What the receiver answers to each frame: flow control after the first and after every full block, the PDU after the last. */
  ghost function AnswerTo(params: IsoTpParameters, pdu: Data, i: nat): ReceiveOutcome {
    if i == FrameCount(pdu) - 1 then Completed(pdu)
    else if i == 0 || (params.blockSize != 0 && i % params.blockSize == 0) then SendFlowControl(FlowControlFrame(params, 0x30))
    else Nothing
  }

  lemma SingleFrameIsHeard(rx: Rx, pdu: Data, padding: Option<Byte>)
    requires IsSendable(pdu) && |pdu| <= MAX_SINGLE_FRAME
    ensures Received(rx, SingleFrame(pdu, padding)) == (rx.(pending := None), Completed(pdu))
  {
    var frame := SingleFrame(pdu, padding);
    assert frame[..1 + |pdu|] == [|pdu|] + pdu;
    assert frame[0] == |pdu|;
    assert frame[1..1 + |pdu|] == pdu;
  }

  lemma FirstFrameIsHeard(rx: Rx, pdu: Data)
    requires MAX_SINGLE_FRAME < |pdu| <= MAX_PDU && CanHold(rx, pdu)
    ensures Received(rx, FirstFrame(pdu))
            == (rx.(pending := Some(PartWay(rx.params, pdu, 1))), SendFlowControl(FlowControlFrame(rx.params, 0x30)))
  {
    var frame := FirstFrame(pdu);
    assert Announced(frame) == |pdu|;
    assert frame[2..] == pdu[..FIRST_FRAME_PAYLOAD];
    assert frame[2..2 + 6] == pdu[..6];
  }

  lemma BlockCountsDown(params: IsoTpParameters, consecutive: nat)
    requires params.blockSize != 0
    ensures (consecutive + 1) % params.blockSize ==
            if consecutive % params.blockSize == params.blockSize - 1 then 0 else consecutive % params.blockSize + 1
  {
    var b := params.blockSize as int;
    var q, r := consecutive / b, consecutive % b;
    assert consecutive == b * q + r;
    if r == b - 1 {
      assert consecutive + 1 == b * (q + 1);
      ModOf(b, q + 1, 0);
    } else {
      ModOf(b, q, r + 1);
    }
  }

  lemma ModOf(b: nat, q: nat, r: nat)
    requires r < b
    ensures (b * q + r) % b == r
  {
    var x := b * q + r;
    var k := x / b - q;
    assert x == b * (x / b) + x % b;
    assert b * k == r - x % b by { assert b * (x / b) == b * q + b * k; }
    MultiplesAreApart(b, k);
  }

  lemma MultiplesAreApart(b: nat, k: int)
    ensures k > 0 ==> b * k >= b as int
    ensures k < 0 ==> b * k <= -(b as int)
  {
  }

  /** One consecutive frame further into a block, or into the next one. */
  lemma BlockStep(params: IsoTpParameters, n: nat)
    requires n > 0
    ensures params.blockSize == 0 ==> BlockLeft(params, n - 1).None? && BlockLeft(params, n).None?
    ensures params.blockSize != 0 ==>
              && BlockLeft(params, n - 1).Some? && BlockLeft(params, n - 1).value >= 1
              && (BlockLeft(params, n - 1).value <= 1 <==> n % params.blockSize == 0)
              && BlockLeft(params, n) == Some(if n % params.blockSize == 0 then params.blockSize else BlockLeft(params, n - 1).value - 1)
  {
    if params.blockSize != 0 { BlockCountsDown(params, n - 1); }
  }

  /** A frame the transmitter built, taken apart again. */
  lemma FrameTakenApart(pdu: Data, padding: Option<Byte>, n: nat)
    requires MAX_SINGLE_FRAME < |pdu| <= MAX_PDU && 0 < n < FrameCount(pdu)
    ensures var sent := Carried(pdu, n);
            var frame := FrameAt(pdu, padding, n);
            var taken := Min(|frame| - 1, |pdu| - sent);
            && 1 <= |frame| <= FRAME_LENGTH && frame[0] == 0x20 + n % 16
            && sent + taken == Carried(pdu, n + 1) > sent
            && pdu[..sent] + frame[1..1 + taken] == pdu[..Carried(pdu, n + 1)]
  {
    hide Carried, FrameCount, FrameAt, WithPadding;
    CountIsTight(pdu, n);
    var sent := Carried(pdu, n);
    var taken := Min(|pdu| - sent, CONSECUTIVE_FRAME_PAYLOAD);
    var head: Byte := 0x20 + n % 16;
    FrameIsPadded(pdu, padding, n);
    hide Min;
    SliceTakenApart(pdu, sent, taken, head, FrameAt(pdu, padding, n));
  }

  lemma FrameIsPadded(pdu: Data, padding: Option<Byte>, n: nat)
    requires MAX_SINGLE_FRAME < |pdu| <= MAX_PDU && 0 < n
    ensures var sent := Carried(pdu, n);
            var taken := Min(|pdu| - sent, CONSECUTIVE_FRAME_PAYLOAD);
            FrameAt(pdu, padding, n) == WithPadding([0x20 + n % 16] + pdu[sent..sent + taken], padding)
  {
    hide WithPadding;
  }

  lemma SliceTakenApart(pdu: Data, sent: nat, taken: nat, head: Byte, frame: Data)
    requires sent + taken <= |pdu| && [head] + pdu[sent..sent + taken] <= frame
    ensures |frame| >= 1 + taken && frame[0] == head && pdu[..sent] + frame[1..1 + taken] == pdu[..sent + taken]
  {
    assert frame[..1 + taken] == [head] + pdu[sent..sent + taken];
    assert frame[0] == frame[..1 + taken][0];
    assert frame[1..1 + taken] == pdu[sent..sent + taken];
  }

  /** Taking in consecutive frame `n` of a message that is in order so far. */
  lemma ConsecutiveFrameIsHeard(rx: Rx, pdu: Data, padding: Option<Byte>, n: nat)
    requires MAX_SINGLE_FRAME < |pdu| <= MAX_PDU && 0 < n < FrameCount(pdu)
    requires rx.pending == Some(PartWay(rx.params, pdu, n))
    ensures Received(rx, FrameAt(pdu, padding, n))
            == (rx.(pending := if n + 1 == FrameCount(pdu) then None else Some(PartWay(rx.params, pdu, n + 1))),
                AnswerTo(rx.params, pdu, n))
  {
    hide Carried, FrameCount, FrameAt, BlockLeft, FlowControlFrame, Received;
    FrameTakenApart(pdu, padding, n);
    CountIsTight(pdu, n + 1);
    BlockStep(rx.params, n);
    HeadOfConsecutive(rx, FrameAt(pdu, padding, n), n);
    assert pdu[..|pdu|] == pdu;
  }

  lemma HeadOfConsecutive(rx: Rx, frame: Data, n: nat)
    requires frame != [] && frame[0] == 0x20 + n % 16
    ensures Received(rx, frame) == OnConsecutiveFrame(rx, frame)
    ensures frame[0] % 16 == n % 16 && (n % 16 + 1) % 16 == (n + 1) % 16
  {
    hide OnConsecutiveFrame, OnSingleFrame, OnFirstFrame;
  }

  lemma OpeningIsHeard(rx: Rx, pdu: Data, padding: Option<Byte>)
    requires IsSendable(pdu) && CanHold(rx, pdu)
    ensures FrameCount(pdu) > 0
    ensures Received(rx, FrameAt(pdu, padding, 0))
            == (rx.(pending := if FrameCount(pdu) == 1 then None else Some(PartWay(rx.params, pdu, 1))), AnswerTo(rx.params, pdu, 0))
  {
    if |pdu| <= MAX_SINGLE_FRAME {
      SingleFrameIsHeard(rx, pdu, padding);
    } else {
      CountIsTight(pdu, 1);
      FirstFrameIsHeard(rx, pdu);
    }
  }

  /** The state after the first `n` frames. */
  ghost function InOrder(rx: Rx, pdu: Data, n: nat): Rx {
    rx.(pending := if n == 0 then rx.pending else if n >= FrameCount(pdu) then None else Some(PartWay(rx.params, pdu, n)))
  }

  lemma OneFrameIsHeard(rx: Rx, pdu: Data, padding: Option<Byte>, n: nat)
    requires IsSendable(pdu) && CanHold(rx, pdu) && n < FrameCount(pdu)
    ensures Received(InOrder(rx, pdu, n), FrameAt(pdu, padding, n)) == (InOrder(rx, pdu, n + 1), AnswerTo(rx.params, pdu, n))
  {
    hide FrameAt, PartWay, Carried, BlockLeft, AnswerTo, Received, FrameCount;
    if n == 0 {
      OpeningIsHeard(rx, pdu, padding);
    } else {
      ManyFramesMeanLong(pdu, n);
      ConsecutiveFrameIsHeard(InOrder(rx, pdu, n), pdu, padding, n);
    }
  }

  lemma NothingHeardYet(rx: Rx, pdu: Data)
    ensures InOrder(rx, pdu, 0) == rx
  {
  }

  ghost predicate AnsweredInOrder(h: Hearing, rx: Rx, pdu: Data, n: nat) {
    && h.rx == InOrder(rx, pdu, n)
    && |h.outcomes| == n && forall i :: 0 <= i < n ==> h.outcomes[i] == AnswerTo(rx.params, pdu, i)
  }

  /** The state and the answers after the first `n` frames of a PDU. */
  lemma {:induction false} HearsTheFrames(rx: Rx, pdu: Data, padding: Option<Byte>, n: nat)
    requires IsSendable(pdu) && CanHold(rx, pdu) && n <= FrameCount(pdu)
    ensures AnsweredInOrder(HeardFrom(rx, Frames(pdu, padding), n), rx, pdu, n)
    decreases n
  {
    hide InOrder, PartWay, Carried, BlockLeft, FrameCount, FrameAt, AnswerTo, Received, Frames;
    NothingHeardYet(rx, pdu);
    if n > 0 {
      HearsTheFrames(rx, pdu, padding, n - 1);
      OneFrameIsHeard(rx, pdu, padding, n - 1);
    }
  }

  /**
   * What is sent is what is received: the frames a transfer completes with, fed to any physical
   * receiver with room, yield that PDU with the last frame and nothing before, whatever either end's
   * padding, block size and separation time, and whatever the receiver had in progress.
   */
  lemma SentIsReceived(sender: IsoTpParameters, pdu: Data, events: seq<TxEvent>, rx: Rx)
    requires IsSendable(pdu) && CanHold(rx, pdu)
    requires DrivenBy(sender, pdu, events).tx.state == Complete
    ensures var frames := DrivenBy(sender, pdu, events).emitted;
            var h := HeardFrom(rx, frames, |frames|);
            && h.rx.pending.None?
            && |h.outcomes| == |frames| > 0
            && (forall i :: 0 <= i < |frames| ==> h.outcomes[i] == AnswerTo(rx.params, pdu, i))
            && h.outcomes[|frames| - 1] == Completed(pdu)
            && (forall i :: 0 <= i < |frames| - 1 ==> !h.outcomes[i].Completed?)
  {
    hide DrivenBy, Frames, PartWay, BlockLeft, Carried, HeardFrom, OnCourse;
    SendsTheSameFramesToAnyPeer(sender, pdu, events);
    HearsTheFrames(rx, pdu, sender.padding, FrameCount(pdu));
  }

  // ---------------------------------------------------------------- losing frames

  ghost predicate AllArrive(arrives: seq<bool>, n: nat)
    requires n <= |arrives|
  {
    forall i :: 0 <= i < n ==> arrives[i]
  }

  ghost predicate NothingCompleted(outcomes: seq<ReceiveOutcome>) {
    forall i :: 0 <= i < |outcomes| ==> !outcomes[i].Completed?
  }

  /** Behind by at least one frame's worth, or not assembling at all. */
  ghost predicate FellBehind(rx: Rx, pdu: Data, n: nat) {
    rx.pending.Some? ==>
      && |rx.pending.value.buffer| + rx.pending.value.remaining == |pdu|
      && |rx.pending.value.buffer| + CONSECUTIVE_FRAME_PAYLOAD <= FIRST_FRAME_PAYLOAD + CONSECUTIVE_FRAME_PAYLOAD * (n - 1)
  }

  lemma BehindStaysBehind(rx: Rx, pdu: Data, padding: Option<Byte>, n: nat)
    requires MAX_SINGLE_FRAME < |pdu| <= MAX_PDU && 0 < n < FrameCount(pdu) && FellBehind(rx, pdu, n)
    ensures var (next, outcome) := Received(rx, FrameAt(pdu, padding, n));
            FellBehind(next, pdu, n + 1) && !outcome.Completed?
  {
    FrameTakenApart(pdu, padding, n);
    CountIsTight(pdu, n);
    hide Carried, FrameCount, FrameAt;
  }

  /** What a receiver has made of those among the first `n` frames that arrive. */
  ghost function HeardWithLoss(rx: Rx, pdu: Data, padding: Option<Byte>, arrives: seq<bool>, n: nat): Hearing
    requires IsSendable(pdu) && n <= |arrives|
  {
    if n == 0 then Hearing(rx, [])
    else
      var h := HeardWithLoss(rx, pdu, padding, arrives, n - 1);
      var (next, outcome) := Received(h.rx, FrameAt(pdu, padding, n - 1));
      if arrives[n - 1] then Hearing(next, h.outcomes + [outcome]) else h
  }

  lemma {:induction false} HearsAllSoFar(rx: Rx, pdu: Data, padding: Option<Byte>, arrives: seq<bool>, n: nat)
    requires IsSendable(pdu) && n <= |arrives| == FrameCount(pdu) && AllArrive(arrives, n)
    ensures HeardWithLoss(rx, pdu, padding, arrives, n) == HeardFrom(rx, Frames(pdu, padding), n)
    decreases n
  {
    hide FrameAt, Received, FrameCount, Frames;
    if n > 0 { HearsAllSoFar(rx, pdu, padding, arrives, n - 1); }
  }

  /** After the first `n` frames of a longer PDU, some lost: behind, with nothing completed. */
  lemma {:induction false} LossesFallBehind(rx: Rx, pdu: Data, padding: Option<Byte>, arrives: seq<bool>, n: nat)
    requires MAX_SINGLE_FRAME < |pdu| <= MAX_PDU && CanHold(rx, pdu)
    requires |arrives| == FrameCount(pdu) && n <= FrameCount(pdu) && !AllArrive(arrives, n)
    requires rx.pending.None? || arrives[0]
    ensures var h := HeardWithLoss(rx, pdu, padding, arrives, n);
            FellBehind(h.rx, pdu, n) && NothingCompleted(h.outcomes)
    decreases n
  {
    hide FrameCount, FrameAt, Received, FellBehind, AnswerTo, PartWay, HeardFrom, InOrder, Frames;
    if n == 1 {
      NotAssemblingIsBehind(rx, pdu, n);
    } else if AllArrive(arrives, n - 1) {
      HearsAllSoFar(rx, pdu, padding, arrives, n - 1);
      HearsTheFrames(rx, pdu, padding, n - 1);
      FirstLoss(rx, pdu, padding, n - 1);
    } else {
      LossesFallBehind(rx, pdu, padding, arrives, n - 1);
      var earlier := HeardWithLoss(rx, pdu, padding, arrives, n - 1).rx;
      BehindStaysBehind(earlier, pdu, padding, n - 1);
      BehindStays(earlier, pdu, n - 1);
    }
  }

  lemma NotAssemblingIsBehind(rx: Rx, pdu: Data, n: nat)
    requires rx.pending.None?
    ensures FellBehind(rx, pdu, n)
  {
  }

  lemma BehindStays(rx: Rx, pdu: Data, n: nat)
    requires FellBehind(rx, pdu, n)
    ensures FellBehind(rx, pdu, n + 1)
  {
  }

  /** The frame after `n` good ones is lost. */
  lemma FirstLoss(rx: Rx, pdu: Data, padding: Option<Byte>, n: nat)
    requires MAX_SINGLE_FRAME < |pdu| <= MAX_PDU && 0 < n < FrameCount(pdu)
    ensures FellBehind(InOrder(rx, pdu, n), pdu, n + 1)
    ensures forall i :: 0 <= i < n ==> !AnswerTo(rx.params, pdu, i).Completed?
  {
    CountIsTight(pdu, n);
  }

  /**
   * However many frames are lost, a receiver starting afresh delivers the PDU that was sent or none,
   * and delivers it exactly when none was lost.
   */
  lemma LossNeverCorrupts(rx: Rx, pdu: Data, padding: Option<Byte>, arrives: seq<bool>)
    requires IsSendable(pdu) && CanHold(rx, pdu) && rx.pending.None? && |arrives| == FrameCount(pdu)
    ensures var outcomes := HeardWithLoss(rx, pdu, padding, arrives, |arrives|).outcomes;
            && (AllArrive(arrives, |arrives|) ==> |outcomes| > 0 && outcomes[|outcomes| - 1] == Completed(pdu))
            && (!AllArrive(arrives, |arrives|) ==> NothingCompleted(outcomes))
  {
    hide Frames, FrameAt, FrameCount, Carried, BlockLeft, PartWay, Received, HeardFrom, FellBehind, AnswerTo, InOrder;
    var count := FrameCount(pdu);
    OneFrameOrNone(pdu);
    if AllArrive(arrives, count) {
      HearsAllSoFar(rx, pdu, padding, arrives, count);
      HearsTheFrames(rx, pdu, padding, count);
      LastAnswer(rx.params, pdu);
    } else if |pdu| > MAX_SINGLE_FRAME {
      LossesFallBehind(rx, pdu, padding, arrives, count);
    } else {
      assert !arrives[0];
      assert HeardWithLoss(rx, pdu, padding, arrives, 0) == Hearing(rx, []);
    }
  }

  lemma LastAnswer(params: IsoTpParameters, pdu: Data)
    requires FrameCount(pdu) > 0
    ensures AnswerTo(params, pdu, FrameCount(pdu) - 1) == Completed(pdu)
  {
  }

  lemma OneFrameOrNone(pdu: Data)
    ensures FrameCount(pdu) > 0
    ensures |pdu| <= MAX_SINGLE_FRAME ==> FrameCount(pdu) == 1
  {
  }

  /**
   * Where `lost` consecutive frames are missing, the next one is refused, and its report counts them,
   * exactly up to multiples of sixteen.
   */
  lemma GapIsReportedModulo16(rx: Rx, pdu: Data, padding: Option<Byte>, n: nat, lost: nat)
    requires MAX_SINGLE_FRAME < |pdu| <= MAX_PDU && CanHold(rx, pdu) && 0 < n && n + lost < FrameCount(pdu)
    ensures var h := HeardFrom(rx, Frames(pdu, padding), n);
            var outcome := Received(h.rx, Frames(pdu, padding)[n + lost]).1;
            && (outcome.Abandoned? <==> lost % 16 != 0)
            && (outcome.Abandoned? ==> outcome.reason == WrongSequenceNumber(n % 16, (n + lost) % 16, lost % 16))
  {
    hide BlockLeft, Carried, FrameCount, FrameAt, HeardFrom, AnswerTo, Received;
    HearsTheFrames(rx, pdu, padding, n);
    FrameTakenApart(pdu, padding, n + lost);
    SixteensApart(n, lost);
    var assembling := HeardFrom(rx, Frames(pdu, padding), n).rx;
    assert assembling.pending.Some? && assembling.pending.value.nextSequence == n % 16;
    hide PartWay;
    NumberIsChecked(assembling, Frames(pdu, padding)[n + lost]);
  }

  lemma NumberIsChecked(rx: Rx, data: Data)
    requires rx.pending.Some? && data != [] && data[0] / 16 == 2
    ensures var expected, number := rx.pending.value.nextSequence, data[0] % 16;
            var outcome := Received(rx, data).1;
            && (outcome.Abandoned? <==> number != expected)
            && (outcome.Abandoned? ==> outcome.reason == WrongSequenceNumber(expected, number, (number - expected) % 16))
  {
  }

  lemma SixteensApart(n: nat, lost: nat)
    ensures (n + lost) % 16 == n % 16 <==> lost % 16 == 0
    ensures ((n + lost) % 16 - n % 16) % 16 == lost % 16
  {
    var r, s := n % 16, lost % 16;
    assert n + lost == 16 * (n / 16 + lost / 16) + (r + s);
    assert (n + lost) % 16 == if r + s < 16 then r + s else r + s - 16;
  }
}
