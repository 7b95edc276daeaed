/** A transmitter and a receiver wired together: every transfer between them completes. */
module IsoTpLink {
  import opened Basics
  import opened Pacing
  import opened IsoTp
  import opened IsoTpTheorems

  /** Both ends, the flow control on its way back, and what has been delivered. */
  datatype Link = Link(tx: Tx, rx: Rx, returning: Option<Data>, delivered: seq<Data>)

  /** Put one frame in front of the receiver. */
  ghost function Deliver(l: Link, frame: Data): Link {
    var (rx, outcome) := Received(l.rx, frame);
    match outcome
    case Completed(pdu) => l.(rx := rx, delivered := l.delivered + [pdu])
    case SendFlowControl(fc) => l.(rx := rx, returning := Some(fc))
    case Refused(fc) => l.(rx := rx, returning := Some(fc))
    case _ => l.(rx := rx)
  }

  /** One round of the transmit loop: wait for flow control while it is owed, otherwise send what may be sent. */
  ghost function Round(l: Link): Link {
    match l.tx.state
    case AwaitingFlowControl =>
      if l.returning.None? then l else l.(tx := FlowControlled(l.tx, l.returning.value).0, returning := None)
    case SendingBlock =>
      var (tx, frame) := Advanced(l.tx);
      if frame.None? then l.(tx := tx) else Deliver(l.(tx := tx), frame.value)
    case _ => l
  }

  ghost function Rounds(l: Link, n: nat): Link
    decreases n
  {
    if n == 0 then l else Rounds(Round(l), n - 1)
  }

  ghost function Started(sender: IsoTpParameters, rx: Rx, pdu: Data): Link
    requires IsSendable(pdu)
  {
    var (tx, first) := Begun(NewTx(sender), pdu);
    Deliver(Link(tx, rx, None, []), first.value)
  }

  /** Mid-transfer after `n` frames: the ends agree on position and block, and flow control is on its way exactly when owed. */
  ghost predicate InStep(l: Link, pdu: Data, n: nat) {
    && MAX_SINGLE_FRAME < |pdu| <= MAX_PDU && 0 < n < FrameCount(pdu)
    && l.tx.pdu == pdu && l.tx.sent == Carried(pdu, n) && l.tx.sequence == n % 16 && l.tx.framesSent == n
    && l.rx.pending == Some(PartWay(l.rx.params, pdu, n))
    && l.delivered == []
    && (l.tx.state == AwaitingFlowControl || l.tx.state == SendingBlock)
    && (if l.tx.state == SendingBlock && l.tx.remainingInBlock != Some(0)
        then l.returning.None? && l.tx.remainingInBlock == BlockLeft(l.rx.params, n - 1)
        else l.returning == Some(FlowControlFrame(l.rx.params, 0x30)) && AtBlockStart(l.rx.params, n - 1))
  }

  ghost predicate AtBlockStart(params: IsoTpParameters, consecutive: nat) {
    BlockLeft(params, consecutive) == BlockAllowance(params)
  }

  ghost predicate IsDone(l: Link, pdu: Data) {
    l.tx.state == Complete && l.delivered == [pdu] && l.rx.pending.None?
  }

  /** How many rounds a transfer still needs at most. */
  ghost function Effort(l: Link, pdu: Data, n: nat): nat
    requires InStep(l, pdu, n)
  {
    3 * (FrameCount(pdu) - n) + (if l.tx.state == AwaitingFlowControl then 1 else if l.tx.remainingInBlock == Some(0) then 2 else 0)
  }

  lemma FlowControlIsObeyed(tx: Tx, params: IsoTpParameters)
    requires tx.state == AwaitingFlowControl
    ensures var after := FlowControlled(tx, FlowControlFrame(params, 0x30)).0;
            after == tx.(waits := 0, remainingInBlock := BlockAllowance(params),
                         separation := DecodeSeparationTime(params.separationTimeMin), state := SendingBlock)
  {
    var frame := FlowControlFrame(params, 0x30);
    assert frame[..3] == [0x30, params.blockSize, params.separationTimeMin];
    assert frame[0] == 0x30 && frame[1] == params.blockSize && frame[2] == params.separationTimeMin;
  }

  lemma SendingOne(l: Link, pdu: Data, n: nat)
    requires InStep(l, pdu, n) && l.tx.state == SendingBlock && l.tx.remainingInBlock != Some(0)
    ensures n + 1 == FrameCount(pdu) ==> IsDone(Round(l), pdu)
    ensures n + 1 < FrameCount(pdu) ==> InStep(Round(l), pdu, n + 1) && Round(l).tx.state == SendingBlock
  {
    AdvancingSendsTheNext(l.tx, pdu, l.tx.params.padding, n);
    ConsecutiveFrameIsHeard(l.rx, pdu, l.tx.params.padding, n);
    BlockStep(l.rx.params, n);
    hide FrameAt, Carried, FrameCount, BlockLeft, Received, Advanced;
  }

  lemma RoundMakesProgress(l: Link, pdu: Data, n: nat)
    requires InStep(l, pdu, n)
    ensures IsDone(Round(l), pdu)
            || (InStep(Round(l), pdu, n) && Effort(Round(l), pdu, n) < Effort(l, pdu, n))
            || (InStep(Round(l), pdu, n + 1) && Effort(Round(l), pdu, n + 1) < Effort(l, pdu, n))
  {
    if l.tx.state == AwaitingFlowControl {
      FlowControlIsObeyed(l.tx, l.rx.params);
    } else if l.tx.remainingInBlock == Some(0) {
      CountIsTight(pdu, n);
      assert Advanced(l.tx) == (l.tx.(state := AwaitingFlowControl), None);
    } else {
      SendingOne(l, pdu, n);
    }
  }

  lemma {:induction false} InStepFinishes(l: Link, pdu: Data, n: nat) returns (rounds: nat)
    requires InStep(l, pdu, n)
    ensures rounds <= Effort(l, pdu, n) && IsDone(Rounds(l, rounds), pdu)
    decreases Effort(l, pdu, n)
  {
    RoundMakesProgress(l, pdu, n);
    var next := Round(l);
    if IsDone(next, pdu) {
      assert Rounds(next, 0) == next;
      rounds := 1;
    } else {
      var m := if InStep(next, pdu, n) && Effort(next, pdu, n) < Effort(l, pdu, n) then n else n + 1;
      var rest := InStepFinishes(next, pdu, m);
      rounds := rest + 1;
    }
  }

  /**
   * Any PDU of 1 to 4095 bytes, any parameters at either end: the transfer completes within a bounded
   * number of rounds, the receiver is handed exactly that PDU exactly once, and nothing is left pending.
   */
  lemma TransfersComplete(sender: IsoTpParameters, rx: Rx, pdu: Data) returns (rounds: nat)
    requires IsSendable(pdu) && CanHold(rx, pdu)
    ensures IsDone(Rounds(Started(sender, rx, pdu), rounds), pdu)
    ensures rounds <= 3 * FrameCount(pdu)
  {
    var l := Started(sender, rx, pdu);
    if |pdu| <= MAX_SINGLE_FRAME {
      SingleFrameIsHeard(rx, pdu, sender.padding);
      assert [] + [pdu] == [pdu];
      rounds := 0;
    } else {
      FirstFrameIsHeard(rx, pdu);
      CountIsTight(pdu, 1);
      FreshBlock(rx.params);
      assert InStep(l, pdu, 1);
      rounds := InStepFinishes(l, pdu, 1);
    }
  }

  lemma FreshBlock(params: IsoTpParameters)
    ensures AtBlockStart(params, 0)
  {
  }

  /** A receiver without room refuses, the transfer is aborted for overflow in the next round, and stays so. */
  lemma {:induction false} RefusedOverflows(sender: IsoTpParameters, rx: Rx, pdu: Data, rounds: nat)
    requires MAX_SINGLE_FRAME < |pdu| <= MAX_PDU && !rx.isFunctional && rx.maxPduLength < |pdu| && rounds > 0
    ensures var l := Rounds(Started(sender, rx, pdu), rounds);
            l.tx.state == Aborted(ReceiverOverflow) && l.delivered == [] && l.rx.pending.None?
  {
    var l := Started(sender, rx, pdu);
    var frame := FirstFrame(pdu);
    assert Announced(frame) == |pdu|;
    var refusal := FlowControlFrame(rx.params, 0x32);
    assert refusal[..3] == [0x32, rx.params.blockSize, rx.params.separationTimeMin];
    assert refusal[0] == 0x32 && Round(l).tx.state == Aborted(ReceiverOverflow);
    NothingMoves(Round(l), rounds - 1);
  }

  lemma {:induction false} NothingMoves(l: Link, rounds: nat)
    requires Round(l) == l
    ensures Rounds(l, rounds) == l
    decreases rounds
  {
    if rounds > 0 { NothingMoves(l, rounds - 1); }
  }

  /** A broadcast receiver never answers a first frame: the transmitter waits, for as long as it is not timed out. */
  lemma BroadcastIsNeverAnswered(sender: IsoTpParameters, rx: Rx, pdu: Data, rounds: nat)
    requires MAX_SINGLE_FRAME < |pdu| <= MAX_PDU && rx.isFunctional
    ensures var l := Rounds(Started(sender, rx, pdu), rounds);
            l.tx.state == AwaitingFlowControl && l.delivered == [] && l.rx == rx
  {
    NothingMoves(Started(sender, rx, pdu), rounds);
  }

  ghost predicate IsDoneAfter(sender: IsoTpParameters, rx: Rx, pdu: Data, rounds: nat)
    requires IsSendable(pdu)
  {
    IsDone(Rounds(Started(sender, rx, pdu), rounds), pdu)
  }

  /** A transfer completes exactly when it fits one frame or the receiver is physical and has room. */
  lemma CompletesExactly(sender: IsoTpParameters, rx: Rx, pdu: Data)
    requires IsSendable(pdu)
    ensures (exists rounds :: IsDoneAfter(sender, rx, pdu, rounds)) <==>
            |pdu| <= MAX_SINGLE_FRAME || CanHold(rx, pdu)
  {
    hide Started, FrameCount, Round;
    if |pdu| <= MAX_SINGLE_FRAME {
      SingleFrameCompletes(sender, rx, pdu);
      assert IsDoneAfter(sender, rx, pdu, 0);
    } else if CanHold(rx, pdu) {
      var rounds := TransfersComplete(sender, rx, pdu);
      assert IsDoneAfter(sender, rx, pdu, rounds);
    } else {
      forall rounds: nat ensures !IsDoneAfter(sender, rx, pdu, rounds) {
        if rx.isFunctional {
          BroadcastIsNeverAnswered(sender, rx, pdu, rounds);
        } else if rounds > 0 {
          RefusedOverflows(sender, rx, pdu, rounds);
        } else {
          NotDoneAtOnce(sender, rx, pdu);
        }
      }
    }
  }

  lemma SingleFrameCompletes(sender: IsoTpParameters, rx: Rx, pdu: Data)
    requires IsSendable(pdu) && |pdu| <= MAX_SINGLE_FRAME
    ensures IsDone(Rounds(Started(sender, rx, pdu), 0), pdu)
  {
    SingleFrameIsHeard(rx, pdu, sender.padding);
    assert [] + [pdu] == [pdu];
  }

  lemma NotDoneAtOnce(sender: IsoTpParameters, rx: Rx, pdu: Data)
    requires MAX_SINGLE_FRAME < |pdu| <= MAX_PDU
    ensures !IsDone(Rounds(Started(sender, rx, pdu), 0), pdu)
  {
    hide Received;
  }
}
