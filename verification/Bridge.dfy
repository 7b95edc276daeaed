/**
 * The CAN bridge itself: arrivals queue up, complete requests are answered, and what turns up while an
 * answer waits for flow control is consumed, dropped or set aside.
 */
module Bridge {
  import opened Basics
  import opened Pacing
  import opened CanFrames
  import opened Arrivals
  import opened IsoTp
  import opened IsoTpTheorems
  import opened Handlings
  import opened Listening

  lemma TailsJoin<T>(a: seq<T>, b: seq<T>, c: seq<T>)
    ensures a + (b + c) == (a + b) + c
  {
  }

  /** So many frames handled took so many turns off the script. */
  ghost predicate TurnsMatch(script: seq<Turn>, log: seq<Handling>, left: seq<Turn>) {
    && (forall k :: 0 <= k < |log| ==> log[k].turn == TurnAt(script, k))
    && left == if |log| <= |script| then script[|log|..] else []
  }

  ghost predicate IsAmongReplies(replies: seq<Reply>, pdu: Data) {
    exists k :: 0 <= k < |replies| && replies[k].bytes == pdu
  }

  /** Frames that belong elsewhere for the frame last handled. */
  ghost predicate AreElsewhere(log: seq<Handling>, frames: seq<CanFrame>) {
    frames != [] ==> log != [] && forall k :: 0 <= k < |frames| ==> Elsewhere(log[|log| - 1], frames[k])
  }

  lemma NoneElsewhere(log: seq<Handling>)
    ensures AreElsewhere(log, [])
  {
  }

  /** The last event taken off the script was the deadline passing, or the script is over. */
  ghost predicate RanOut(before: seq<BusEvent>, left: seq<BusEvent>) {
    left == [] || (|left| < |before| && before[|before| - |left| - 1] == DeadlinePasses)
  }

  /** What is left of a script after some of its events. */
  ghost predicate IsRestOf(before: seq<BusEvent>, left: seq<BusEvent>) {
    |left| <= |before| && left == before[|before| - |left|..]
  }

  lemma AllIsLeft(events: seq<BusEvent>)
    ensures IsRestOf(events, events)
  {
  }

  lemma RestOfRest(before: seq<BusEvent>, between: seq<BusEvent>, left: seq<BusEvent>)
    requires IsRestOf(before, between) && IsRestOf(between, left)
    ensures IsRestOf(before, left) && |left| <= |between| <= |before| && (RanOut(between, left) ==> RanOut(before, left))
  {
  }

  /** The ways a wait for flow control fails. */
  predicate IsWaitFailure(error: TransportError, framesSent: nat) {
    error == FlowControlTimeout(framesSent) || error.TooManyWaitFrames? || error.ReceiverOverflow? || error.InvalidFlowStatus?
  }

  class CanBridge {
    const params: IsoTpParameters
    var endpoints: map<CanId, Endpoint>
    var inbound: seq<CanFrame>
    var deferred: seq<CanFrame>
    var framesReceived: nat
    var framesSent: nat
    /** Frames put on the bus. */
    var sent: seq<CanFrame>
    /** What the bus and the simulation are going to do, in order. */
    var bus: seq<BusEvent>
    var turns: seq<Turn>

    /** All the frames the bus is ever going to bring, and all the turns the simulation is going to have. */
    ghost const coming: seq<CanFrame>
    ghost const script: seq<Turn>
    /** How many deadlines it is ever going to have pass. */
    ghost const deadlines: nat
    /** What arrived and became of it; which frames were handed over, and how many arrivals the wait of each looked at. */
    ghost var arrived: seq<CanFrame>
    ghost var fates: seq<Fate>
    ghost var log: seq<Handling>
    ghost var looks: seq<nat>
    /** How many replies were given up before their last frame. */
    ghost var cutShort: nat

    constructor (params: IsoTpParameters, endpoints: map<CanId, Endpoint>, bus: seq<BusEvent>, turns: seq<Turn>)
      ensures Valid() && this.params == params && this.endpoints == endpoints && this.bus == bus && this.turns == turns
      ensures log == [] && inbound == [] && sent == [] && coming == FramesOf(bus) && script == turns && deadlines == DeadlinesIn(bus)
    {
      coming, script, deadlines, cutShort := FramesOf(bus), turns, DeadlinesIn(bus), 0;
      this.params, this.endpoints, this.bus, this.turns := params, endpoints, bus, turns;
      inbound, deferred, framesReceived, framesSent, sent := [], [], 0, 0, [];
      arrived, fates, log, looks := [], [], [], [];
    }

    /**
     * Between two frames: nothing is set aside, every arrival's fate follows from the frames handled
     * and how far each wait looked, everything sent was put out by the frames handled, and no more
     * replies were cut short than there was cause for.
     */
    ghost predicate Valid()
      reads this
    {
      deferred == [] && Consistent() && PaidOut() && TurnsTaken() && Excused()
    }

    /** What also holds while a frame is being handled. */
    ghost predicate Consistent()
      reads `arrived, `fates, `log, `looks, `deferred, `inbound, `framesReceived, `bus, `sent, `framesSent
    {
      Accounted() && framesSent == |sent|
    }

    /** Frames handed over, then those set aside, then the queue, are the kept arrivals in order. */
    ghost predicate Accounted()
      reads `arrived, `fates, `log, `looks, `deferred, `inbound, `framesReceived, `bus
    {
      && ExactFates(arrived, fates, log, looks)
      && FramesOfLog(log) + deferred + inbound == KeptOf(arrived, fates)
      && AreElsewhere(log, deferred)
      && framesReceived == |arrived|
      && arrived + FramesOf(bus) == coming
    }

    /** As `Accounted`, with this frame in hand between those set aside and the queue. */
    ghost predicate AccountedBut(frame: CanFrame)
      reads `arrived, `fates, `log, `looks, `deferred, `inbound, `framesReceived, `bus
    {
      && ExactFates(arrived, fates, log, looks)
      && FramesOfLog(log) + deferred + [frame] + inbound == KeptOf(arrived, fates)
      && AreElsewhere(log, deferred)
      && framesReceived == |arrived|
      && arrived + FramesOf(bus) == coming
    }

    /** The frames ever handed over are exactly the arrivals not removed, in arrival order. */
    ghost predicate AllHandled()
      reads `arrived, `fates, `log
    {
      |arrived| == |fates| && FramesOfLog(log) == KeptOf(arrived, fates)
    }

    ghost predicate PaidOut()
      reads `log, `sent, `cutShort
    {
      AllPutOut(log, sent, params.padding, cutShort)
    }

    /** Until the script runs out, every reply cut short has a deadline that passed or a flow control frame taken to its account. */
    ghost predicate Excused()
      reads `cutShort, `fates, `bus
    {
      bus == [] || cutShort <= deadlines + Credit()
    }

    /** Flow control frames taken, less the deadlines still to pass. */
    ghost function Credit(): int
      reads `fates, `bus
    {
      TakenIn(fates) - DeadlinesIn(bus)
    }

    ghost predicate TurnsTaken()
      reads `log, `turns
    {
      TurnsMatch(script, log, turns)
    }

    /** The frame last handed over is a request on this identifier being answered with this PDU among its replies. */
    ghost predicate Answering(canId: CanId, pdu: Data)
      reads `log, `endpoints
    {
      && OnBehalfOf(canId)
      && IsAmongReplies(log[|log| - 1].turn.replies, pdu)
    }

    ghost predicate OnBehalfOf(canId: CanId)
      reads `log, `endpoints
    {
      && log != [] && log[|log| - 1].frame.canId == canId && log[|log| - 1].endpoints.Keys == endpoints.Keys
      && IsAnswered(log[|log| - 1])
    }

    /** And some reply of it needs flow control. */
    ghost predicate WaitingFor(canId: CanId)
      reads `log, `endpoints
    {
      OnBehalfOf(canId) && Waits(log[|log| - 1])
    }

    /** Frames that can still come up: queued, set aside or yet to arrive. */
    ghost function Outstanding(): nat
      reads `inbound, `deferred, `bus
    {
      |inbound| + |deferred| + |FramesOf(bus)|
    }

    lemma ConsistentParts()
      ensures Consistent() <==> Accounted() && framesSent == |sent|
    {
      hide Accounted;
    }

    lemma ValidParts()
      ensures Valid() <==> deferred == [] && Consistent() && PaidOut() && TurnsTaken() && Excused()
    {
      hide Consistent, PaidOut, TurnsTaken, Excused;
    }

    lemma PaidOutParts()
      ensures PaidOut() <==> AllPutOut(log, sent, params.padding, cutShort)
    {
      hide AllPutOut;
    }

    /** Poll once: all that came joins the tail of the queue. */
    method FillInbound()
      requires Consistent()
      modifies this`inbound, this`bus, this`framesReceived, this`arrived, this`fates
      ensures Consistent()
      ensures old(bus) != [] ==> bus == old(bus)[1..]
      ensures old(bus) == [] ==> bus == []
      ensures Outstanding() == old(Outstanding())
      ensures arrived == old(arrived) + Brought(old(bus)) && inbound == old(inbound) + Brought(old(bus))
      ensures |old(fates)| <= |fates| && fates == old(fates) + AllKept(|fates| - |old(fates)|)
      ensures Credit() >= old(Credit())
    {
      hide ExactFates, KeptOf, AreElsewhere, FramesOfLog, KeptPlaces, TakenIn;
      assert fates + AllKept(0) == fates;
      if bus == [] { return; }
      var event := bus[0];
      bus := bus[1..];
      if event.Arrive? {
        framesReceived := framesReceived + |event.frames|;
        FatesOfMore(arrived, fates, log, looks, event.frames);
        TakenOfMore(fates, |event.frames|);
        TailsJoin(FramesOfLog(log) + deferred, inbound, event.frames);
        TailsJoin(arrived, event.frames, FramesOf(bus));
        arrived, fates := arrived + event.frames, fates + AllKept(|event.frames|);
        inbound := inbound + event.frames;
      }
    }

    /** The next frame off the queue. */
    method PopInbound() returns (frame: CanFrame)
      requires Accounted() && inbound != []
      modifies this`inbound
      ensures AccountedBut(frame) && frame == old(inbound)[0] && inbound == old(inbound)[1..]
      ensures Outstanding() == old(Outstanding()) - 1
    {
      frame := inbound[0];
      ghost var ahead := FramesOfLog(log) + deferred;
      assert ahead + inbound == ahead + [frame] + inbound[1..];
      hide ExactFates, KeptOf;
      inbound := inbound[1..];
    }

    /** Where the frame in hand stands among the kept arrivals. */
    ghost function InHand(): nat
      reads `log, `deferred
    {
      |log| + |deferred|
    }

    lemma HandIsKept(frame: CanFrame)
      requires AccountedBut(frame)
      ensures |arrived| == |fates| && |looks| == |log| <= InHand() < |KeptPlaces(fates)| && arrived[KeptPlaces(fates)[InHand()]] == frame
      ensures log != [] ==> ElsewhereUpTo(arrived, fates, log, InHand())
    {
      var kept := FramesOfLog(log) + deferred + [frame] + inbound;
      assert kept[InHand()] == frame;
      hide ExactFate, LooksInTime, KeptPlaces, Elsewhere;
      if log != [] {
        forall k | |log| <= k < InHand() ensures Elsewhere(log[|log| - 1], arrived[KeptPlaces(fates)[k]]) {
          assert kept[k] == deferred[k - |log|];
        }
      }
    }

    /** Take the frame in hand for good, as flow control or because its ECU is busy answering. */
    ghost method Remove(frame: CanFrame, fate: Fate, canId: CanId)
      requires AccountedBut(frame) && WaitingFor(canId)
      requires fate != Kept && fate.during == |log| - 1 && RemovesAs(log[|log| - 1], frame, fate)
      modifies this`fates, this`looks
      ensures Accounted() && OnlyRemoves(old(fates), fates, |log| - 1, |log|)
      ensures Credit() == old(Credit()) + (if fate.TakenAsFlowControl? then 1 else 0)
    {
      hide ExactFates, KeptPlaces, KeptOf, RemovesAs, OnlyRemoves, TakenIn, DeadlinesIn, AreElsewhere, FramesOf, IsAnswered, Waits;
      hide ElsewhereUpTo;
      HandIsKept(frame);
      var i, last := KeptPlaces(fates)[InHand()], |log| - 1;
      TakenOfRemoval(fates, i, fate);
      FatesOfRemoval(arrived, fates, log, looks, InHand(), fate);
      RemoveKept(arrived, fates, InHand(), fate);
      RemovingIsRemoval(fates, i, fate, last, |log|);
      var ahead, kept := FramesOfLog(log) + deferred, KeptOf(arrived, fates);
      assert kept[..InHand()] == ahead && kept[InHand() + 1..] == inbound;
      looks := looks[last := Further(looks[last], i)];
      fates := fates[i := fate];
    }

    /** Set the frame in hand aside. */
    ghost method LookPast(frame: CanFrame, canId: CanId)
      requires AccountedBut(frame) && WaitingFor(canId) && Elsewhere(log[|log| - 1], frame)
      modifies this`looks
      ensures ExactFates(arrived, fates, log, looks)
    {
      HandIsKept(frame);
      FatesOfAside(arrived, fates, log, looks, InHand());
      hide ExactFates, KeptPlaces, KeptOf;
      var i, last := KeptPlaces(fates)[InHand()], |log| - 1;
      looks := looks[last := Further(looks[last], i)];
    }

    /** The transmitter is on course with a PDU: these frames of it are out. */
    ghost predicate Transferring(transmitter: IsoTpTransmitter, pdu: Data, emitted: seq<Data>)
      reads transmitter
    {
      IsSendable(pdu) && OnCourse(Sending(transmitter.Now(), emitted), pdu, params.padding)
    }

    /** One frame met while waiting: flow control goes to the transmitter, a frame for the busy ECU is dropped, others are set aside. */
    method SortFrame(frame: CanFrame, answering: CanId, transmitter: IsoTpTransmitter, ghost pdu: Data, ghost emitted: seq<Data>)
      returns (verdict: Result<(), TransportError>)
      requires AccountedBut(frame) && WaitingFor(answering)
      requires Transferring(transmitter, pdu, emitted) && transmitter.state == AwaitingFlowControl
      modifies transmitter, this`deferred, this`fates, this`looks
      ensures verdict.Ok? ==> transmitter.state == AwaitingFlowControl || transmitter.state == SendingBlock
      ensures verdict.Err? ==> IsWaitFailure(verdict.error, |emitted|) && !verdict.error.FlowControlTimeout?
      ensures Accounted() && Outstanding() <= old(Outstanding()) + 1
      ensures OnlyRemoves(old(fates), fates, |log| - 1, |log|)
      ensures Credit() >= old(Credit()) + (if verdict.Err? then 1 else 0)
      ensures Transferring(transmitter, pdu, emitted)
      ensures var toTransmitter := IsFlowControl(frame) && frame.canId in endpoints;
              && ((transmitter.Now(), verdict) ==
                  if toTransmitter then FlowControlled(old(transmitter.Now()), frame.data) else (old(transmitter.Now()), Ok(())))
              && deferred == (if BelongsElsewhere(frame, endpoints.Keys, answering) then old(deferred) + [frame] else old(deferred))
    {
      hide OnlyRemoves, ExactFates, KeptOf, OnCourse, IsAnswered, Waits, Credit;
      if IsFlowControl(frame) && frame.canId in endpoints {
        Remove(frame, TakenAsFlowControl(|log| - 1), answering);
        DrivingStaysOnCourse(Sending(transmitter.Now(), emitted), pdu, params.padding, PeerSays(frame.data));
        verdict := transmitter.OnFlowControl(frame.data);
        return;
      }
      if frame.canId == answering {
        Remove(frame, DroppedFor(|log| - 1), answering);
        return Ok(());
      }
      RemovesNothing(fates, |log| - 1, |log|);
      LookPast(frame, answering);
      ghost var ahead := FramesOfLog(log);
      assert ahead + (deferred + [frame]) + inbound == ahead + deferred + [frame] + inbound;
      deferred := deferred + [frame];
      return Ok(());
    }

    /** One poll of a wait, and the next frame sorted if there is one. */
    method LookAtNext(answering: CanId, transmitter: IsoTpTransmitter, ghost pdu: Data, ghost emitted: seq<Data>)
      returns (verdict: Result<(), TransportError>)
      requires Consistent() && WaitingFor(answering) && bus != [] && bus[0] != DeadlinePasses
      requires Transferring(transmitter, pdu, emitted) && transmitter.state == AwaitingFlowControl
      modifies transmitter, this`inbound, this`deferred, this`bus, this`framesReceived, this`arrived, this`fates, this`looks
      ensures Consistent() && Outstanding() <= old(Outstanding()) && bus == old(bus)[1..]
      ensures OnlyRemoves(old(fates), fates, |log| - 1, |log|)
      ensures Transferring(transmitter, pdu, emitted)
      ensures verdict.Ok? ==> transmitter.state == AwaitingFlowControl || transmitter.state == SendingBlock
      ensures verdict.Err? ==> IsWaitFailure(verdict.error, |emitted|) && !verdict.error.FlowControlTimeout?
      ensures Heard(old(transmitter.Now()), old(inbound), old(bus), endpoints.Keys)
              == if verdict.Err? then verdict else Heard(transmitter.Now(), inbound, bus, endpoints.Keys)
      ensures Credit() >= old(Credit()) + (if verdict.Err? then 1 else 0)
    {
      hide OnlyRemoves, Accounted, AccountedBut, Consistent, Transferring, Outstanding, Brought, WaitingFor, FlowControlled, Heard, Credit;
      hide IsWaitFailure;
      ConsistentParts();
      ghost var tx, queue, events, earlier := transmitter.Now(), inbound, bus, fates;
      FillInbound();
      ArrivingRemovesNothing(earlier, |fates| - |earlier|, |log| - 1, |log|);
      if inbound == [] {
        HeardNothing(tx, events, endpoints.Keys);
        return Ok(());
      }
      HeardFrame(tx, queue, events, endpoints.Keys);
      ConsistentParts();
      var frame := PopInbound();
      ghost var filled := fates;
      verdict := SortFrame(frame, answering, transmitter, pdu, emitted);
      ConsistentParts();
      RemovesTwice(earlier, filled, fates, |log| - 1, |log|);
    }

    /** Wait, frame by frame, for the tester to grant a block, or give up. */
    method AwaitFlowControl(answering: CanId, transmitter: IsoTpTransmitter, ghost pdu: Data, ghost emitted: seq<Data>)
      returns (verdict: Result<(), TransportError>)
      requires Consistent() && WaitingFor(answering)
      requires Transferring(transmitter, pdu, emitted) && transmitter.state == AwaitingFlowControl
      modifies transmitter, this`inbound, this`deferred, this`bus, this`framesReceived, this`arrived, this`fates, this`looks
      ensures Consistent() && Outstanding() <= old(Outstanding())
      ensures OnlyRemoves(old(fates), fates, |log| - 1, |log|)
      ensures Transferring(transmitter, pdu, emitted)
      ensures IsRestOf(old(bus), bus)
      ensures verdict.Ok? ==> transmitter.state == SendingBlock && |bus| < |old(bus)|
      ensures verdict.Err? ==> IsWaitFailure(verdict.error, |emitted|)
      ensures verdict.Err? && verdict.error.FlowControlTimeout? ==> RanOut(old(bus), bus)
      ensures Heard(old(transmitter.Now()), old(inbound), old(bus), endpoints.Keys)
              == if verdict.Err? then verdict else Heard(transmitter.Now(), inbound, bus, endpoints.Keys)
      ensures Credit() >= old(Credit()) && (verdict.Err? ==> Credit() > old(Credit()) || bus == [])
    {
      hide OnlyRemoves, Accounted, Consistent, Transferring, Outstanding, WaitingFor, Heard, Credit;
      RemovesNothing(fates, |log| - 1, |log|);
      ConsistentParts();
      while transmitter.state == AwaitingFlowControl
        invariant Consistent() && Outstanding() <= old(Outstanding())
        invariant OnlyRemoves(old(fates), fates, |log| - 1, |log|)
        invariant Transferring(transmitter, pdu, emitted)
        invariant |bus| <= |old(bus)| && bus == old(bus)[|old(bus)| - |bus|..]
        invariant transmitter.state == AwaitingFlowControl || (transmitter.state == SendingBlock && |bus| < |old(bus)|)
        invariant Heard(old(transmitter.Now()), old(inbound), old(bus), endpoints.Keys)
                  == Heard(transmitter.Now(), inbound, bus, endpoints.Keys)
        invariant Credit() >= old(Credit())
        decreases |bus|
      {
        ghost var earlier := fates;
        HeardOutOfTimeIf(transmitter.Now(), inbound, bus, endpoints.Keys);
        ConsistentParts();
        var tooLate := DeadlinePassed();
        ConsistentParts();
        if tooLate {
          verdict := GiveUp(transmitter, pdu, emitted);
          return;
        }
        verdict := LookAtNext(answering, transmitter, pdu, emitted);
        RemovesTwice(old(fates), earlier, fates, |log| - 1, |log|);
        if verdict.Err? { return; }
      }
      return Ok(());
    }

    /** Only a reply too long for one frame ever waits. */
    lemma WaitingNeedsFlowControl(canId: CanId, transmitter: IsoTpTransmitter, pdu: Data, emitted: seq<Data>)
      requires Answering(canId, pdu) && Transferring(transmitter, pdu, emitted) && transmitter.state == AwaitingFlowControl
      ensures WaitingFor(canId)
    {
      ManyFramesMeanLong(pdu, |emitted|);
    }

    /** Whether the wait has run out by now. */
    method DeadlinePassed() returns (passed: bool)
      modifies this`bus
      ensures Outstanding() == old(Outstanding()) && |bus| <= |old(bus)|
      ensures passed <==> old(bus) == [] || old(bus)[0] == DeadlinePasses
      ensures if passed && old(bus) != [] then bus == old(bus)[1..] else bus == old(bus)
      ensures Credit() >= old(Credit()) && (passed ==> Credit() > old(Credit()) || bus == [])
      ensures old(Accounted()) ==> Accounted()
    {
      hide ExactFates, KeptOf, AreElsewhere, FramesOfLog, TakenIn, FramesOf, DeadlinesIn;
      passed := bus == [] || bus[0] == DeadlinePasses;
      if bus != [] && passed {
        DeadlineTaken(bus);
        bus := bus[1..];
      }
    }

    /** The flow control never came. */
    method GiveUp(transmitter: IsoTpTransmitter, ghost pdu: Data, ghost emitted: seq<Data>) returns (verdict: Result<(), TransportError>)
      requires Transferring(transmitter, pdu, emitted)
      modifies transmitter
      ensures Transferring(transmitter, pdu, emitted) && verdict == Err(FlowControlTimeout(|emitted|)) == TimedOut(old(transmitter.Now())).1
    {
      DrivingStaysOnCourse(Sending(transmitter.Now(), emitted), pdu, params.padding, TimeOut);
      verdict := transmitter.OnFlowControlTimeout();
    }

    /** Return everything set aside, oldest first, ahead of the queue. */
    method RestoreDeferredFrames()
      requires Consistent()
      modifies this`inbound, this`deferred
      ensures Consistent() && deferred == [] && inbound == old(deferred) + old(inbound)
      ensures Outstanding() == old(Outstanding())
    {
      hide ExactFates, KeptOf, AreElsewhere, FramesOf, FramesOfLog;
      NoneElsewhere(log);
      if deferred == [] { return; }
      var drained := deferred;
      deferred := [];
      for k := |drained| downto 0
        invariant deferred == [] && inbound == drained[k..] + old(inbound)
      {
        inbound := [drained[k]] + inbound;
      }
      assert drained[0..] == drained;
      TailsJoin(FramesOfLog(log), drained, old(inbound));
      assert FramesOfLog(log) + [] == FramesOfLog(log);
    }

    /** Record a frame as sent. */
    method SendRaw(canId: CanId, data: Data)
      modifies this`sent, this`framesSent
      ensures framesSent == old(framesSent) + 1
      ensures sent == old(sent) + [NewClassic(0.0, canId, data)]
    {
      framesSent := framesSent + 1;
      sent := sent + [NewClassic(0.0, canId, data)];
    }

    /** Send what the flow control just received allows. */
    method SendBlock(responseCanId: CanId, transmitter: IsoTpTransmitter, ghost pdu: Data, ghost before: seq<Data>)
      returns (ghost emitted: seq<Data>)
      requires Transferring(transmitter, pdu, before) && transmitter.state == SendingBlock
      modifies transmitter, this`sent, this`framesSent
      ensures Transferring(transmitter, pdu, emitted)
      ensures transmitter.state == Complete || transmitter.state == AwaitingFlowControl
      ensures transmitter.Now() == BlockSent(old(transmitter.Now()))
      ensures SentMeanwhile(old(sent), sent, responseCanId, before, emitted)
      ensures |old(sent)| <= |sent| && framesSent - old(framesSent) == |sent| - |old(sent)|
    {
      hide OnCourse, Advanced, SentMeanwhile, FrameCount, BlockSent;
      SendingStep(transmitter.Now());
      emitted := before;
      NothingSent(sent, responseCanId, emitted);
      ghost var drawn := Drawing(transmitter, pdu, emitted);
      var next := transmitter.NextConsecutiveFrame();
      while next.Some?
        invariant Transferring(transmitter, pdu, drawn)
        invariant drawn == if next.Some? then emitted + [next.value] else emitted
        invariant if next.Some? then transmitter.state == Complete || transmitter.state == SendingBlock
                  else transmitter.state == Complete || transmitter.state == AwaitingFlowControl
        invariant BlockSent(old(transmitter.Now())) == if next.Some? then BlockSent(transmitter.Now()) else transmitter.Now()
        invariant SentMeanwhile(old(sent), sent, responseCanId, before, emitted)
        invariant |old(sent)| <= |sent| && framesSent - old(framesSent) == |sent| - |old(sent)|
        decreases FrameCount(pdu) - |emitted|
      {
        SendingStep(transmitter.Now());
        SentOneMore(old(sent), sent, responseCanId, before, emitted, next.value);
        SendRaw(responseCanId, next.value);
        emitted := emitted + [next.value];
        drawn := Drawing(transmitter, pdu, emitted);
        next := transmitter.NextConsecutiveFrame();
      }
    }

    /** What asking for the next frame is going to do to a transfer on course. */
    ghost method Drawing(transmitter: IsoTpTransmitter, pdu: Data, emitted: seq<Data>) returns (drawn: seq<Data>)
      requires Transferring(transmitter, pdu, emitted)
      ensures var (tx, next) := Advanced(transmitter.Now());
              && drawn == (if next.Some? then emitted + [next.value] else emitted)
              && OnCourse(Sending(tx, drawn), pdu, params.padding)
              && |drawn| <= FrameCount(pdu)
              && (next.Some? ==> tx.state == Complete || tx.state == SendingBlock)
              && (next.None? && transmitter.state == SendingBlock ==> tx.state == Complete || tx.state == AwaitingFlowControl)
              && (next.None? && transmitter.state == Complete ==> tx.state == Complete)
    {
      DrivingStaysOnCourse(Sending(transmitter.Now(), emitted), pdu, params.padding, AskNext);
      drawn := Driven(Sending(transmitter.Now(), emitted), AskNext).emitted;
    }

    /** Send one reply, in as many frames and blocks as it takes. */
    method TransmitPdu(requestCanId: CanId, responseCanId: CanId, pdu: Data)
      returns (ghost emitted: seq<Data>, ghost verdict: Result<(), TransportError>)
      requires Consistent() && deferred == [] && Answering(requestCanId, pdu)
      modifies this`inbound, this`deferred, this`bus, this`framesReceived, this`arrived, this`fates, this`looks, this`sent, this`framesSent
      ensures Consistent() && deferred == [] && Outstanding() <= old(Outstanding()) && |bus| <= |old(bus)|
      ensures OnlyRemoves(old(fates), fates, |log| - 1, |log|)
      ensures SentMeanwhile(old(sent), sent, responseCanId, [], emitted)
      ensures IsStartOf(emitted, pdu, params.padding)
      ensures verdict.Ok? ==> IsSendable(pdu) && emitted == Frames(pdu, params.padding)
      ensures verdict == Err(EmptyPdu) <==> pdu == []
      ensures verdict == Err(PduTooLong(|pdu|)) <==> |pdu| > MAX_PDU
      ensures verdict.Err? && verdict.error.FlowControlTimeout? ==> verdict.error.framesSent == |emitted| && RanOut(old(bus), bus)
      ensures IsSendable(pdu) ==> verdict == Heard(Begun(NewTx(params), pdu).0, old(inbound), old(bus), endpoints.Keys)
      ensures Credit() >= old(Credit()) + (if IsWhole(emitted, pdu, params.padding) then 0 else 1) || bus == []
    {
      hide Accounted, Answering, Outstanding, OnlyRemoves, OnCourse, Begun, Frames, SentMeanwhile, Heard, Credit, RanOut;
      RemovesNothing(fates, |log| - 1, |log|);
      BeginsOnCourse(params, pdu);
      emitted := [];
      var transmitter := new IsoTpTransmitter(params);
      var first := transmitter.Begin(pdu);
      if first.Err? {
        verdict := Err(first.error);
        NothingSent(sent, responseCanId, emitted);
        return;
      }
      NothingSent(sent, responseCanId, []);
      SentOneMore(sent, sent, responseCanId, [], [], first.value);
      ghost var was := sent;
      SendRaw(responseCanId, first.value);
      ghost var begun := sent;
      emitted, verdict := TransmitRest(requestCanId, responseCanId, transmitter, pdu, [first.value]);
      SentOn(was, begun, sent, responseCanId, [], [first.value], emitted);
      OnCourseIsAStart(Sending(transmitter.Now(), emitted), pdu, params.padding);
    }

    /** Block after block until the transfer completes or fails, then back to normal. */
    method TransmitRest(requestCanId: CanId, responseCanId: CanId, transmitter: IsoTpTransmitter, ghost pdu: Data, ghost begun: seq<Data>)
      returns (ghost emitted: seq<Data>, ghost verdict: Result<(), TransportError>)
      requires Consistent() && deferred == [] && Answering(requestCanId, pdu) && Transferring(transmitter, pdu, begun)
      requires transmitter.state == Complete || transmitter.state == AwaitingFlowControl
      modifies transmitter, this`inbound, this`deferred, this`bus, this`framesReceived, this`arrived, this`fates, this`looks
      modifies this`sent, this`framesSent
      ensures Consistent() && deferred == [] && Outstanding() <= old(Outstanding()) && |bus| <= |old(bus)|
      ensures OnlyRemoves(old(fates), fates, |log| - 1, |log|)
      ensures SentMeanwhile(old(sent), sent, responseCanId, begun, emitted)
      ensures Transferring(transmitter, pdu, emitted)
      ensures verdict.Ok? ==> emitted == Frames(pdu, params.padding)
      ensures verdict.Err? ==> !verdict.error.EmptyPdu? && !verdict.error.PduTooLong?
      ensures verdict.Err? && verdict.error.FlowControlTimeout? ==> verdict.error.framesSent == |emitted| && RanOut(old(bus), bus)
      ensures verdict == Heard(old(transmitter.Now()), old(inbound), old(bus), endpoints.Keys)
      ensures Credit() >= old(Credit()) + (if verdict.Err? then 1 else 0) || bus == []
    {
      hide OnlyRemoves, Accounted, Consistent, Answering, WaitingFor, Transferring, Outstanding, SentMeanwhile, Frames, Heard, Credit, BlockSent, RanOut, IsRestOf;
      RemovesNothing(fates, |log| - 1, |log|);
      AllIsLeft(bus);
      emitted := begun;
      NothingSent(sent, responseCanId, begun);
      while transmitter.state != Complete
        invariant Consistent() && Outstanding() <= old(Outstanding())
        invariant IsRestOf(old(bus), bus)
        invariant OnlyRemoves(old(fates), fates, |log| - 1, |log|)
        invariant Transferring(transmitter, pdu, emitted)
        invariant transmitter.state == Complete || transmitter.state == AwaitingFlowControl
        invariant SentMeanwhile(old(sent), sent, responseCanId, begun, emitted)
        invariant Heard(old(transmitter.Now()), old(inbound), old(bus), endpoints.Keys)
                  == Heard(transmitter.Now(), inbound, bus, endpoints.Keys)
        invariant Credit() >= old(Credit()) || bus == []
        decreases |bus|
      {
        ghost var earlier, events := fates, bus;
        WaitingNeedsFlowControl(requestCanId, transmitter, pdu, emitted);
        var granted := AwaitFlowControl(requestCanId, transmitter, pdu, emitted);
        RestOfRest(old(bus), events, bus);
        RemovesTwice(old(fates), earlier, fates, |log| - 1, |log|);
        if granted.Err? {
          RestoreDeferredFrames();
          verdict := granted;
          return;
        }
        ghost var was, out, tx := sent, emitted, transmitter.Now();
        ConsistentParts();
        emitted := SendBlock(responseCanId, transmitter, pdu, emitted);
        ConsistentParts();
        HeardAfterBlock(tx, inbound, bus, endpoints.Keys);
        SentOn(old(sent), was, sent, responseCanId, begun, out, emitted);
      }
      HeardComplete(transmitter.Now(), inbound, bus, endpoints.Keys);
      RestoreDeferredFrames();
      CompleteSentAll(transmitter, pdu, emitted);
      verdict := Ok(());
    }

    /** Whether the simulation is on the bus for the next frame, and the replies it will have. */
    method NextTurn() returns (turn: Turn)
      modifies this`turns
      ensures turn == TurnAt(old(turns), 0) && turns == (if old(turns) == [] then [] else old(turns)[1..])
    {
      if turns == [] { return Turn(false, []); }
      turn := turns[0];
      turns := turns[1..];
    }

    /** Step the receiver listening on this identifier, if one does, and send what it asks for; a finished request is the result. */
    method FeedEndpoint(frame: CanFrame) returns (request: Option<Data>)
      requires framesSent == |sent|
      modifies this`endpoints, this`sent, this`framesSent
      ensures framesSent == |sent| && endpoints.Keys == old(endpoints).Keys
      ensures var (fed, completed, reply) := Fed(old(endpoints), frame);
              endpoints == fed && request == completed && sent == old(sent) + reply
      ensures request.Some? ==> frame.canId in endpoints && sent == old(sent)
    {
      if frame.canId !in endpoints { return None; }
      var endpoint := endpoints[frame.canId];
      var (rx, outcome) := Received(endpoint.rx, frame.data);
      endpoints := endpoints[frame.canId := endpoint.(rx := rx)];
      match outcome
      case Completed(pdu) => return Some(pdu);
      case SendFlowControl(reply) =>
        SendRaw(endpoint.responseCanId, reply);
        return None;
      case Refused(reply) =>
        SendRaw(endpoint.responseCanId, reply);
        return None;
      case _ => return None;
    }

    /** Transfer the replies to a complete request one after the other. */
    method AnswerRequest(requestCanId: CanId, replies: seq<Reply>) returns (ghost cut: nat)
      requires Consistent() && deferred == [] && OnBehalfOf(requestCanId) && log[|log| - 1].turn.replies == replies
      modifies this`inbound, this`deferred, this`bus, this`framesReceived, this`arrived, this`fates, this`looks, this`sent, this`framesSent
      ensures Consistent() && deferred == [] && Outstanding() <= old(Outstanding()) && |bus| <= |old(bus)|
      ensures OnlyRemoves(old(fates), fates, |log| - 1, |log|)
      ensures old(sent) <= sent && Replied(old(sent), sent, replies, params.padding, cut)
      ensures Credit() >= old(Credit()) + cut || bus == []
    {
      hide OnlyRemoves, Accounted, Outstanding, IsStartOf, IsWhole, SentMeanwhile, IsAnswered, Heard, Credit;
      RemovesNothing(fates, |log| - 1, |log|);
      cut := 0;
      for k := 0 to |replies|
        invariant Consistent() && deferred == [] && Outstanding() <= old(Outstanding()) && |bus| <= |old(bus)|
        invariant OnlyRemoves(old(fates), fates, |log| - 1, |log|)
        invariant old(sent) <= sent && Replied(old(sent), sent, replies[..k], params.padding, cut)
        invariant Credit() >= old(Credit()) + cut || bus == []
      {
        ghost var earlier, was := fates, sent;
        ghost var emitted, verdict := TransmitPdu(requestCanId, replies[k].responseCanId, replies[k].bytes);
        RemovesTwice(old(fates), earlier, fates, |log| - 1, |log|);
        RepliedOneMore(old(sent), was, sent, replies, k, emitted, params.padding, cut);
        if !IsWhole(emitted, replies[k].bytes, params.padding) { cut := cut + 1; }
      }
      assert replies[..|replies|] == replies;
    }

    /** The frame in hand counts as handed over. */
    ghost method HandOver(frame: CanFrame)
      requires AccountedBut(frame) && deferred == []
      modifies this`log, this`looks
      ensures Accounted() && log == old(log) + [Handling(frame, endpoints, TurnNow(), |sent|, |arrived|)]
      ensures Outstanding() == old(Outstanding())
    {
      HandIsKept(frame);
      var h := Handling(frame, endpoints, TurnNow(), |sent|, |arrived|);
      FatesOfNext(arrived, fates, log, looks, h);
      hide ExactFates, KeptPlaces, KeptOf;
      assert FramesOfLog(log + [h]) == FramesOfLog(log) + [frame];
      assert FramesOfLog(log) + deferred + [frame] + inbound == (FramesOfLog(log) + [frame]) + deferred + inbound;
      log, looks := log + [h], looks + [0];
    }

    /** The turn the next frame handled is going to have. */
    ghost function TurnNow(): Turn
      reads `turns
    {
      TurnAt(turns, 0)
    }

    /** What the frame just handed over calls for, on its turn. */
    method TakeIn(frame: CanFrame, turn: Turn) returns (answered: bool, ghost cut: nat)
      requires Consistent() && deferred == []
      requires log != [] && log[|log| - 1].frame == frame && log[|log| - 1].endpoints == endpoints && log[|log| - 1].turn == turn
      modifies this`endpoints, this`inbound, this`deferred, this`bus, this`framesReceived, this`arrived, this`fates, this`looks
      modifies this`sent, this`framesSent
      ensures Consistent() && deferred == [] && Outstanding() <= old(Outstanding()) && |bus| <= |old(bus)|
      ensures var h := log[|log| - 1];
              && (answered <==> IsAnswered(h)) && endpoints == EndpointsAfter(h)
              && old(sent) <= sent && PutOut(h, old(sent), sent, params.padding, cut)
      ensures !answered ==> fates == old(fates) && arrived == old(arrived) && inbound == old(inbound)
      ensures OnlyRemoves(old(fates), fates, |log| - 1, |log|)
      ensures Credit() >= old(Credit()) + cut || bus == []
    {
      hide OnlyRemoves, Accounted, Consistent, Outstanding, Fed, Replied, PutOut, IsAnswered, EndpointsAfter, Credit;
      ghost var h := log[|log| - 1];
      FeedingDecides(h);
      RemovesNothing(fates, |log| - 1, |log|);
      cut := 0;
      if !turn.isRunning {
        PutOutIf(h, old(sent), sent, params.padding, 0);
        return false, 0;
      }
      ConsistentParts();
      var request := FeedEndpoint(frame);
      ConsistentParts();
      if request.None? {
        PutOutIf(h, old(sent), sent, params.padding, 0);
        return false, 0;
      }
      cut := AnswerRequest(frame.canId, turn.replies);
      PutOutIf(h, old(sent), sent, params.padding, cut);
      return true, cut;
    }

    /** Take in one frame and, should a request be complete with it, answer that; says whether it was. */
    method HandleFrame(frame: CanFrame) returns (answered: bool)
      requires AccountedBut(frame) && framesSent == |sent| && deferred == [] && PaidOut() && TurnsTaken() && Excused()
      modifies this
      ensures Valid() && Outstanding() <= old(Outstanding()) && |bus| <= |old(bus)|
      ensures log == old(log) + [Handling(frame, old(endpoints), old(TurnNow()), |old(sent)|, |old(arrived)|)]
      ensures var h := log[|log| - 1];
              && (answered <==> IsAnswered(h)) && endpoints == EndpointsAfter(h)
              && old(cutShort) <= cutShort && PutOut(h, old(sent), sent, params.padding, cutShort - old(cutShort))
      ensures !answered ==> fates == old(fates) && arrived == old(arrived) && inbound == old(inbound)
      ensures answered ==> OnlyRemoves(old(fates), fates, |log| - 1, |log|)
    {
      hide OnlyRemoves, Accounted, AccountedBut, Outstanding, AllPutOut, PutOut, TurnsMatch, IsAnswered, EndpointsAfter, Credit;
      hide Consistent, PaidOut, Valid;
      PaidOutParts();
      HandOver(frame);
      var turn := NextTurn();
      ghost var h := log[|log| - 1];
      OneTurnTaken(old(log), old(turns), h);
      ConsistentParts();
      ghost var cut;
      answered, cut := TakeIn(frame, turn);
      PutOutNext(old(log), h, old(sent), sent, params.padding, cutShort, cut);
      cutShort := cutShort + cut;
      ConsistentParts();
      Settled();
    }

    lemma Settled()
      requires deferred == [] && Accounted() && framesSent == |sent| && AllPutOut(log, sent, params.padding, cutShort) && TurnsTaken() && Excused()
      ensures Valid()
    {
      hide Accounted, AllPutOut, TurnsTaken, Excused;
    }

    lemma OneTurnTaken(before: seq<Handling>, left: seq<Turn>, h: Handling)
      requires TurnsMatch(script, before, left) && h.turn == TurnAt(left, 0)
      requires log == before + [h] && turns == (if left == [] then [] else left[1..])
      ensures TurnsTaken()
    {
    }

    /**
     * One poll, then frame after frame until the queue is empty, later arrivals included. Afterwards the
     * frames ever handed over are exactly the arrivals not removed, in arrival order; `Valid` says which
     * were removed and what was sent.
     */
    method PumpOnce(rebuilt: Option<map<CanId, Endpoint>>) returns (answeredCount: nat)
      requires Valid()
      modifies this
      ensures Valid() && inbound == [] && AllHandled()
      ensures |bus| < |old(bus)| || bus == []
      ensures old(log) <= log && Follows(Configured(old(endpoints), rebuilt), log[|old(log)|..], endpoints)
      ensures answeredCount == AnsweredIn(log[|old(log)|..])
      ensures OnlyRemoves(old(fates), fates, |old(log)|, |log|)
    {
      hide OnlyRemoves, Accounted, AccountedBut, PaidOut, TurnsTaken, Outstanding, Brought, KeptOf, PutOut, IsAnswered, EndpointsAfter, Credit;
      if rebuilt.Some? { endpoints := rebuilt.value; }
      FillInbound();
      ArrivingRemovesNothing(old(fates), |fates| - |old(fates)|, |log|, |log|);
      answeredCount := 0;
      assert log[|old(log)|..] == [];
      while inbound != []
        invariant Valid() && (|bus| < |old(bus)| || bus == [])
        invariant old(log) <= log && Follows(Configured(old(endpoints), rebuilt), log[|old(log)|..], endpoints)
        invariant answeredCount == AnsweredIn(log[|old(log)|..])
        invariant OnlyRemoves(old(fates), fates, |old(log)|, |log|)
        decreases Outstanding()
      {
        ghost var earlier, logged := fates, log;
        var frame := PopInbound();
        var wasAnswered := HandleFrame(frame);
        OneMoreHandled(Configured(old(endpoints), rebuilt), old(log), logged, log[|log| - 1], endpoints);
        assert logged + [log[|log| - 1]] == log;
        if !wasAnswered { RemovesNothing(earlier, |logged|, |log|); }
        RemovesWithin(old(fates), earlier, |old(log)|, |logged|, |old(log)|, |log|);
        RemovesWithin(earlier, fates, |logged|, |log|, |old(log)|, |log|);
        RemovesTwice(old(fates), earlier, fates, |old(log)|, |log|);
        if wasAnswered { answeredCount := answeredCount + 1; }
      }
      AllHandedOver();
    }

    lemma AllHandedOver()
      requires Accounted() && deferred == [] && inbound == []
      ensures AllHandled()
    {
      hide ExactFate, LooksInTime, KeptPlaces, KeptOf;
      assert FramesOfLog(log) + [] + [] == FramesOfLog(log);
    }

    /**
     * Any number of pumps, each after a reconfiguration or none: every arrival is handed over in arrival
     * order except those `Valid` accounts for, and every frame handed over met the endpoints its
     * predecessors left, or those just configured.
     */
    method Run(rebuilds: seq<Option<map<CanId, Endpoint>>>)
      requires Valid()
      modifies this
      ensures Valid() && old(log) <= log
      ensures rebuilds != [] ==> inbound == [] && AllHandled()
      ensures |bus| + |rebuilds| <= |old(bus)| || bus == []
      ensures Pumped(old(endpoints), rebuilds, log[|old(log)|..], endpoints)
      ensures OnlyRemoves(old(fates), fates, |old(log)|, |log|)
    {
      hide OnlyRemoves, Valid, AllHandled, Follows, Configured, AnsweredIn, Pumped;
      RemovesNothing(fates, |log|, |log|);
      NoPumpYet(endpoints);
      assert log[|log|..] == [];
      for k := 0 to |rebuilds|
        invariant Valid() && old(log) <= log
        invariant k > 0 ==> inbound == [] && AllHandled()
        invariant |bus| + k <= |old(bus)| || bus == []
        invariant Pumped(old(endpoints), rebuilds[..k], log[|old(log)|..], endpoints)
        invariant OnlyRemoves(old(fates), fates, |old(log)|, |log|)
      {
        ghost var earlier, logged, between := fates, log, endpoints;
        var answeredCount := PumpOnce(rebuilds[k]);
        OneMorePump(old(endpoints), rebuilds, k, old(log), logged, log, between, endpoints);
        RemovesWithin(old(fates), earlier, |old(log)|, |logged|, |old(log)|, |log|);
        RemovesWithin(earlier, fates, |logged|, |log|, |old(log)|, |log|);
        RemovesTwice(old(fates), earlier, fates, |old(log)|, |log|);
      }
      assert rebuilds[..|rebuilds|] == rebuilds;
    }

    /** What became of any arrival once the queue is empty: handed over, or removed for a reason by a wait it fell into. */
    lemma EveryArrivalAccounted(i: nat)
      requires Valid() && inbound == [] && i < |arrived|
      ensures |fates| == |arrived| && |looks| == |log| == |KeptPlaces(fates)|
      ensures fates[i] == Kept ==> exists k :: 0 <= k < |log| && KeptPlaces(fates)[k] == i && log[k].frame == arrived[i]
      ensures fates[i] != Kept ==>
                var d := fates[i].during;
                && d < |log| && IsAnswered(log[d]) && Waits(log[d])
                && KeptPlaces(fates)[d] < i < looks[d]
                && (if fates[i].TakenAsFlowControl? then IsFlowControl(arrived[i]) && arrived[i].canId in log[d].endpoints
                    else arrived[i].canId == log[d].frame.canId && !IsFlowControl(arrived[i]))
      ensures fates[i] == Kept <==>
              forall d :: 0 <= d < |log| && KeptPlaces(fates)[d] < i < looks[d] ==> Elsewhere(log[d], arrived[i])
    {
      hide PaidOut, TurnsTaken, KeptPlaces, Waits;
      AllHandedOver();
      assert ExactFate(arrived, fates, log, looks, i);
      if fates[i] == Kept {
        var k := PlaceOf(fates, i);
        assert FramesOfLog(log)[k] == arrived[i];
        forall d | 0 <= d < |log| && KeptPlaces(fates)[d] < i < looks[d] ensures Elsewhere(log[d], arrived[i]) {
          assert LookedAt(fates, looks, d, i);
        }
      } else {
        assert LookInTime(arrived, log, looks, fates[i].during);
        RemovedIsNotElsewhere(log[fates[i].during], arrived[i], fates[i]);
      }
    }

    /**
     * An arrival that is part of some message, a single, first or consecutive frame, is lost only to an
     * ECU that was busy answering on its identifier; on any other identifier it is kept.
     */
    lemma MessageFramesAreKept(i: nat, pdu: Data, padding: Option<Byte>, j: nat)
      requires Valid() && inbound == [] && i < |arrived|
      requires IsSendable(pdu) && j < |Frames(pdu, padding)| && arrived[i].data == Frames(pdu, padding)[j]
      ensures |fates| == |arrived| && |looks| == |log| == |KeptPlaces(fates)|
      ensures fates[i] == Kept || fates[i].DroppedFor?
      ensures fates[i] == Kept <==>
              forall d :: 0 <= d < |log| && KeptPlaces(fates)[d] < i < looks[d] ==> arrived[i].canId != log[d].frame.canId
    {
      hide Valid, KeptPlaces, Frames, IsFlowControl, Waits, IsAnswered;
      EveryArrivalAccounted(i);
      MessagesAreNoFlowControl(pdu, padding, j, arrived[i]);
    }

    lemma CompleteSentAll(transmitter: IsoTpTransmitter, pdu: Data, emitted: seq<Data>)
      requires Transferring(transmitter, pdu, emitted)
      ensures transmitter.state == Complete ==> emitted == Frames(pdu, params.padding)
    {
    }
  }

  lemma RepliedOneMore(before: seq<CanFrame>, was: seq<CanFrame>, now: seq<CanFrame>, replies: seq<Reply>, k: nat,
                       out: seq<Data>, padding: Option<Byte>, cut: nat)
    requires k < |replies| && Replied(before, was, replies[..k], padding, cut)
    requires SentMeanwhile(was, now, replies[k].responseCanId, [], out) && IsStartOf(out, replies[k].bytes, padding)
    ensures was <= now
    ensures Replied(before, now, replies[..k + 1], padding, cut + (if IsWhole(out, replies[k].bytes, padding) then 0 else 1))
  {
    assert was <= now;
    hide SentMeanwhile, IsStartOf, IsWhole;
    assert replies[..k + 1][..k] == replies[..k];
  }

  lemma RemovedIsNotElsewhere(h: Handling, frame: CanFrame, fate: Fate)
    requires IsAnswered(h) && fate != Kept && RemovesAs(h, frame, fate)
    ensures !Elsewhere(h, frame) && (fate.DroppedFor? ==> !IsFlowControl(frame))
  {
  }

  lemma OneMoreHandled(start: map<CanId, Endpoint>, before: seq<Handling>, logged: seq<Handling>, h: Handling, end: map<CanId, Endpoint>)
    requires before <= logged && Follows(start, logged[|before|..], h.endpoints) && end == EndpointsAfter(h)
    ensures Follows(start, (logged + [h])[|before|..], end)
    ensures AnsweredIn((logged + [h])[|before|..]) == AnsweredIn(logged[|before|..]) + (if IsAnswered(h) then 1 else 0)
  {
    hide EndpointsAfter, IsAnswered;
    var since := logged[|before|..];
    assert (logged + [h])[|before|..] == since + [h] && (since + [h])[..|since|] == since;
  }

  lemma NoPumpYet(endpoints: map<CanId, Endpoint>)
    ensures Pumped(endpoints, [], [], endpoints)
  {
  }

  lemma OneMorePump(start: map<CanId, Endpoint>, rebuilds: seq<Option<map<CanId, Endpoint>>>, k: nat,
                    before: seq<Handling>, logged: seq<Handling>, log: seq<Handling>,
                    between: map<CanId, Endpoint>, end: map<CanId, Endpoint>)
    requires k < |rebuilds| && before <= logged <= log
    requires Pumped(start, rebuilds[..k], logged[|before|..], between)
    requires Follows(Configured(between, rebuilds[k]), log[|logged|..], end)
    ensures Pumped(start, rebuilds[..k + 1], log[|before|..], end)
  {
    hide Follows, Configured;
    var since, cut := log[|before|..], |logged| - |before|;
    assert since[..cut] == logged[|before|..] && since[cut..] == log[|logged|..];
    assert rebuilds[..k + 1][..k] == rebuilds[..k];
  }

  lemma NothingSent(sent: seq<CanFrame>, canId: CanId, emitted: seq<Data>)
    ensures SentMeanwhile(sent, sent, canId, emitted, emitted)
  {
  }

  lemma SentOneMore(before: seq<CanFrame>, now: seq<CanFrame>, canId: CanId, begun: seq<Data>, emitted: seq<Data>, payload: Data)
    requires SentMeanwhile(before, now, canId, begun, emitted)
    ensures SentMeanwhile(before, now + [NewClassic(0.0, canId, payload)], canId, begun, emitted + [payload])
  {
  }

  lemma SentOn(before: seq<CanFrame>, was: seq<CanFrame>, now: seq<CanFrame>, canId: CanId,
               begun: seq<Data>, out: seq<Data>, emitted: seq<Data>)
    requires SentMeanwhile(before, was, canId, begun, out) && SentMeanwhile(was, now, canId, out, emitted)
    ensures SentMeanwhile(before, now, canId, begun, emitted)
  {
    var a, b := was[|before|..], now[|was|..];
    var p, q := out[|begun|..], emitted[|out|..];
    SentJoin(a, b, canId, p, q);
    assert a + b == now[|before|..] && p + q == emitted[|begun|..];
  }

  /** The bits a frame of eight bytes is taken to cost the bus are those of a standard one at its worst; an extended one takes 131 to 160. */
  lemma BusFrameIsTheWorst(frame: CanFrame)
    requires !frame.isRemote && |frame.data| == 8
    ensures !frame.isExtended ==> frame.BitsOnWire() + frame.MaxStuffBits() == CAN_BITS_PER_FRAME == 135
    ensures frame.isExtended ==> frame.BitsOnWire() == 131 && frame.BitsOnWire() + frame.MaxStuffBits() == 160
  {
  }

  function PayloadsOf(frames: seq<CanFrame>): (payloads: seq<Data>)
    ensures |payloads| == |frames| && forall i :: 0 <= i < |frames| ==> payloads[i] == frames[i].data
  {
    seq(|frames|, i requires 0 <= i < |frames| => frames[i].data)
  }

  /** What a successful `TransmitPdu` put on the bus, any receiver with room turns back into that reply, once, with the last frame. */
  lemma AnswerIsReceived(before: seq<CanFrame>, now: seq<CanFrame>, canId: CanId, pdu: Data, padding: Option<Byte>, rx: Rx)
    requires IsSendable(pdu) && CanHold(rx, pdu)
    requires SentMeanwhile(before, now, canId, [], Frames(pdu, padding))
    ensures var frames := now[|before|..];
            var outcomes := HeardFrom(rx, PayloadsOf(frames), |frames|).outcomes;
            && |outcomes| == |frames| > 0
            && outcomes[|frames| - 1] == Completed(pdu)
            && (forall i :: 0 <= i < |frames| - 1 ==> !outcomes[i].Completed?)
            && (forall i :: 0 <= i < |frames| ==> frames[i].canId == canId)
  {
    hide HeardFrom, FrameAt, FrameCount, InOrder, Frames;
    var all := Frames(pdu, padding);
    assert PayloadsOf(now[|before|..]) == all[0..] == all;
    OneFrameOrNone(pdu);
    HearsTheFrames(rx, pdu, padding, FrameCount(pdu));
  }

  lemma SentJoin(a: seq<CanFrame>, b: seq<CanFrame>, canId: CanId, p: seq<Data>, q: seq<Data>)
    requires AreSentAs(a, canId, p) && AreSentAs(b, canId, q)
    ensures AreSentAs(a + b, canId, p + q)
  {
  }
}
