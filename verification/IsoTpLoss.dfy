/**
 * Losing frames with a receiver in any state: exactly what it delivers, also when an earlier loss left
 * it waiting for the rest of another message.
 */
module IsoTpLoss {
  import opened Basics
  import opened Pacing
  import opened IsoTp
  import opened IsoTpTheorems

  /** The PDUs among a receiver's answers, in order. */
  ghost function Delivered(outcomes: seq<ReceiveOutcome>): seq<Data> {
    if outcomes == [] then []
    else
      var last := outcomes[|outcomes| - 1];
      Delivered(outcomes[..|outcomes| - 1]) + (if last.Completed? then [last.pdu] else [])
  }

  /** The consecutive frames among the first `n` frames that arrive, by number. */
  ghost function Survivors(arrives: seq<bool>, n: nat): (numbers: seq<nat>)
    requires n <= |arrives|
    ensures forall k :: 0 <= k < |numbers| ==> 0 < numbers[k] < n
  {
    if n <= 1 then []
    else Survivors(arrives, n - 1) + (if arrives[n - 1] then [n - 1] else [])
  }

  /** The payload of these frames, padding included. */
  ghost function PayloadOf(pdu: Data, padding: Option<Byte>, numbers: seq<nat>): Data
    requires IsSendable(pdu) && forall k :: 0 <= k < |numbers| ==> 0 < numbers[k] < FrameCount(pdu)
  {
    if numbers == [] then []
    else PayloadOf(pdu, padding, numbers[..|numbers| - 1]) + Payload(pdu, padding, numbers[|numbers| - 1])
  }

  ghost function Payload(pdu: Data, padding: Option<Byte>, n: nat): Data
    requires IsSendable(pdu) && 0 < n < FrameCount(pdu)
  {
    FrameStarts(pdu, padding, n);
    FrameAt(pdu, padding, n)[1..]
  }

  lemma FrameStarts(pdu: Data, padding: Option<Byte>, n: nat)
    requires IsSendable(pdu) && 0 < n < FrameCount(pdu)
    ensures var frame := FrameAt(pdu, padding, n);
            MAX_SINGLE_FRAME < |pdu| && |frame| >= 1 && frame[0] == 0x20 + n % 16
  {
    ManyFramesMeanLong(pdu, n);
    FrameTakenApart(pdu, padding, n);
  }

  /** The sequence number frame `n` of a message carries, and the one after a given one. */
  function Number(n: nat): Byte {
    n % 16
  }

  function Following(number: Byte): Byte {
    (number + 1) % 16
  }

  /** The sequence number a message in progress expects after `k` more frames. */
  function Expected(p: Pending, k: nat): Byte {
    if k == 0 then p.nextSequence else (p.nextSequence + k) % 16
  }

  /** The first `m` of these frames go on exactly where the message in progress stopped. */
  ghost predicate GoesOn(p: Pending, numbers: seq<nat>, m: nat) {
    m <= |numbers| && forall k :: 0 <= k < m ==> Number(numbers[k]) == Expected(p, k)
  }

  /** They go on until, with the last of them, nothing remains. */
  ghost predicate UsesUp(pdu: Data, padding: Option<Byte>, p: Pending, numbers: seq<nat>, m: nat)
    requires IsSendable(pdu) && forall k :: 0 <= k < |numbers| ==> 0 < numbers[k] < FrameCount(pdu)
  {
    && 0 < m <= |numbers| && GoesOn(p, numbers, m)
    && p.remaining <= |PayloadOf(pdu, padding, numbers[..m])|
    && (m > 1 ==> |PayloadOf(pdu, padding, numbers[..m - 1])| < p.remaining)
  }

  /** What the receiver then believes it was sent. */
  ghost function Mixed(pdu: Data, padding: Option<Byte>, p: Pending, numbers: seq<nat>, m: nat): Data
    requires IsSendable(pdu) && (forall k :: 0 <= k < |numbers| ==> 0 < numbers[k] < FrameCount(pdu)) && UsesUp(pdu, padding, p, numbers, m)
  {
    p.buffer + PayloadOf(pdu, padding, numbers[..m])[..p.remaining]
  }

  // ---------------------------------------------------------------- one frame into another message

  /** A message in progress after the first `k` of these frames went into it. */
  ghost predicate IsInto(pending: Option<Pending>, pdu: Data, padding: Option<Byte>, p: Pending, numbers: seq<nat>)
    requires IsSendable(pdu) && forall k :: 0 <= k < |numbers| ==> 0 < numbers[k] < FrameCount(pdu)
  {
    var payload := PayloadOf(pdu, padding, numbers);
    && pending.Some? && |payload| <= p.remaining
    && pending.value.buffer == p.buffer + payload && pending.value.remaining == p.remaining - |payload|
    && pending.value.nextSequence == Expected(p, |numbers|)
  }

  /** What a consecutive frame does to a message in progress. */
  lemma ConsecutiveInto(rx: Rx, data: Data)
    requires rx.pending.Some? && data != [] && data[0] / 16 == 2
    ensures var p := rx.pending.value;
            var (next, outcome) := Received(rx, data);
            var payload := data[1..];
            && next.params == rx.params && next.isFunctional == rx.isFunctional && next.maxPduLength == rx.maxPduLength
            && (data[0] % 16 != p.nextSequence ==> next.pending.None? && outcome.Abandoned?)
            && (data[0] % 16 == p.nextSequence && p.remaining <= |payload| ==>
                  next.pending.None? && outcome == Completed(p.buffer + payload[..p.remaining]))
            && (data[0] % 16 == p.nextSequence && |payload| < p.remaining ==>
                  && !outcome.Completed? && next.pending.Some?
                  && next.pending.value.buffer == p.buffer + payload && next.pending.value.remaining == p.remaining - |payload|
                  && next.pending.value.nextSequence == (p.nextSequence + 1) % 16)
  {
    var p := rx.pending.value;
    var payload := data[1..];
    var taken := Min(|payload|, p.remaining);
    assert data[1..1 + taken] == payload[..taken];
    hide FlowControlFrame;
  }

  lemma IdleStaysIdle(rx: Rx, data: Data)
    requires rx.pending.None? && data != [] && data[0] / 16 == 2
    ensures Received(rx, data) == (rx, Nothing)
  {
  }

  // ---------------------------------------------------------------- the head is lost

  /** Not far enough yet: all of these frames went on, and something still remains. */
  ghost predicate StillGoing(h: Hearing, pdu: Data, padding: Option<Byte>, p: Pending, numbers: seq<nat>)
    requires IsSendable(pdu) && forall k :: 0 <= k < |numbers| ==> 0 < numbers[k] < FrameCount(pdu)
  {
    && GoesOn(p, numbers, |numbers|) && IsInto(h.rx.pending, pdu, padding, p, numbers) && Delivered(h.outcomes) == []
    && (numbers != [] ==> |PayloadOf(pdu, padding, numbers)| < p.remaining)
  }

  /** Over, with what the first so many of these frames made of the message in progress. */
  ghost predicate Finished(h: Hearing, pdu: Data, padding: Option<Byte>, p: Pending, numbers: seq<nat>, m: nat)
    requires IsSendable(pdu) && forall k :: 0 <= k < |numbers| ==> 0 < numbers[k] < FrameCount(pdu)
  {
    h.rx.pending.None? && UsesUp(pdu, padding, p, numbers, m) && Delivered(h.outcomes) == [Mixed(pdu, padding, p, numbers, m)]
  }

  /** Over, with nothing delivered: some frame was not the one expected. */
  ghost predicate BrokenOff(h: Hearing, p: Pending, numbers: seq<nat>) {
    h.rx.pending.None? && !GoesOn(p, numbers, |numbers|) && Delivered(h.outcomes) == []
  }

  ghost predicate UsedUp(pdu: Data, padding: Option<Byte>, p: Pending, numbers: seq<nat>)
    requires IsSendable(pdu) && forall k :: 0 <= k < |numbers| ==> 0 < numbers[k] < FrameCount(pdu)
  {
    exists m :: UsesUp(pdu, padding, p, numbers, m)
  }

  /** Where a receiver stands that missed the first frame and has been given these survivors. */
  ghost predicate Joined(h: Hearing, pdu: Data, padding: Option<Byte>, p: Pending, numbers: seq<nat>)
    requires IsSendable(pdu) && forall k :: 0 <= k < |numbers| ==> 0 < numbers[k] < FrameCount(pdu)
  {
    || (exists m :: Finished(h, pdu, padding, p, numbers, m))
    || (!UsedUp(pdu, padding, p, numbers) && (StillGoing(h, pdu, padding, p, numbers) || BrokenOff(h, p, numbers)))
  }

  ghost function Heard(h: Hearing, data: Data): Hearing {
    var (next, outcome) := Received(h.rx, data);
    Hearing(next, h.outcomes + [outcome])
  }

  lemma DeliveredNext(outcomes: seq<ReceiveOutcome>, outcome: ReceiveOutcome)
    ensures Delivered(outcomes + [outcome]) == Delivered(outcomes) + (if outcome.Completed? then [outcome.pdu] else [])
  {
    assert (outcomes + [outcome])[..|outcomes|] == outcomes;
  }

  lemma PayloadNext(pdu: Data, padding: Option<Byte>, numbers: seq<nat>, n: nat)
    requires IsSendable(pdu) && (forall k :: 0 <= k < |numbers| ==> 0 < numbers[k] < FrameCount(pdu)) && 0 < n < FrameCount(pdu)
    ensures PayloadOf(pdu, padding, numbers + [n]) == PayloadOf(pdu, padding, numbers) + Payload(pdu, padding, n)
  {
    hide Payload, FrameCount;
    assert (numbers + [n])[..|numbers|] == numbers;
  }

  /** One more survivor neither finishes earlier nor un-finishes. */
  lemma UseNext(pdu: Data, padding: Option<Byte>, p: Pending, numbers: seq<nat>, n: nat, m: nat)
    requires IsSendable(pdu) && (forall k :: 0 <= k < |numbers| ==> 0 < numbers[k] < FrameCount(pdu)) && 0 < n < FrameCount(pdu)
    requires m <= |numbers|
    ensures UsesUp(pdu, padding, p, numbers + [n], m) <==> UsesUp(pdu, padding, p, numbers, m)
    ensures UsesUp(pdu, padding, p, numbers, m) ==> Mixed(pdu, padding, p, numbers + [n], m) == Mixed(pdu, padding, p, numbers, m)
  {
    hide PayloadOf, FrameCount;
    assert (numbers + [n])[..m] == numbers[..m];
    if m > 0 { assert (numbers + [n])[..m - 1] == numbers[..m - 1]; }
  }

  lemma JoinNext(h: Hearing, pdu: Data, padding: Option<Byte>, p: Pending, numbers: seq<nat>, n: nat)
    requires IsSendable(pdu) && (forall k :: 0 <= k < |numbers| ==> 0 < numbers[k] < FrameCount(pdu)) && 0 < n < FrameCount(pdu)
    requires Joined(h, pdu, padding, p, numbers)
    ensures Joined(Heard(h, FrameAt(pdu, padding, n)), pdu, padding, p, numbers + [n])
  {
    hide Received, FrameAt, FrameCount, Finished, StillGoing, BrokenOff, UsedUp;
    FrameStarts(pdu, padding, n);
    if m :| Finished(h, pdu, padding, p, numbers, m) {
      FinishedNext(h, pdu, padding, p, numbers, n, m);
    } else if BrokenOff(h, p, numbers) {
      BrokenNext(h, pdu, padding, p, numbers, n);
    } else {
      GoingNext(h, pdu, padding, p, numbers, n);
    }
  }

  lemma FinishedNext(h: Hearing, pdu: Data, padding: Option<Byte>, p: Pending, numbers: seq<nat>, n: nat, m: nat)
    requires IsSendable(pdu) && (forall k :: 0 <= k < |numbers| ==> 0 < numbers[k] < FrameCount(pdu)) && 0 < n < FrameCount(pdu)
    requires Finished(h, pdu, padding, p, numbers, m)
    ensures Finished(Heard(h, FrameAt(pdu, padding, n)), pdu, padding, p, numbers + [n], m)
  {
    hide FrameAt, FrameCount, UsesUp, Mixed, Received;
    assert m <= |numbers| by { UsesSome(pdu, padding, p, numbers, m); }
    FrameStarts(pdu, padding, n);
    IdleStaysIdle(h.rx, FrameAt(pdu, padding, n));
    DeliveredNext(h.outcomes, Nothing);
    UseNext(pdu, padding, p, numbers, n, m);
  }

  lemma UsesSome(pdu: Data, padding: Option<Byte>, p: Pending, numbers: seq<nat>, m: nat)
    requires IsSendable(pdu) && (forall k :: 0 <= k < |numbers| ==> 0 < numbers[k] < FrameCount(pdu)) && UsesUp(pdu, padding, p, numbers, m)
    ensures 0 < m <= |numbers| && GoesOn(p, numbers, m)
  {
    hide PayloadOf, FrameCount;
  }

  /** With another survivor nothing is used up, unless it is by that one. */
  lemma StillNotUsedUp(pdu: Data, padding: Option<Byte>, p: Pending, numbers: seq<nat>, n: nat)
    requires IsSendable(pdu) && (forall k :: 0 <= k < |numbers| ==> 0 < numbers[k] < FrameCount(pdu)) && 0 < n < FrameCount(pdu)
    requires !UsedUp(pdu, padding, p, numbers) && !UsesUp(pdu, padding, p, numbers + [n], |numbers| + 1)
    ensures !UsedUp(pdu, padding, p, numbers + [n])
  {
    hide UsesUp, FrameCount;
    forall m: nat ensures !UsesUp(pdu, padding, p, numbers + [n], m) {
      if UsesUp(pdu, padding, p, numbers + [n], m) {
        UsesSome(pdu, padding, p, numbers + [n], m);
        if m <= |numbers| { UseNext(pdu, padding, p, numbers, n, m); }
      }
    }
  }

  lemma BrokenNext(h: Hearing, pdu: Data, padding: Option<Byte>, p: Pending, numbers: seq<nat>, n: nat)
    requires IsSendable(pdu) && (forall k :: 0 <= k < |numbers| ==> 0 < numbers[k] < FrameCount(pdu)) && 0 < n < FrameCount(pdu)
    requires BrokenOff(h, p, numbers) && !UsedUp(pdu, padding, p, numbers)
    ensures var next := Heard(h, FrameAt(pdu, padding, n));
            BrokenOff(next, p, numbers + [n]) && !UsedUp(pdu, padding, p, numbers + [n])
  {
    hide FrameAt, FrameCount, UsesUp, UsedUp, Received, Expected;
    FrameStarts(pdu, padding, n);
    IdleStaysIdle(h.rx, FrameAt(pdu, padding, n));
    DeliveredNext(h.outcomes, Nothing);
    var more := numbers + [n];
    assert !GoesOn(p, more, |more|) by {
      var k :| 0 <= k < |numbers| && Number(numbers[k]) != Expected(p, k);
      assert more[k] == numbers[k];
    }
    if UsesUp(pdu, padding, p, more, |more|) { UsesSome(pdu, padding, p, more, |more|); }
    StillNotUsedUp(pdu, padding, p, numbers, n);
  }

  lemma GoingOnNext(p: Pending, numbers: seq<nat>, n: nat)
    requires GoesOn(p, numbers, |numbers|)
    ensures GoesOn(p, numbers + [n], |numbers| + 1) <==> Number(n) == Expected(p, |numbers|)
  {
    hide Expected;
    var more := numbers + [n];
    assert more[|numbers|] == n && forall k :: 0 <= k < |numbers| ==> more[k] == numbers[k];
  }

  lemma ExpectedNext(p: Pending, k: nat)
    ensures Following(Expected(p, k)) == Expected(p, k + 1)
  {
  }

  lemma GoingNext(h: Hearing, pdu: Data, padding: Option<Byte>, p: Pending, numbers: seq<nat>, n: nat)
    requires IsSendable(pdu) && (forall k :: 0 <= k < |numbers| ==> 0 < numbers[k] < FrameCount(pdu)) && 0 < n < FrameCount(pdu)
    requires StillGoing(h, pdu, padding, p, numbers) && !UsedUp(pdu, padding, p, numbers)
    ensures Joined(Heard(h, FrameAt(pdu, padding, n)), pdu, padding, p, numbers + [n])
  {
    var more := numbers + [n];
    var all := PayloadOf(pdu, padding, more);
    PayloadNext(pdu, padding, numbers, n);
    GoingOnNext(p, numbers, n);
    LastOfMore(numbers, n);
    hide FrameCount, Received, Expected, PayloadOf, UsedUp, GoesOn, FrameAt, StillGoing, Finished, BrokenOff, Payload, Number;
    if Number(n) == Expected(p, |numbers|) && p.remaining <= |all| {
      GoesOnToTheEnd(h, pdu, padding, p, numbers, n);
    } else {
      StillNotUsedUp(pdu, padding, p, numbers, n);
      if Number(n) == Expected(p, |numbers|) {
        GoesOnFurther(h, pdu, padding, p, numbers, n);
      } else {
        BreaksOff(h, pdu, padding, p, numbers, n);
      }
    }
  }

  lemma RestTaken(buffer: Data, before: Data, payload: Data, n: nat)
    requires |before| <= n <= |before + payload|
    ensures buffer + (before + payload)[..n] == (buffer + before) + payload[..n - |before|]
    ensures buffer + (before + payload) == (buffer + before) + payload
  {
  }

  lemma LastOfMore(numbers: seq<nat>, n: nat)
    ensures (numbers + [n])[..|numbers| + 1] == numbers + [n] && (numbers + [n])[..|numbers|] == numbers
  {
  }

  /** The next survivor as the receiver sees it. */
  lemma NextSurvivor(h: Hearing, pdu: Data, padding: Option<Byte>, n: nat)
    requires IsSendable(pdu) && 0 < n < FrameCount(pdu) && h.rx.pending.Some?
    ensures var p, payload := h.rx.pending.value, Payload(pdu, padding, n);
            var next := Heard(h, FrameAt(pdu, padding, n));
            && (Number(n) != p.nextSequence ==> next.rx.pending.None? && Delivered(next.outcomes) == Delivered(h.outcomes))
            && (Number(n) == p.nextSequence && p.remaining <= |payload| ==>
                  next.rx.pending.None? && Delivered(next.outcomes) == Delivered(h.outcomes) + [p.buffer + payload[..p.remaining]])
            && (Number(n) == p.nextSequence && |payload| < p.remaining ==>
                  && Delivered(next.outcomes) == Delivered(h.outcomes) && next.rx.pending.Some?
                  && next.rx.pending.value.buffer == p.buffer + payload && next.rx.pending.value.remaining == p.remaining - |payload|
                  && next.rx.pending.value.nextSequence == Following(p.nextSequence))
  {
    hide FrameAt, FrameCount, Received, Delivered;
    var frame := FrameAt(pdu, padding, n);
    FrameStarts(pdu, padding, n);
    ConsecutiveInto(h.rx, frame);
    DeliveredNext(h.outcomes, Received(h.rx, frame).1);
  }

  lemma BreaksOff(h: Hearing, pdu: Data, padding: Option<Byte>, p: Pending, numbers: seq<nat>, n: nat)
    requires IsSendable(pdu) && (forall k :: 0 <= k < |numbers| ==> 0 < numbers[k] < FrameCount(pdu)) && 0 < n < FrameCount(pdu)
    requires StillGoing(h, pdu, padding, p, numbers) && Number(n) != Expected(p, |numbers|)
    ensures BrokenOff(Heard(h, FrameAt(pdu, padding, n)), p, numbers + [n])
  {
    GoingOnNext(p, numbers, n);
    hide FrameAt, FrameCount, Received, Delivered, Expected, PayloadOf, Payload, GoesOn, Heard, Number, Following;
    NextSurvivor(h, pdu, padding, n);
  }

  lemma GoesOnFurther(h: Hearing, pdu: Data, padding: Option<Byte>, p: Pending, numbers: seq<nat>, n: nat)
    requires IsSendable(pdu) && (forall k :: 0 <= k < |numbers| ==> 0 < numbers[k] < FrameCount(pdu)) && 0 < n < FrameCount(pdu)
    requires StillGoing(h, pdu, padding, p, numbers) && Number(n) == Expected(p, |numbers|)
    requires |PayloadOf(pdu, padding, numbers + [n])| < p.remaining
    ensures StillGoing(Heard(h, FrameAt(pdu, padding, n)), pdu, padding, p, numbers + [n])
  {
    PayloadNext(pdu, padding, numbers, n);
    GoingOnNext(p, numbers, n);
    ExpectedNext(p, |numbers|);
    hide FrameAt, FrameCount, Received, Delivered, Expected, PayloadOf, Payload, GoesOn, Heard, Number, Following;
    NextSurvivor(h, pdu, padding, n);
    var before, payload := PayloadOf(pdu, padding, numbers), Payload(pdu, padding, n);
    RestTaken(p.buffer, before, payload, |before + payload|);
  }

  lemma GoesOnToTheEnd(h: Hearing, pdu: Data, padding: Option<Byte>, p: Pending, numbers: seq<nat>, n: nat)
    requires IsSendable(pdu) && (forall k :: 0 <= k < |numbers| ==> 0 < numbers[k] < FrameCount(pdu)) && 0 < n < FrameCount(pdu)
    requires StillGoing(h, pdu, padding, p, numbers) && Number(n) == Expected(p, |numbers|)
    requires p.remaining <= |PayloadOf(pdu, padding, numbers + [n])|
    ensures Finished(Heard(h, FrameAt(pdu, padding, n)), pdu, padding, p, numbers + [n], |numbers| + 1)
  {
    PayloadNext(pdu, padding, numbers, n);
    GoingOnNext(p, numbers, n);
    LastOfMore(numbers, n);
    hide FrameAt, FrameCount, Received, Delivered, Expected, PayloadOf, Payload, GoesOn, Heard, Number, Following;
    NextSurvivor(h, pdu, padding, n);
    var before, payload := PayloadOf(pdu, padding, numbers), Payload(pdu, padding, n);
    RestTaken(p.buffer, before, payload, p.remaining);
  }

  /** After the first `n` frames, the first one lost. */
  lemma {:induction false} JoinedAfter(rx: Rx, pdu: Data, padding: Option<Byte>, arrives: seq<bool>, n: nat)
    requires IsSendable(pdu) && rx.pending.Some? && 0 < n <= |arrives| == FrameCount(pdu) && !arrives[0]
    ensures Joined(HeardWithLoss(rx, pdu, padding, arrives, n), pdu, padding, rx.pending.value, Survivors(arrives, n))
    decreases n
  {
    hide Received, FrameAt, FrameCount, Finished, BrokenOff, UsedUp, StillGoing, Joined;
    if n == 1 {
      NothingJoinedYet(rx, pdu, padding);
      assert HeardWithLoss(rx, pdu, padding, arrives, 0) == Hearing(rx, []);
    } else {
      JoinedAfter(rx, pdu, padding, arrives, n - 1);
      assert Survivors(arrives, n - 1) + [] == Survivors(arrives, n - 1);
      if arrives[n - 1] {
        JoinNext(HeardWithLoss(rx, pdu, padding, arrives, n - 1), pdu, padding, rx.pending.value, Survivors(arrives, n - 1), n - 1);
      }
    }
  }

  lemma NothingJoinedYet(rx: Rx, pdu: Data, padding: Option<Byte>)
    requires IsSendable(pdu) && rx.pending.Some?
    ensures Joined(Hearing(rx, []), pdu, padding, rx.pending.value, [])
  {
    var p := rx.pending.value;
    assert PayloadOf(pdu, padding, []) == [];
    assert StillGoing(Hearing(rx, []), pdu, padding, p, []);
    assert !UsedUp(pdu, padding, p, []);
  }

  // ---------------------------------------------------------------- any receiver, any losses

  /** The head of this message is lost, and the rest of it is taken for the rest of the one in progress. */
  ghost predicate TailsAnother(rx: Rx, pdu: Data, padding: Option<Byte>, arrives: seq<bool>)
    requires IsSendable(pdu) && |arrives| == FrameCount(pdu)
  {
    OneFrameOrNone(pdu);
    rx.pending.Some? && !arrives[0] && UsedUp(pdu, padding, rx.pending.value, Survivors(arrives, |arrives|))
  }

  lemma {:induction false} NoneCompleted(outcomes: seq<ReceiveOutcome>)
    requires NothingCompleted(outcomes)
    ensures Delivered(outcomes) == []
  {
    if outcomes != [] { NoneCompleted(outcomes[..|outcomes| - 1]); }
  }

  lemma {:induction false} LastCompleted(outcomes: seq<ReceiveOutcome>, pdu: Data)
    requires |outcomes| > 0 && outcomes[|outcomes| - 1] == Completed(pdu) && NothingCompleted(outcomes[..|outcomes| - 1])
    ensures Delivered(outcomes) == [pdu]
  {
    NoneCompleted(outcomes[..|outcomes| - 1]);
  }

  /**
   * What any receiver with room delivers from a transfer with any frames lost: the PDU if all arrive;
   * else nothing, unless the head is lost while another message is in progress and the survivors carry
   * on its sequence numbers until nothing of it remains: then one message made of both.
   */
  lemma LossDeliversExactly(rx: Rx, pdu: Data, padding: Option<Byte>, arrives: seq<bool>)
    requires IsSendable(pdu) && CanHold(rx, pdu) && |arrives| == FrameCount(pdu)
    ensures var delivered := Delivered(HeardWithLoss(rx, pdu, padding, arrives, |arrives|).outcomes);
            && (AllArrive(arrives, |arrives|) ==> delivered == [pdu])
            && (!AllArrive(arrives, |arrives|) ==> (delivered != [] <==> TailsAnother(rx, pdu, padding, arrives)))
            && (TailsAnother(rx, pdu, padding, arrives) ==>
                  var p, numbers := rx.pending.value, Survivors(arrives, |arrives|);
                  exists m :: UsesUp(pdu, padding, p, numbers, m) && delivered == [Mixed(pdu, padding, p, numbers, m)])
  {
    hide HeardWithLoss, Received, FrameAt, FrameCount, UsesUp, Mixed, UsedUp, StillGoing;
    var count := FrameCount(pdu);
    OneFrameOrNone(pdu);
    var h := HeardWithLoss(rx, pdu, padding, arrives, count);
    if AllArrive(arrives, count) {
      AllIsDelivered(rx, pdu, padding, arrives);
    } else if rx.pending.None? || arrives[0] {
      LossDeliversNothing(rx, pdu, padding, arrives);
    } else {
      JoinedAfter(rx, pdu, padding, arrives, count);
      hide Survivors;
      JoinedDelivers(h, pdu, padding, rx.pending.value, Survivors(arrives, count));
    }
  }

  lemma JoinedDelivers(h: Hearing, pdu: Data, padding: Option<Byte>, p: Pending, numbers: seq<nat>)
    requires IsSendable(pdu) && forall k :: 0 <= k < |numbers| ==> 0 < numbers[k] < FrameCount(pdu)
    requires Joined(h, pdu, padding, p, numbers)
    ensures UsedUp(pdu, padding, p, numbers) <==> Delivered(h.outcomes) != []
    ensures UsedUp(pdu, padding, p, numbers) ==>
              exists m :: UsesUp(pdu, padding, p, numbers, m) && Delivered(h.outcomes) == [Mixed(pdu, padding, p, numbers, m)]
  {
    hide UsesUp, Mixed, FrameCount, IsInto, GoesOn, Delivered;
  }

  lemma AllIsDelivered(rx: Rx, pdu: Data, padding: Option<Byte>, arrives: seq<bool>)
    requires IsSendable(pdu) && CanHold(rx, pdu) && |arrives| == FrameCount(pdu) && AllArrive(arrives, |arrives|)
    ensures Delivered(HeardWithLoss(rx, pdu, padding, arrives, |arrives|).outcomes) == [pdu]
  {
    hide HeardWithLoss, HeardFrom, Received, FrameAt, FrameCount, Frames, InOrder;
    var count := FrameCount(pdu);
    OneFrameOrNone(pdu);
    HearsAllSoFar(rx, pdu, padding, arrives, count);
    HearsTheFrames(rx, pdu, padding, count);
    LastCompleted(HeardFrom(rx, Frames(pdu, padding), count).outcomes, pdu);
  }

  lemma LossDeliversNothing(rx: Rx, pdu: Data, padding: Option<Byte>, arrives: seq<bool>)
    requires IsSendable(pdu) && CanHold(rx, pdu) && |arrives| == FrameCount(pdu) && !AllArrive(arrives, |arrives|)
    requires |arrives| > 0 && (rx.pending.None? || arrives[0])
    ensures Delivered(HeardWithLoss(rx, pdu, padding, arrives, |arrives|).outcomes) == []
  {
    hide Received, FrameAt, FrameCount, FellBehind;
    var count := FrameCount(pdu);
    OneFrameOrNone(pdu);
    if |pdu| > MAX_SINGLE_FRAME {
      LossesFallBehind(rx, pdu, padding, arrives, count);
      NoneCompleted(HeardWithLoss(rx, pdu, padding, arrives, count).outcomes);
    } else {
      assert !arrives[0];
      assert HeardWithLoss(rx, pdu, padding, arrives, 0) == Hearing(rx, []);
    }
  }

  /** So the message delivered is another one exactly when the head is lost, the survivors go on to the end, and the two together differ from it. */
  lemma DeliversAnotherExactly(rx: Rx, pdu: Data, padding: Option<Byte>, arrives: seq<bool>)
    requires IsSendable(pdu) && CanHold(rx, pdu) && |arrives| == FrameCount(pdu)
    ensures var delivered := Delivered(HeardWithLoss(rx, pdu, padding, arrives, |arrives|).outcomes);
            (exists d :: d in delivered && d != pdu) <==>
            TailsAnother(rx, pdu, padding, arrives)
            && exists m :: UsesUp(pdu, padding, rx.pending.value, Survivors(arrives, |arrives|), m)
                           && Mixed(pdu, padding, rx.pending.value, Survivors(arrives, |arrives|), m) != pdu
  {
    hide HeardWithLoss, Delivered, FrameCount, UsesUp, Mixed, Survivors, UsedUp;
    LossDeliversExactly(rx, pdu, padding, arrives);
    var delivered := Delivered(HeardWithLoss(rx, pdu, padding, arrives, |arrives|).outcomes);
    if TailsAnother(rx, pdu, padding, arrives) {
      var p, numbers := rx.pending.value, Survivors(arrives, |arrives|);
      var m: nat :| UsesUp(pdu, padding, p, numbers, m) && delivered == [Mixed(pdu, padding, p, numbers, m)];
      assert delivered[0] in delivered && forall d :: d in delivered ==> d == Mixed(pdu, padding, p, numbers, m);
      forall n: nat | UsesUp(pdu, padding, p, numbers, n) ensures n == m { OnlyOneWay(pdu, padding, p, numbers, n, m); }
    } else {
      assert delivered == [] || delivered == [pdu];
      assert forall d :: d in delivered ==> d == pdu;
    }
  }

  lemma {:induction false} PayloadGrows(pdu: Data, padding: Option<Byte>, numbers: seq<nat>, a: nat, b: nat)
    requires IsSendable(pdu) && forall k :: 0 <= k < |numbers| ==> 0 < numbers[k] < FrameCount(pdu)
    requires a <= b <= |numbers|
    ensures |PayloadOf(pdu, padding, numbers[..a])| <= |PayloadOf(pdu, padding, numbers[..b])|
    decreases b
  {
    hide FrameCount, Payload;
    if a < b {
      PayloadGrows(pdu, padding, numbers, a, b - 1);
      assert numbers[..b][..b - 1] == numbers[..b - 1];
    }
  }

  /** There is only one point at which nothing remains. */
  lemma OnlyOneWay(pdu: Data, padding: Option<Byte>, p: Pending, numbers: seq<nat>, m: nat, n: nat)
    requires IsSendable(pdu) && forall k :: 0 <= k < |numbers| ==> 0 < numbers[k] < FrameCount(pdu)
    requires UsesUp(pdu, padding, p, numbers, m) && UsesUp(pdu, padding, p, numbers, n)
    ensures m == n
  {
    hide PayloadOf, GoesOn, FrameCount;
    if m < n {
      PayloadGrows(pdu, padding, numbers, m, n - 1);
    } else if n < m {
      PayloadGrows(pdu, padding, numbers, n, m - 1);
    }
  }

  /**
   * Any two messages of thirteen bytes: the one loses its last frame, the next one its first, and what
   * is delivered is the head of the one with the tail of the other, which nobody sent unless they agree.
   */
  lemma HeadAndTailMix(params: IsoTpParameters, a: Data, b: Data)
    requires |a| == |b| == 13
    ensures FrameCount(a) == FrameCount(b) == 2
    ensures var left := HeardWithLoss(NewPhysical(params), a, None, [true, false], 2);
            var later := HeardWithLoss(left.rx, b, None, [false, true], 2);
            && Delivered(left.outcomes) == []
            && Delivered(later.outcomes) == [a[..6] + b[6..]]
            && (a[..6] != b[..6] && a[6..] != b[6..] ==> a[..6] + b[6..] != a && a[..6] + b[6..] != b)
  {
    hide Received, HeardWithLoss, FrameAt, Delivered;
    var rx, lost: seq<bool>, kept: seq<bool> := NewPhysical(params), [true, false], [false, true];
    OnlyHeadArrives(rx, a, lost);
    FirstFrameIsHeard(rx, a);
    OnlyTailArrives(HeardWithLoss(rx, a, None, lost, 2).rx, b, kept);
    TailFrame(b);
    FinishesWith(HeardWithLoss(rx, a, None, lost, 2).rx, FrameAt(b, None, 1), a[..6], b[6..]);
    assert (a[..6] + b[6..])[..6] == a[..6] && (a[..6] + b[6..])[6..] == b[6..];
  }

  lemma OnlyHeadArrives(rx: Rx, a: Data, arrives: seq<bool>)
    requires |a| == 13 && arrives == [true, false]
    ensures HeardWithLoss(rx, a, None, arrives, 2) == Heard(Hearing(rx, []), FirstFrame(a))
    ensures Delivered(Heard(Hearing(rx, []), FirstFrame(a)).outcomes) ==
            var outcome := Received(rx, FirstFrame(a)).1; if outcome.Completed? then [outcome.pdu] else []
  {
    hide Received;
    assert HeardWithLoss(rx, a, None, arrives, 0) == Hearing(rx, []);
    DeliveredNext([], Received(rx, FirstFrame(a)).1);
  }

  lemma OnlyTailArrives(rx: Rx, b: Data, arrives: seq<bool>)
    requires |b| == 13 && arrives == [false, true]
    ensures HeardWithLoss(rx, b, None, arrives, 2) == Heard(Hearing(rx, []), FrameAt(b, None, 1))
  {
    hide Received, FrameAt;
    assert HeardWithLoss(rx, b, None, arrives, 0) == Hearing(rx, []);
  }

  lemma TailFrame(b: Data)
    requires |b| == 13
    ensures FrameCount(b) == 2 && FrameAt(b, None, 1) == [0x21] + b[6..]
  {
    assert b[6..6 + 7] == b[6..];
  }

  lemma FinishesWith(rx: Rx, frame: Data, head: Data, tail: Data)
    requires rx.pending.Some? && rx.pending.value.buffer == head && rx.pending.value.remaining == |tail|
    requires |frame| > 0 && frame[0] == 0x20 + rx.pending.value.nextSequence && rx.pending.value.nextSequence < 16 && frame[1..] == tail
    ensures Delivered(Heard(Hearing(rx, []), frame).outcomes) == [head + tail]
  {
    hide Received, Delivered;
    ConsecutiveInto(rx, frame);
    DeliveredNext([], Received(rx, frame).1);
    assert tail[..|tail|] == tail;
    NothingDelivered();
  }

  lemma NothingDelivered()
    ensures Delivered([]) == []
  {
  }
}
