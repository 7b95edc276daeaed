/** Requests coming in: a message sent to an ECU is handed to its simulation once, with its last frame, whatever else is configured. */
module Requests {
  import opened Basics
  import opened Pacing
  import opened CanFrames
  import opened IsoTp
  import opened IsoTpTheorems
  import opened Handlings

  /** The endpoints after the first `n` of these payloads have come in on one identifier. */
  ghost function AfterFrames(endpoints: map<CanId, Endpoint>, canId: CanId, payloads: seq<Data>, n: nat): map<CanId, Endpoint>
    requires n <= |payloads|
  {
    if n == 0 then endpoints
    else Fed(AfterFrames(endpoints, canId, payloads, n - 1), NewClassic(0.0, canId, payloads[n - 1])).0
  }

  /** The receiver on that identifier has heard them, and no other endpoint has noticed. */
  lemma {:induction false} OnlyItsReceiverHears(endpoints: map<CanId, Endpoint>, canId: CanId, payloads: seq<Data>, n: nat)
    requires canId in endpoints && n <= |payloads|
    ensures AfterFrames(endpoints, canId, payloads, n) ==
            endpoints[canId := endpoints[canId].(rx := HeardFrom(endpoints[canId].rx, payloads, n).rx)]
    decreases n
  {
    hide Received;
    if n == 0 {
      var same := endpoints[canId].(rx := HeardFrom(endpoints[canId].rx, payloads, 0).rx);
      assert same == endpoints[canId];
    } else {
      OnlyItsReceiverHears(endpoints, canId, payloads, n - 1);
    }
  }

  /** Flow control an ECU sends, on the identifier it answers on. */
  ghost function Control(endpoint: Endpoint, status: Byte): CanFrame {
    NewClassic(0.0, endpoint.responseCanId, FlowControlFrame(endpoint.rx.params, status))
  }

  /**
   * Frame by frame, what an ECU with room makes of a message sent to it: the request with the last one and not
   * before, and a grant after the first of several and after every full block, with more to come.
   */
  lemma MessageIsRequested(endpoints: map<CanId, Endpoint>, canId: CanId, pdu: Data, padding: Option<Byte>, i: nat)
    requires canId in endpoints && IsSendable(pdu) && CanHold(endpoints[canId].rx, pdu) && i < FrameCount(pdu)
    ensures var frames, endpoint := Frames(pdu, padding), endpoints[canId];
            var block := endpoint.rx.params.blockSize as int;
            var (_, request, sent) := Fed(AfterFrames(endpoints, canId, frames, i), NewClassic(0.0, canId, frames[i]));
            && request == (if i + 1 == |frames| then Some(pdu) else None)
            && sent == if i + 1 < |frames| && (i == 0 || (block > 0 && i % block == 0)) then [Control(endpoint, 0x30)] else []
  {
    hide FrameCount, FrameAt, Frames, Received, PartWay, FlowControlFrame;
    var rx := endpoints[canId].rx;
    OnlyItsReceiverHears(endpoints, canId, Frames(pdu, padding), i);
    HearsTheFrames(rx, pdu, padding, i);
    OneFrameIsHeard(rx, pdu, padding, i);
  }

  /** A message longer than an ECU has room for is refused at its first frame, with the status for overflow and on the identifier it answers on. */
  lemma TooLongIsRefused(endpoints: map<CanId, Endpoint>, canId: CanId, pdu: Data)
    requires canId in endpoints && MAX_SINGLE_FRAME < |pdu| <= MAX_PDU
    requires !endpoints[canId].rx.isFunctional && |pdu| > endpoints[canId].rx.maxPduLength
    ensures var (_, request, sent) := Fed(endpoints, NewClassic(0.0, canId, FirstFrame(pdu)));
            request.None? && sent == [Control(endpoints[canId], 0x32)]
  {
    assert Announced(FirstFrame(pdu)) == |pdu|;
  }

  /** An identifier nobody listens on, or a simulation whose script is over: nothing happens and nothing goes out. */
  lemma NobodyHears(h: Handling, script: seq<Turn>, k: nat)
    requires h.turn == TurnAt(script, k)
    ensures k >= |script| || h.frame.canId !in h.endpoints ==> !IsAnswered(h) && EndpointsAfter(h) == h.endpoints
    ensures h.frame.canId !in h.endpoints ==> Fed(h.endpoints, h.frame).2 == []
  {
  }
}
