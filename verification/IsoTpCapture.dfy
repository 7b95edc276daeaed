/**
 * The same frames read live by a receiver and afterwards from a capture: they yield the same
 * messages on plain frames, and plain frames are all that can be promised.
 */
module IsoTpCapture {
  import opened Basics
  import opened Pacing
  import opened IsoTp

  /** What a live receiver completes, in order. */
  datatype Listening = Listening(rx: Rx, messages: seq<Data>)

  ghost function Listened(rx: Rx, frames: seq<Data>): Listening {
    if frames == [] then Listening(rx, [])
    else
      var l := Listened(rx, frames[..|frames| - 1]);
      var (next, outcome) := Received(l.rx, frames[|frames| - 1]);
      Listening(next, if outcome.Completed? then l.messages + [outcome.pdu] else l.messages)
  }

  /**
   * Frames both readers take alike: none of the CAN-FD escape single frames only the capture reader
   * decodes, none of the too-short first frames and reserved types only the receiver passes over.
   */
  predicate IsPlain(data: Data) {
    data == [] ||
    match data[0] / 16
    case 0 => data[0] % 16 != 0 || |data| < 2 || data[1] == 0 || data[1] as int + 2 > |data|
    case 1 => |data| >= 2 && Announced(data) > CONSECUTIVE_FRAME_PAYLOAD
    case 2 => true
    case 3 => true
    case _ => false
  }

  ghost predicate AllPlain(frames: seq<Data>) {
    forall i :: 0 <= i < |frames| ==> IsPlain(frames[i])
  }

  ghost predicate SameProgress(pending: Option<Pending>, partial: Option<Partial>) {
    match (pending, partial)
    case (Some(p), Some(q)) => p.buffer == q.buffer && p.remaining == q.remaining && p.nextSequence == q.nextSequence
    case (None, None) => true
    case _ => false
  }

  ghost predicate SameSoFar(l: Listening, c: Capture) {
    l.messages == c.messages && SameProgress(l.rx.pending, c.partial) && !l.rx.isFunctional && l.rx.maxPduLength == MAX_PDU
  }

  lemma PlainFramesAgree(l: Listening, c: Capture, data: Data)
    requires SameSoFar(l, c) && IsPlain(data)
    ensures var (next, outcome) := Received(l.rx, data);
            SameSoFar(Listening(next, if outcome.Completed? then l.messages + [outcome.pdu] else l.messages), Observed(c, data))
  {
  }

  /** On plain frames a live receiver and a later reading of the capture find the same messages. */
  lemma {:induction false} LiveAndCaptureAgree(params: IsoTpParameters, frames: seq<Data>)
    requires AllPlain(frames)
    ensures SameSoFar(Listened(NewPhysical(params), frames), Reassembled(frames))
    ensures Listened(NewPhysical(params), frames).messages == Reassembled(frames).messages
  {
    if frames != [] {
      var earlier := frames[..|frames| - 1];
      LiveAndCaptureAgree(params, earlier);
      PlainFramesAgree(Listened(NewPhysical(params), earlier), Reassembled(earlier), frames[|frames| - 1]);
    }
  }

  /** A frame that, put between plain ones, is always read alike. */
  ghost predicate IsReadAlike(params: IsoTpParameters, data: Data) {
    forall before, after :: AllPlain(before) && AllPlain(after) ==>
      Listened(NewPhysical(params), before + [data] + after).messages == Reassembled(before + [data] + after).messages
  }

  const THIRTEEN: Data := [0x10, 13, 1, 2, 3, 4, 5, 6]
  const THE_REST: Data := [0x21, 7, 8, 9, 10, 11, 12, 13]

  lemma ListenedToThree(rx: Rx, a: Data, b: Data, c: Data)
    ensures Listened(rx, [a] + [b] + [c]) ==
            var (rx1, o1) := Received(rx, a);
            var (rx2, o2) := Received(rx1, b);
            var (rx3, o3) := Received(rx2, c);
            var m1: seq<Data> := if o1.Completed? then [] + [o1.pdu] else [];
            var m2 := if o2.Completed? then m1 + [o2.pdu] else m1;
            Listening(rx3, if o3.Completed? then m2 + [o3.pdu] else m2)
    ensures Reassembled([a] + [b] + [c]) == Observed(Observed(Observed(Capture(None, []), a), b), c)
  {
    var all := [a] + [b] + [c];
    assert all[..2] == [a, b] && [a, b][..1] == [a] && [a][..0] == [];
    hide Received, Observed;
    assert Listened(rx, [a][..0]) == Listening(rx, []);
    assert Listened(rx, [a]).rx == Received(rx, a).0;
    assert Reassembled([a][..0]) == Capture(None, []);
    assert Reassembled([a]) == Observed(Capture(None, []), a);
  }

  /** An unplain frame other than an escape, arriving in the middle of a message: the receiver goes on, the capture reader does not. */
  lemma InterruptionIsReadDifferently(params: IsoTpParameters, data: Data)
    requires !IsPlain(data) && data[0] / 16 != 0
    ensures !IsReadAlike(params, data)
  {
    var rx := NewPhysical(params);
    ListenedToThree(rx, THIRTEEN, data, THE_REST);
    var (assembling, _) := Received(rx, THIRTEEN);
    assert THIRTEEN[2..2 + 6] == [1, 2, 3, 4, 5, 6];
    assert assembling.pending.Some? && assembling.pending.value.remaining == 7 && assembling.pending.value.nextSequence == 1;
    assert Received(assembling, data) == (assembling, Nothing);
    var outcome := Received(assembling, THE_REST).1;
    assert outcome.Completed? && |outcome.pdu| == 13;
    var captured := Reassembled([THIRTEEN] + [data] + [THE_REST]);
    assert forall i :: 0 <= i < |captured.messages| ==> |captured.messages[i]| <= 7;
    assert AllPlain([THIRTEEN]) && AllPlain([THE_REST]);
    assert Listened(rx, [THIRTEEN] + [data] + [THE_REST]).messages[0] == outcome.pdu;
  }

  /** A CAN-FD escape single frame on its own: the capture reader decodes it, the receiver does not. */
  lemma EscapeIsReadDifferently(params: IsoTpParameters, data: Data)
    requires !IsPlain(data) && data[0] / 16 == 0
    ensures !IsReadAlike(params, data)
  {
    var none: seq<Data> := [];
    assert none + [data] + none == [data] && [data][..0] == none;
    assert AllPlain(none);
    assert Listened(NewPhysical(params), [data]).messages == [];
    assert |Reassembled([data]).messages| == 1;
    assert Listened(NewPhysical(params), none + [data] + none).messages != Reassembled(none + [data] + none).messages;
  }

  /** Being plain is exactly what it takes to be read alike live and from a capture. */
  lemma PlainExactly(params: IsoTpParameters, data: Data)
    ensures IsPlain(data) <==> IsReadAlike(params, data)
  {
    if IsPlain(data) {
      forall before, after | AllPlain(before) && AllPlain(after)
        ensures Listened(NewPhysical(params), before + [data] + after).messages == Reassembled(before + [data] + after).messages
      {
        LiveAndCaptureAgree(params, before + [data] + after);
      }
    } else if data[0] / 16 == 0 {
      EscapeIsReadDifferently(params, data);
    } else {
      InterruptionIsReadDifferently(params, data);
    }
  }
}
