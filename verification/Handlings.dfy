/**
 * What the bridge does with one frame, as values: the endpoint it reaches, what goes out for it, and
 * which arrivals the wait for flow control it may cause looks at and removes.
 */
module Handlings {
  import opened Basics
  import opened Pacing
  import opened CanFrames
  import opened Arrivals
  import opened IsoTp
  import opened IsoTpTheorems

  /** One identifier the bridge listens on: where it answers, and what it is reassembling. */
  datatype Endpoint = Endpoint(responseCanId: CanId, rx: Rx)

  datatype Reply = Reply(responseCanId: CanId, bytes: Data)

  /** What the simulation says about the next frame handled: whether it runs, and the replies should a request complete. */
  datatype Turn = Turn(isRunning: bool, replies: seq<Reply>)

  /** The turn for the `k`-th frame handled; a script that has run out is a stopped simulation. */
  function TurnAt(script: seq<Turn>, k: nat): Turn {
    if k < |script| then script[k] else Turn(false, [])
  }

  /** One frame handed over: the endpoints it met, its turn, and how much had been sent and had arrived by then. */
  datatype Handling = Handling(frame: CanFrame, endpoints: map<CanId, Endpoint>, turn: Turn, sentBefore: nat, arrivedBefore: nat)

  // ---------------------------------------------------------------- one frame

  /** What a frame does to the endpoint owning its identifier: the receivers after it, a request it completed, a reply it calls for. */
  function Fed(endpoints: map<CanId, Endpoint>, frame: CanFrame): (map<CanId, Endpoint>, Option<Data>, seq<CanFrame>) {
    if frame.canId !in endpoints then (endpoints, None, [])
    else
      var endpoint := endpoints[frame.canId];
      var (rx, outcome) := Received(endpoint.rx, frame.data);
      (endpoints[frame.canId := endpoint.(rx := rx)],
       if outcome.Completed? then Some(outcome.pdu) else None,
       if outcome.SendFlowControl? || outcome.Refused? then [NewClassic(0.0, endpoint.responseCanId, outcome.frame)] else [])
  }

  /** The frame completed a request on a running simulation. */
  predicate IsAnswered(h: Handling) {
    h.turn.isRunning && Fed(h.endpoints, h.frame).1.Some?
  }

  function EndpointsAfter(h: Handling): map<CanId, Endpoint> {
    if h.turn.isRunning then Fed(h.endpoints, h.frame).0 else h.endpoints
  }

  lemma FeedingDecides(h: Handling)
    ensures IsAnswered(h) <==> h.turn.isRunning && Fed(h.endpoints, h.frame).1.Some?
    ensures EndpointsAfter(h) == if h.turn.isRunning then Fed(h.endpoints, h.frame).0 else h.endpoints
  {
    hide Fed;
  }

  /** Some reply is too long for a single frame, so its transfer waits for flow control. */
  ghost predicate Waits(h: Handling) {
    exists k :: 0 <= k < |h.turn.replies| && MAX_SINGLE_FRAME < |h.turn.replies[k].bytes| <= MAX_PDU
  }

  function FramesOfLog(log: seq<Handling>): (frames: seq<CanFrame>)
    ensures |frames| == |log| && forall k :: 0 <= k < |log| ==> frames[k] == log[k].frame
  {
    seq(|log|, k requires 0 <= k < |log| => log[k].frame)
  }

  function AnsweredIn(log: seq<Handling>): nat {
    if log == [] then 0 else AnsweredIn(log[..|log| - 1]) + (if IsAnswered(log[|log| - 1]) then 1 else 0)
  }

  ghost function AnsweredPlaces(log: seq<Handling>): set<nat> {
    set k: nat | k < |log| && IsAnswered(log[k])
  }

  /** The count of requests answered is that of the frames handled that complete one on a running simulation. */
  lemma {:induction false} AnsweredAreCounted(log: seq<Handling>)
    ensures AnsweredIn(log) == |AnsweredPlaces(log)|
  {
    hide IsAnswered;
    if log == [] {
      assert AnsweredPlaces(log) == {};
    } else {
      var n := |log| - 1;
      AnsweredAreCounted(log[..n]);
      assert AnsweredPlaces(log) == AnsweredPlaces(log[..n]) + (if IsAnswered(log[n]) then {n} else {});
    }
  }

  /** These frames were handled one after the other, from one set of endpoints to another. */
  ghost predicate Follows(start: map<CanId, Endpoint>, log: seq<Handling>, end: map<CanId, Endpoint>) {
    if log == [] then end == start
    else
      var n := |log| - 1;
      Follows(start, log[..n], log[n].endpoints) && end == EndpointsAfter(log[n])
  }

  function Configured(current: map<CanId, Endpoint>, rebuilt: Option<map<CanId, Endpoint>>): map<CanId, Endpoint> {
    if rebuilt.Some? then rebuilt.value else current
  }

  /** These frames were handled over so many pumps, each beginning with a reconfiguration or none. */
  ghost predicate Pumped(start: map<CanId, Endpoint>, rebuilds: seq<Option<map<CanId, Endpoint>>>, log: seq<Handling>, end: map<CanId, Endpoint>)
    decreases |rebuilds|
  {
    if rebuilds == [] then log == [] && end == start
    else
      var n := |rebuilds| - 1;
      exists cut: nat, between ::
        cut <= |log| && Pumped(start, rebuilds[..n], log[..cut], between)
        && Follows(Configured(between, rebuilds[n]), log[cut..], end)
  }

  // ---------------------------------------------------------------- what goes out

  /** The payloads sent on one identifier, as frames. */
  ghost predicate AreSentAs(frames: seq<CanFrame>, canId: CanId, payloads: seq<Data>) {
    |frames| == |payloads| && forall i :: 0 <= i < |frames| ==> frames[i].canId == canId && frames[i].data == payloads[i]
  }

  /** From `before` to `now` exactly the payloads from `begun` to `emitted` went out on one identifier. */
  ghost predicate SentMeanwhile(before: seq<CanFrame>, now: seq<CanFrame>, canId: CanId, begun: seq<Data>, emitted: seq<Data>) {
    before <= now && begun <= emitted && AreSentAs(now[|before|..], canId, emitted[|begun|..])
  }

  /** What one reply put on the bus: its frames from the first one on, all of them unless its transfer failed. */
  ghost predicate IsStartOf(out: seq<Data>, pdu: Data, padding: Option<Byte>) {
    if IsSendable(pdu) then out != [] && out <= Frames(pdu, padding) else out == []
  }

  /** All the frames of a reply that can be sent at all went out. */
  ghost predicate IsWhole(out: seq<Data>, pdu: Data, padding: Option<Byte>) {
    IsSendable(pdu) ==> out == Frames(pdu, padding)
  }

  /** From `before` to `now` the replies went out one after the other, each on its own identifier, so many of them cut short. */
  ghost predicate Replied(before: seq<CanFrame>, now: seq<CanFrame>, replies: seq<Reply>, padding: Option<Byte>, cut: nat)
    decreases |replies|
  {
    if replies == [] then now == before && cut == 0
    else
      var n := |replies| - 1;
      exists mid, out, earlier: nat ::
        && Replied(before, mid, replies[..n], padding, earlier) && SentMeanwhile(mid, now, replies[n].responseCanId, [], out)
        && IsStartOf(out, replies[n].bytes, padding)
        && cut == earlier + (if IsWhole(out, replies[n].bytes, padding) then 0 else 1)
  }

  /** What handling one frame put on the bus: nothing while stopped, its replies if answered, else the flow control it called for. */
  ghost predicate PutOut(h: Handling, before: seq<CanFrame>, now: seq<CanFrame>, padding: Option<Byte>, cut: nat) {
    if !h.turn.isRunning then now == before && cut == 0
    else if IsAnswered(h) then Replied(before, now, h.turn.replies, padding, cut)
    else now == before + Fed(h.endpoints, h.frame).2 && cut == 0
  }

  /** Everything sent was put out by the frames handled, one after the other, so many of their replies cut short. */
  ghost predicate AllPutOut(log: seq<Handling>, sent: seq<CanFrame>, padding: Option<Byte>, cut: nat)
    decreases |log|
  {
    if log == [] then sent == [] && cut == 0
    else
      var n := |log| - 1;
      && log[n].sentBefore <= |sent|
      && exists earlier: nat ::
           && earlier <= cut && AllPutOut(log[..n], sent[..log[n].sentBefore], padding, earlier)
           && PutOut(log[n], sent[..log[n].sentBefore], sent, padding, cut - earlier)
  }

  lemma PutOutIf(h: Handling, before: seq<CanFrame>, now: seq<CanFrame>, padding: Option<Byte>, cut: nat)
    requires !IsAnswered(h) ==> cut == 0
    requires !h.turn.isRunning ==> now == before
    requires IsAnswered(h) ==> Replied(before, now, h.turn.replies, padding, cut)
    requires h.turn.isRunning && !IsAnswered(h) ==> now == before + Fed(h.endpoints, h.frame).2
    ensures PutOut(h, before, now, padding, cut)
  {
    hide Replied, Fed;
  }

  lemma PutOutNext(log: seq<Handling>, h: Handling, before: seq<CanFrame>, now: seq<CanFrame>, padding: Option<Byte>, earlier: nat, cut: nat)
    requires AllPutOut(log, before, padding, earlier) && before <= now && h.sentBefore == |before| && PutOut(h, before, now, padding, cut)
    ensures AllPutOut(log + [h], now, padding, earlier + cut)
  {
    hide PutOut;
    assert (log + [h])[..|log|] == log && now[..|before|] == before;
    assert (log + [h])[|log|] == h && earlier + cut - earlier == cut;
  }

  // ---------------------------------------------------------------- what gets removed

  /** A frame of another conversation: neither flow control for this bridge nor for the ECU that is answering. */
  predicate BelongsElsewhere(frame: CanFrame, owned: set<CanId>, answering: CanId) {
    !(IsFlowControl(frame) && frame.canId in owned) && frame.canId != answering
  }

  predicate Elsewhere(h: Handling, frame: CanFrame) {
    BelongsElsewhere(frame, h.endpoints.Keys, h.frame.canId)
  }

  /** How a frame the wait looks at leaves: flow control on any owned identifier first, then whatever is for the busy ECU. */
  ghost predicate RemovesAs(h: Handling, frame: CanFrame, fate: Fate) {
    match fate
    case Kept => Elsewhere(h, frame)
    case TakenAsFlowControl(_) => IsFlowControl(frame) && frame.canId in h.endpoints
    case DroppedFor(_) => frame.canId == h.frame.canId && !(IsFlowControl(frame) && frame.canId in h.endpoints)
  }

  /** Arrival `i` came after the frame handled as number `d`, and the wait that one caused looked at it. */
  ghost predicate LookedAt(fates: seq<Fate>, looks: seq<nat>, d: nat, i: nat)
    requires d < |looks| <= |KeptPlaces(fates)|
  {
    KeptPlaces(fates)[d] < i < looks[d]
  }

  /**
   * The fate of one arrival, exactly: kept when it belongs elsewhere for every wait that looked at it,
   * removed when some wait that looked at it had a reason to.
   */
  ghost predicate ExactFate(arrived: seq<CanFrame>, fates: seq<Fate>, log: seq<Handling>, looks: seq<nat>, i: nat)
    requires i < |arrived| == |fates| && |looks| == |log| <= |KeptPlaces(fates)|
  {
    if fates[i] == Kept then forall d :: 0 <= d < |log| && LookedAt(fates, looks, d, i) ==> Elsewhere(log[d], arrived[i])
    else
      var d := fates[i].during;
      d < |log| && LookedAt(fates, looks, d, i) && RemovesAs(log[d], arrived[i], fates[i])
  }

  /** A wait looked only at what had arrived before the next frame was handed over, and only an answer that needs flow control waits. */
  ghost predicate LookInTime(arrived: seq<CanFrame>, log: seq<Handling>, looks: seq<nat>, d: nat)
    requires d < |looks| == |log|
  {
    && looks[d] <= |arrived|
    && (d + 1 < |log| ==> looks[d] <= log[d + 1].arrivedBefore)
    && (looks[d] > 0 ==> IsAnswered(log[d]) && Waits(log[d]))
  }

  ghost predicate LooksInTime(arrived: seq<CanFrame>, log: seq<Handling>, looks: seq<nat>)
    requires |looks| == |log|
  {
    forall d :: 0 <= d < |log| ==> LookInTime(arrived, log, looks, d)
  }

  /** The fate of every arrival follows from the frames handled and how far each wait looked. */
  ghost predicate ExactFates(arrived: seq<CanFrame>, fates: seq<Fate>, log: seq<Handling>, looks: seq<nat>) {
    && |arrived| == |fates| && |looks| == |log| <= |KeptPlaces(fates)|
    && LooksInTime(arrived, log, looks)
    && (forall i :: 0 <= i < |fates| ==> ExactFate(arrived, fates, log, looks, i))
  }

  lemma FatesOfMore(arrived: seq<CanFrame>, fates: seq<Fate>, log: seq<Handling>, looks: seq<nat>, more: seq<CanFrame>)
    requires ExactFates(arrived, fates, log, looks)
    ensures ExactFates(arrived + more, fates + AllKept(|more|), log, looks)
    ensures KeptOf(arrived + more, fates + AllKept(|more|)) == KeptOf(arrived, fates) + more
  {
    KeptOfMore(arrived, fates, more);
    hide KeptPlaces, KeptOf, Elsewhere, RemovesAs, IsAnswered, Waits;
    var all, marks := arrived + more, fates + AllKept(|more|);
    forall d | 0 <= d < |log| ensures LookInTime(all, log, looks, d) {
      assert LookInTime(arrived, log, looks, d);
    }
    forall i | 0 <= i < |marks| ensures ExactFate(all, marks, log, looks, i) {
      if i < |fates| {
        assert ExactFate(arrived, fates, log, looks, i);
      } else {
        forall d | 0 <= d < |log| ensures !LookedAt(marks, looks, d, i) {
          assert LookInTime(arrived, log, looks, d);
        }
      }
    }
  }

  /** Handing over the next frame removes nothing: its wait has looked at nothing yet. */
  lemma FatesOfNext(arrived: seq<CanFrame>, fates: seq<Fate>, log: seq<Handling>, looks: seq<nat>, h: Handling)
    requires ExactFates(arrived, fates, log, looks) && |log| < |KeptPlaces(fates)| && h.arrivedBefore == |arrived|
    ensures ExactFates(arrived, fates, log + [h], looks + [0])
  {
    hide KeptPlaces, Elsewhere, RemovesAs, IsAnswered, Waits;
    forall d | 0 <= d < |log| + 1 ensures LookInTime(arrived, log + [h], looks + [0], d) {
      if d < |log| { assert LookInTime(arrived, log, looks, d); }
    }
    forall i | 0 <= i < |fates| ensures ExactFate(arrived, fates, log + [h], looks + [0], i) {
      assert ExactFate(arrived, fates, log, looks, i);
    }
  }

  /** Everything kept between the frame being handled and place `j` belongs elsewhere. */
  ghost predicate ElsewhereUpTo(arrived: seq<CanFrame>, fates: seq<Fate>, log: seq<Handling>, j: nat)
    requires |arrived| == |fates| && 0 < |log| <= j <= |KeptPlaces(fates)|
  {
    forall k :: |log| <= k < j ==> Elsewhere(log[|log| - 1], arrived[KeptPlaces(fates)[k]])
  }

  function Further(looked: nat, i: nat): nat {
    if looked > i then looked else i + 1
  }

  /** The wait of the frame being handled looks at the kept arrival `j` and removes it. */
  lemma FatesOfRemoval(arrived: seq<CanFrame>, fates: seq<Fate>, log: seq<Handling>, looks: seq<nat>, j: nat, fate: Fate)
    requires ExactFates(arrived, fates, log, looks) && 0 < |log| <= j < |KeptPlaces(fates)|
    requires ElsewhereUpTo(arrived, fates, log, j) && fate != Kept && fate.during == |log| - 1
    requires IsAnswered(log[|log| - 1]) && Waits(log[|log| - 1])
    requires RemovesAs(log[|log| - 1], arrived[KeptPlaces(fates)[j]], fate)
    ensures var i, d := KeptPlaces(fates)[j], |log| - 1;
            ExactFates(arrived, fates[i := fate], log, looks[d := Further(looks[d], i)])
  {
    var places := KeptPlaces(fates);
    var i, last := places[j], |log| - 1;
    var marks, further := fates[i := fate], looks[last := Further(looks[last], i)];
    RemovePlace(fates, j, fate);
    PlacesRise(fates, last, j);
    assert SamePlaces(fates, marks, |log|);
    LooksStayInTime(arrived, log, looks, i);
    assert ExactFate(arrived, marks, log, further, i);
    hide LooksInTime, Elsewhere, RemovesAs, ElsewhereUpTo, SamePlaces, IsAnswered, Waits, KeptPlaces;
    forall x | 0 <= x < |marks| ensures ExactFate(arrived, marks, log, further, x) {
      assert ExactFate(arrived, fates, log, looks, x);
      if x != i { FateStays(arrived, fates, log, looks, j, marks, x); }
    }
  }

  lemma LooksStayInTime(arrived: seq<CanFrame>, log: seq<Handling>, looks: seq<nat>, i: nat)
    requires |looks| == |log| > 0 && i < |arrived| && LooksInTime(arrived, log, looks)
    requires IsAnswered(log[|log| - 1]) && Waits(log[|log| - 1])
    ensures LooksInTime(arrived, log, looks[|log| - 1 := Further(looks[|log| - 1], i)])
  {
    hide IsAnswered, Waits;
    var further := looks[|log| - 1 := Further(looks[|log| - 1], i)];
    forall d | 0 <= d < |log| ensures LookInTime(arrived, log, further, d) {
      assert LookInTime(arrived, log, looks, d);
    }
  }

  /** Which handlings' places the fates of the others are read against. */
  ghost predicate SamePlaces(fates: seq<Fate>, marks: seq<Fate>, n: nat) {
    n <= |KeptPlaces(fates)| && n <= |KeptPlaces(marks)| && forall d :: 0 <= d < n ==> KeptPlaces(marks)[d] == KeptPlaces(fates)[d]
  }

  /** Looking further changes no other arrival's fate. */
  lemma FateStays(arrived: seq<CanFrame>, fates: seq<Fate>, log: seq<Handling>, looks: seq<nat>, j: nat, marks: seq<Fate>, x: nat)
    requires |arrived| == |fates| && 0 < |looks| == |log| <= j < |KeptPlaces(fates)|
    requires ElsewhereUpTo(arrived, fates, log, j) && SamePlaces(fates, marks, |log|)
    requires x < |fates| == |marks| && marks[x] == fates[x] && x != KeptPlaces(fates)[j]
    requires ExactFate(arrived, fates, log, looks, x)
    ensures ExactFate(arrived, marks, log, looks[|log| - 1 := Further(looks[|log| - 1], KeptPlaces(fates)[j])], x)
  {
    hide Elsewhere, RemovesAs, ElsewhereUpTo, KeptPlaces;
    var i, last := KeptPlaces(fates)[j], |log| - 1;
    var further := looks[last := Further(looks[last], i)];
    if fates[x] == Kept {
      forall d | 0 <= d < |log| && LookedAt(marks, further, d, x) ensures Elsewhere(log[d], arrived[x]) {
        if !LookedAt(fates, looks, d, x) {
          assert d == last && KeptPlaces(fates)[last] < x < i;
          BetweenIsElsewhere(arrived, fates, log, j, x);
        }
      }
    }
  }

  lemma BetweenIsElsewhere(arrived: seq<CanFrame>, fates: seq<Fate>, log: seq<Handling>, j: nat, x: nat)
    requires |arrived| == |fates| && 0 < |log| <= j < |KeptPlaces(fates)| && ElsewhereUpTo(arrived, fates, log, j)
    requires x < |fates| && fates[x] == Kept && KeptPlaces(fates)[|log| - 1] < x < KeptPlaces(fates)[j]
    ensures Elsewhere(log[|log| - 1], arrived[x])
  {
    hide Elsewhere, KeptPlaces;
    var k := PlaceOf(fates, x);
    if j < k { PlacesRise(fates, j, k); }
    if k < |log| - 1 { PlacesRise(fates, k, |log| - 1); }
  }

  /** The wait looks at the kept arrival `j` and sets it aside. */
  lemma FatesOfAside(arrived: seq<CanFrame>, fates: seq<Fate>, log: seq<Handling>, looks: seq<nat>, j: nat)
    requires ExactFates(arrived, fates, log, looks) && 0 < |log| <= j < |KeptPlaces(fates)|
    requires ElsewhereUpTo(arrived, fates, log, j)
    requires IsAnswered(log[|log| - 1]) && Waits(log[|log| - 1])
    requires Elsewhere(log[|log| - 1], arrived[KeptPlaces(fates)[j]])
    ensures var i, d := KeptPlaces(fates)[j], |log| - 1;
            ExactFates(arrived, fates, log, looks[d := Further(looks[d], i)])
  {
    var i, last := KeptPlaces(fates)[j], |log| - 1;
    var further := looks[last := Further(looks[last], i)];
    LooksStayInTime(arrived, log, looks, i);
    assert SamePlaces(fates, fates, |log|);
    hide LooksInTime, Elsewhere, RemovesAs, ElsewhereUpTo, SamePlaces, IsAnswered, Waits, KeptPlaces;
    forall x | 0 <= x < |fates| ensures ExactFate(arrived, fates, log, further, x) {
      assert ExactFate(arrived, fates, log, looks, x);
      if x != i {
        FateStays(arrived, fates, log, looks, j, fates, x);
      } else {
        assert forall d :: 0 <= d < last ==> LookedAt(fates, further, d, x) == LookedAt(fates, looks, d, x);
      }
    }
  }
}
