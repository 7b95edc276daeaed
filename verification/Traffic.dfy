/**
 * The live traffic feed: a bounded history ring and a bounded broadcast, published to under one
 * lock, and monitors that attach, fall behind and catch up. One lock region is one step.
 */
module Traffic {
  import opened Basics

  const CHANNEL_CAPACITY := 2048
  const HISTORY_CAPACITY := 20_000
  const MAX_EVENTS_PER_BATCH := 64

  datatype TrafficEvent =
    | Frame(text: string)
    | Exchange(text: string)
    | DoIp(text: string)
    | Lifecycle(text: string)
    | Replayed(count: nat, droppedBefore: nat)
    | Lagged(missed: nat)

  /** Raw traffic, which a monitor may ask to be spared. */
  predicate IsFrameEvent(event: TrafficEvent) {
    event.Frame? || event.DoIp?
  }

  datatype Channel = Channel(history: seq<TrafficEvent>, dropped: nat, log: seq<TrafficEvent>)

  const NEW_CHANNEL := Channel([], 0, [])

  /** What one receive yields: nothing yet, an event, or news of having fallen behind. */
  datatype Item = Live(event: TrafficEvent) | Gap(missed: nat)

  datatype Query = Query(history: Option<nat>, frames: Option<bool>)

  datatype Monitor = Monitor(
    query: Query,
    snapshot: seq<TrafficEvent>,
    droppedBefore: nat,
    attachedAt: nat,
    cursor: nat,
    received: seq<Item>)

  // ---------------------------------------------------------------- one lock region each, as values

  function Published(c: Channel, event: TrafficEvent): Channel {
    var full := |c.history| == HISTORY_CAPACITY;
    Channel((if full then c.history[1..] else c.history) + [event], if full then c.dropped + 1 else c.dropped, c.log + [event])
  }

  function Attached(c: Channel, query: Query): Monitor {
    Monitor(query, c.history, c.dropped, |c.log|, |c.log|, [])
  }

  /** The assumed broadcast: a receiver too far behind is told how much it missed and moved to the oldest kept event. */
  function Polled(c: Channel, m: Monitor): Monitor {
    if m.cursor >= |c.log| then m
    else if |c.log| - m.cursor > CHANNEL_CAPACITY then
      var oldest := |c.log| - CHANNEL_CAPACITY;
      m.(cursor := oldest, received := m.received + [Gap(oldest - m.cursor)])
    else m.(cursor := m.cursor + 1, received := m.received + [Live(c.log[m.cursor])])
  }

  // ---------------------------------------------------------------- the channel itself

  class TrafficChannel {
    var history: seq<TrafficEvent>
    var dropped: nat
    /** Everything handed to the broadcast so far; only its last `CHANNEL_CAPACITY` entries can still be received. */
    var sent: seq<TrafficEvent>

    constructor ()
      ensures Now() == NEW_CHANNEL
    {
      history, dropped, sent := [], 0, [];
    }

    function Now(): Channel
      reads this
    {
      Channel(history, dropped, sent)
    }

    method Publish(event: TrafficEvent)
      modifies this
      ensures Now() == Published(old(Now()), event)
    {
      if |history| == HISTORY_CAPACITY {
        history := history[1..];
        dropped := dropped + 1;
      }
      history := history + [event];
      sent := sent + [event];
    }

    /** Snapshot and subscribe under one lock. */
    method SubscribeWithHistory() returns (snapshot: seq<TrafficEvent>, droppedBefore: nat, cursor: nat)
      ensures forall query :: Attached(Now(), query) == Monitor(query, snapshot, droppedBefore, cursor, cursor, [])
    {
      cursor := |sent|;
      snapshot := history;
      droppedBefore := dropped;
    }
  }

  // ---------------------------------------------------------------- any interleaving

  datatype Action = Publish(event: TrafficEvent) | Attach(query: Query) | Poll(monitor: nat)

  datatype System = System(channel: Channel, monitors: seq<Monitor>)

  function Step(s: System, action: Action): System {
    match action
    case Publish(event) => s.(channel := Published(s.channel, event))
    case Attach(query) => s.(monitors := s.monitors + [Attached(s.channel, query)])
    case Poll(i) => if i < |s.monitors| then s.(monitors := s.monitors[i := Polled(s.channel, s.monitors[i])]) else s
  }

  function Run(actions: seq<Action>): System {
    if actions == [] then System(NEW_CHANNEL, []) else Step(Run(actions[..|actions| - 1]), actions[|actions| - 1])
  }

  /** What was published, in the order the lock was taken. */
  function PublishedBy(actions: seq<Action>): seq<TrafficEvent> {
    if actions == [] then []
    else PublishedBy(actions[..|actions| - 1]) + (if actions[|actions| - 1].Publish? then [actions[|actions| - 1].event] else [])
  }

  /** The ring is the last of the log, and everything older is counted. */
  ghost predicate RingOk(c: Channel) {
    && |c.history| <= HISTORY_CAPACITY
    && c.dropped + |c.history| == |c.log|
    && (c.dropped > 0 ==> |c.history| == HISTORY_CAPACITY)
    && c.history == c.log[c.dropped..]
  }

  /** These items account for the log from one position to another: each event once, each gap by its exact length. */
  ghost predicate Covers(items: seq<Item>, log: seq<TrafficEvent>, from: nat, upto: nat)
    decreases |items|
  {
    if items == [] then from == upto
    else
      var last, earlier := items[|items| - 1], items[..|items| - 1];
      match last
      case Live(event) => 0 < upto <= |log| && log[upto - 1] == event && Covers(earlier, log, from, upto - 1)
      case Gap(missed) => 0 < missed <= upto <= |log| && Covers(earlier, log, from, upto - missed)
  }

  ghost predicate MonitorOk(c: Channel, m: Monitor) {
    && m.attachedAt <= m.cursor <= |c.log|
    && m.droppedBefore == (if m.attachedAt > HISTORY_CAPACITY then m.attachedAt - HISTORY_CAPACITY else 0)
    && m.snapshot == c.log[m.droppedBefore..m.attachedAt]
    && Covers(m.received, c.log, m.attachedAt, m.cursor)
  }

  ghost predicate SystemOk(s: System) {
    RingOk(s.channel) && forall i :: 0 <= i < |s.monitors| ==> MonitorOk(s.channel, s.monitors[i])
  }

  lemma {:induction false} CoversLonger(items: seq<Item>, log: seq<TrafficEvent>, event: TrafficEvent, from: nat, upto: nat)
    requires Covers(items, log, from, upto)
    ensures Covers(items, log + [event], from, upto)
    decreases |items|
  {
    if items != [] {
      var last, earlier := items[|items| - 1], items[..|items| - 1];
      CoversLonger(earlier, log, event, from, if last.Live? then upto - 1 else upto - last.missed);
    }
  }

  lemma PublishKeepsMonitors(c: Channel, event: TrafficEvent, m: Monitor)
    requires MonitorOk(c, m)
    ensures MonitorOk(Published(c, event), m)
  {
    CoversLonger(m.received, c.log, event, m.attachedAt, m.cursor);
    assert (c.log + [event])[m.droppedBefore..m.attachedAt] == c.log[m.droppedBefore..m.attachedAt];
  }

  lemma PollKeepsMonitor(c: Channel, m: Monitor)
    requires MonitorOk(c, m)
    ensures MonitorOk(c, Polled(c, m))
  {
    var after := Polled(c, m);
    if after.received != m.received {
      assert after.received[..|after.received| - 1] == m.received;
    }
  }

  lemma StepKeepsSystem(s: System, action: Action)
    requires SystemOk(s)
    ensures SystemOk(Step(s, action))
  {
    match action
    case Publish(event) =>
      forall i | 0 <= i < |s.monitors| ensures MonitorOk(Published(s.channel, event), s.monitors[i]) {
        PublishKeepsMonitors(s.channel, event, s.monitors[i]);
      }
    case Attach(query) =>
      assert MonitorOk(s.channel, Attached(s.channel, query));
    case Poll(i) =>
      if i < |s.monitors| { PollKeepsMonitor(s.channel, s.monitors[i]); }
  }

  /** Under every interleaving the ring and every monitor stay in order, and the log is what was published. */
  lemma {:induction false} RunsStayInOrder(actions: seq<Action>)
    ensures SystemOk(Run(actions))
    ensures Run(actions).channel.log == PublishedBy(actions)
  {
    if actions != [] {
      RunsStayInOrder(actions[..|actions| - 1]);
      StepKeepsSystem(Run(actions[..|actions| - 1]), actions[|actions| - 1]);
    }
  }

  /** So the ring always holds the last 20,000 events and the counter the rest. */
  lemma RingIsTheRecentPast(actions: seq<Action>)
    ensures var all := PublishedBy(actions);
            var channel := Run(actions).channel;
            && channel.history == (if |all| <= 20_000 then all else all[|all| - 20_000..])
            && channel.dropped + |channel.history| == |all|
  {
    RunsStayInOrder(actions);
  }

  /** A monitor falls behind at the 2049th event it has not received, and is told how many of them it lost. */
  lemma FallsBehindAt2049(actions: seq<Action>, i: nat)
    requires i < |Run(actions).monitors|
    ensures var m := Run(actions).monitors[i];
            var after := Run(actions + [Poll(i)]).monitors[i];
            var behind := |PublishedBy(actions)| - m.cursor;
            && (behind == 0 ==> after == m)
            && (0 < behind <= 2048 ==> after == m.(cursor := m.cursor + 1, received := m.received + [Live(PublishedBy(actions)[m.cursor])]))
            && (behind > 2048 ==> after == m.(cursor := m.cursor + (behind - 2048), received := m.received + [Gap(behind - 2048)]))
  {
    RunsStayInOrder(actions);
    assert (actions + [Poll(i)])[..|actions|] == actions;
    assert MonitorOk(Run(actions).channel, Run(actions).monitors[i]);
    hide PublishedBy;
  }

  // ---------------------------------------------------------------- what a monitor has seen

  function AllLive(events: seq<TrafficEvent>): (items: seq<Item>)
    ensures |items| == |events| && forall k :: 0 <= k < |items| ==> items[k] == Live(events[k])
  {
    seq(|events|, k requires 0 <= k < |events| => Live(events[k]))
  }

  lemma {:induction false} SnapshotCovers(log: seq<TrafficEvent>, from: nat, upto: nat)
    requires from <= upto <= |log|
    ensures Covers(AllLive(log[from..upto]), log, from, upto)
    decreases upto
  {
    if from < upto {
      var items := AllLive(log[from..upto]);
      assert items[..|items| - 1] == AllLive(log[from..upto - 1]);
      SnapshotCovers(log, from, upto - 1);
    }
  }

  lemma {:induction false} CoversJoin(first: seq<Item>, second: seq<Item>, log: seq<TrafficEvent>, from: nat, mid: nat, upto: nat)
    requires Covers(first, log, from, mid) && Covers(second, log, mid, upto)
    ensures Covers(first + second, log, from, upto)
    decreases |second|
  {
    if second == [] {
      assert first + second == first;
    } else {
      var last, earlier := second[|second| - 1], second[..|second| - 1];
      assert (first + second)[..|first + second| - 1] == first + earlier;
      CoversJoin(first, earlier, log, from, mid, if last.Live? then upto - 1 else upto - last.missed);
    }
  }

  function Missed(items: seq<Item>): nat {
    if items == [] then 0
    else Missed(items[..|items| - 1]) + (if items[|items| - 1].Gap? then items[|items| - 1].missed else 0)
  }

  function LiveCount(items: seq<Item>): nat {
    if items == [] then 0
    else LiveCount(items[..|items| - 1]) + (if items[|items| - 1].Live? then 1 else 0)
  }

  lemma {:induction false} CoverageAddsUp(items: seq<Item>, log: seq<TrafficEvent>, from: nat, upto: nat)
    requires Covers(items, log, from, upto)
    ensures from + LiveCount(items) + Missed(items) == upto
    decreases |items|
  {
    if items != [] {
      var last, earlier := items[|items| - 1], items[..|items| - 1];
      CoverageAddsUp(earlier, log, from, if last.Live? then upto - 1 else upto - last.missed);
    }
  }

  /**
   * Snapshot and live feed together cover the published log from the oldest event the ring still
   * held: no duplicate, no gap where they meet, and every later gap announced with its length.
   */
  lemma MonitorSeesTheLog(actions: seq<Action>, i: nat)
    requires i < |Run(actions).monitors|
    ensures var m := Run(actions).monitors[i];
            var seen := AllLive(m.snapshot) + m.received;
            && Covers(seen, PublishedBy(actions), m.droppedBefore, m.cursor)
            && m.droppedBefore + LiveCount(seen) + Missed(seen) == m.cursor <= |PublishedBy(actions)|
  {
    RunsStayInOrder(actions);
    var s := Run(actions);
    var m := s.monitors[i];
    assert MonitorOk(s.channel, m);
    SnapshotCovers(s.channel.log, m.droppedBefore, m.attachedAt);
    CoversJoin(AllLive(m.snapshot), m.received, s.channel.log, m.droppedBefore, m.attachedAt, m.cursor);
    CoverageAddsUp(AllLive(m.snapshot) + m.received, s.channel.log, m.droppedBefore, m.cursor);
  }

  // ---------------------------------------------------------------- what a monitor is sent

  function WithoutFrames(events: seq<TrafficEvent>): (kept: seq<TrafficEvent>)
    ensures forall e :: e in kept <==> e in events && !IsFrameEvent(e)
    ensures |kept| <= |events|
  {
    if events == [] then []
    else (if IsFrameEvent(events[0]) then [] else [events[0]]) + WithoutFrames(events[1..])
  }

  /** What an item becomes in the feed. */
  function EventOf(item: Item): TrafficEvent {
    match item
    case Live(event) => event
    case Gap(missed) => Lagged(missed)
  }

  /** The live part of the feed, in order: frames left out if unwanted, gap markers never. */
  function Shown(items: seq<Item>, wantsFrames: bool): seq<TrafficEvent> {
    if items == [] then []
    else
      var event := EventOf(items[|items| - 1]);
      Shown(items[..|items| - 1], wantsFrames) + (if !wantsFrames && IsFrameEvent(event) then [] else [event])
  }

  function Flat(batches: seq<seq<TrafficEvent>>): seq<TrafficEvent> {
    if batches == [] then [] else Flat(batches[..|batches| - 1]) + batches[|batches| - 1]
  }

  ghost predicate BatchesFit(batches: seq<seq<TrafficEvent>>) {
    forall k :: 0 <= k < |batches| ==> 0 < |batches[k]| <= 64
  }

  /** The replay: what is kept of the snapshot, most recent last. */
  function KeptOf(snapshot: seq<TrafficEvent>, query: Query): seq<TrafficEvent> {
    var filtered := if query.frames == Some(false) then WithoutFrames(snapshot) else snapshot;
    if query.history.Some? && |filtered| > query.history.value then filtered[|filtered| - query.history.value..] else filtered
  }

  lemma FlatAppend(batches: seq<seq<TrafficEvent>>, batch: seq<TrafficEvent>)
    ensures Flat(batches + [batch]) == Flat(batches) + batch
  {
    assert (batches + [batch])[..|batches|] == batches;
  }

  /** The replayed part of `GET /events`, in batches: a summary line first, then what is kept, in order. */
  method ReplayBatches(snapshot: seq<TrafficEvent>, droppedBefore: nat, query: Query) returns (batches: seq<seq<TrafficEvent>>)
    ensures Flat(batches) == [Replayed(|KeptOf(snapshot, query)|, droppedBefore)] + KeptOf(snapshot, query)
    ensures BatchesFit(batches)
    ensures forall k :: 0 <= k < |batches| - 1 ==> |batches[k]| == 64
  {
    var wantsFrames := if query.frames.Some? then query.frames.value else true;
    var history := if wantsFrames then snapshot else WithoutFrames(snapshot);
    if query.history.Some? && |history| > query.history.value {
      history := history[|history| - query.history.value..];
    }
    var prelude := [Replayed(|history|, droppedBefore)] + history;
    batches := [];
    var done := 0;
    while done < |prelude|
      invariant done <= |prelude| && Flat(batches) == prelude[..done]
      invariant BatchesFit(batches)
      invariant forall k :: 0 <= k < |batches| ==> |batches[k]| == MAX_EVENTS_PER_BATCH || (done == |prelude| && k == |batches| - 1)
    {
      var next := if done + MAX_EVENTS_PER_BATCH < |prelude| then done + MAX_EVENTS_PER_BATCH else |prelude|;
      FlatAppend(batches, prelude[done..next]);
      assert prelude[..next] == prelude[..done] + prelude[done..next];
      batches := batches + [prelude[done..next]];
      done := next;
    }
    assert prelude[..|prelude|] == prelude;
  }

  /** An arrival, or the moment the gathering window closes. */
  datatype Arrival = Arrived(item: Item) | WindowClosed

  function ItemsOf(arrivals: seq<Arrival>): seq<Item> {
    if arrivals == [] then []
    else ItemsOf(arrivals[..|arrivals| - 1]) + (if arrivals[|arrivals| - 1].Arrived? then [arrivals[|arrivals| - 1].item] else [])
  }

  /** The batches and what is being gathered are, together, this feed. */
  ghost predicate Holds(batches: seq<seq<TrafficEvent>>, gathering: seq<TrafficEvent>, feed: seq<TrafficEvent>) {
    Flat(batches) + gathering == feed && BatchesFit(batches)
  }

  lemma GatherOne(batches: seq<seq<TrafficEvent>>, gathering: seq<TrafficEvent>, feed: seq<TrafficEvent>, event: TrafficEvent)
    requires Holds(batches, gathering, feed)
    ensures Holds(batches, gathering + [event], feed + [event])
  {
    assert Flat(batches) + (gathering + [event]) == (Flat(batches) + gathering) + [event];
  }

  lemma CloseBatch(batches: seq<seq<TrafficEvent>>, gathering: seq<TrafficEvent>, feed: seq<TrafficEvent>)
    requires Holds(batches, gathering, feed) && 0 < |gathering| <= MAX_EVENTS_PER_BATCH
    ensures Holds(batches + [gathering], [], feed)
  {
    FlatAppend(batches, gathering);
    assert (Flat(batches) + gathering) + [] == Flat(batches) + gathering;
  }

  /** The live part: gathered into batches that close when full or when the window does, losing and reordering nothing. */
  method LiveBatches(arrivals: seq<Arrival>, wantsFrames: bool) returns (batches: seq<seq<TrafficEvent>>, gathering: seq<TrafficEvent>)
    ensures Flat(batches) + gathering == Shown(ItemsOf(arrivals), wantsFrames)
    ensures BatchesFit(batches) && |gathering| < 64
  {
    batches, gathering := [], [];
    ghost var feed: seq<TrafficEvent> := [];
    assert arrivals[..0] == [] && Holds(batches, gathering, feed);
    assert Shown(ItemsOf(arrivals[..0]), wantsFrames) == feed;
    hide Holds, Shown, ItemsOf, EventOf, IsFrameEvent;
    for k := 0 to |arrivals|
      invariant Holds(batches, gathering, feed) && feed == Shown(ItemsOf(arrivals[..k]), wantsFrames)
      invariant |gathering| < MAX_EVENTS_PER_BATCH
    {
      ArrivalShown(arrivals, k, wantsFrames);
      if arrivals[k].Arrived? {
        var event := EventOf(arrivals[k].item);
        if wantsFrames || !IsFrameEvent(event) {
          GatherOne(batches, gathering, feed, event);
          gathering, feed := gathering + [event], feed + [event];
        }
      }
      if |gathering| == MAX_EVENTS_PER_BATCH || (arrivals[k] == WindowClosed && gathering != []) {
        CloseBatch(batches, gathering, feed);
        batches, gathering := batches + [gathering], [];
      }
      assert feed == Shown(ItemsOf(arrivals[..k + 1]), wantsFrames);
    }
    assert arrivals[..|arrivals|] == arrivals;
    HeldFeed(batches, gathering, feed);
  }

  lemma HeldFeed(batches: seq<seq<TrafficEvent>>, gathering: seq<TrafficEvent>, feed: seq<TrafficEvent>)
    requires Holds(batches, gathering, feed)
    ensures Flat(batches) + gathering == feed && BatchesFit(batches)
  {
  }

  /** What one more arrival adds to the feed. */
  lemma ArrivalShown(arrivals: seq<Arrival>, k: nat, wantsFrames: bool)
    requires k < |arrivals|
    ensures Shown(ItemsOf(arrivals[..k + 1]), wantsFrames)
            == Shown(ItemsOf(arrivals[..k]), wantsFrames)
               + if arrivals[k].Arrived? && (wantsFrames || !IsFrameEvent(EventOf(arrivals[k].item)))
                 then [EventOf(arrivals[k].item)] else []
  {
    assert arrivals[..k + 1][..k] == arrivals[..k];
    var before := ItemsOf(arrivals[..k]);
    if arrivals[k].Arrived? {
      assert ItemsOf(arrivals[..k + 1]) == before + [arrivals[k].item];
      ShownAppend(before, arrivals[k].item, wantsFrames);
    } else {
      assert ItemsOf(arrivals[..k + 1]) == before;
    }
  }

  lemma ShownAppend(items: seq<Item>, item: Item, wantsFrames: bool)
    ensures Shown(items + [item], wantsFrames)
            == Shown(items, wantsFrames) + (if !wantsFrames && IsFrameEvent(EventOf(item)) then [] else [EventOf(item)])
  {
    assert (items + [item])[..|items|] == items;
  }

  /** Leaving frames out takes nothing else away: the unfiltered feed without its frames. */
  lemma {:induction false} FramesAreAllThatIsLeftOut(items: seq<Item>)
    ensures Shown(items, false) == WithoutFrames(Shown(items, true))
  {
    if items != [] {
      var earlier, event := items[..|items| - 1], EventOf(items[|items| - 1]);
      FramesAreAllThatIsLeftOut(earlier);
      WithoutFramesAppend(Shown(earlier, true), event);
    }
  }

  /** What a feed without frames is spared are the CAN frames and DoIP messages; everything else stays. */
  lemma SparedAreFramesAndDoIp(items: seq<Item>)
    ensures forall e :: e in Shown(items, false) <==> e in Shown(items, true) && !e.Frame? && !e.DoIp?
  {
    FramesAreAllThatIsLeftOut(items);
    hide Shown;
  }

  lemma {:induction false} WithoutFramesJoin(a: seq<TrafficEvent>, b: seq<TrafficEvent>)
    ensures WithoutFrames(a + b) == WithoutFrames(a) + WithoutFrames(b)
  {
    if a == [] {
      assert a + b == b;
    } else {
      assert (a + b)[1..] == a[1..] + b;
      WithoutFramesJoin(a[1..], b);
    }
  }

  lemma WithoutFramesAppend(events: seq<TrafficEvent>, event: TrafficEvent)
    ensures WithoutFrames(events + [event]) == WithoutFrames(events) + (if IsFrameEvent(event) then [] else [event])
  {
    WithoutFramesJoin(events, [event]);
    assert [event][1..] == [];
  }

  // ---------------------------------------------------------------- the whole feed

  function Wanted(events: seq<TrafficEvent>, wantsFrames: bool): seq<TrafficEvent> {
    if wantsFrames then events else WithoutFrames(events)
  }

  /** The last so many events, or all of them. */
  function Recent(events: seq<TrafficEvent>, limit: Option<nat>): seq<TrafficEvent> {
    if limit.Some? && |events| > limit.value then events[|events| - limit.value..] else events
  }

  /** A stretch of the log a monitor was told it missed. */
  datatype Hole = Hole(at: nat, missed: nat)

  /** Holes in order, none of them empty, between two positions of the log. */
  ghost predicate HolesFit(holes: seq<Hole>, from: nat, upto: nat)
    decreases |holes|
  {
    if holes == [] then from <= upto
    else
      var h := holes[|holes| - 1];
      h.missed > 0 && h.at + h.missed <= upto && HolesFit(holes[..|holes| - 1], from, h.at)
  }

  /** The log from one position to another with each hole replaced by a marker of its length, frames left out if unwanted. */
  ghost function WithHoles(log: seq<TrafficEvent>, from: nat, holes: seq<Hole>, upto: nat, wantsFrames: bool): seq<TrafficEvent>
    requires HolesFit(holes, from, upto) && upto <= |log|
    decreases |holes|
  {
    if holes == [] then Wanted(log[from..upto], wantsFrames)
    else
      var h := holes[|holes| - 1];
      WithHoles(log, from, holes[..|holes| - 1], h.at, wantsFrames) + [Lagged(h.missed)]
      + Wanted(log[h.at + h.missed..upto], wantsFrames)
  }

  /** Where the gaps among these items lie, counted from where the monitor attached. */
  ghost function HolesIn(items: seq<Item>, from: nat): seq<Hole> {
    if items == [] then []
    else
      var earlier, last := items[..|items| - 1], items[|items| - 1];
      HolesIn(earlier, from) + (if last.Gap? then [Hole(from + LiveCount(earlier) + Missed(earlier), last.missed)] else [])
  }

  lemma WantedNext(log: seq<TrafficEvent>, from: nat, upto: nat, wantsFrames: bool)
    requires from < upto <= |log|
    ensures Wanted(log[from..upto], wantsFrames) == Wanted(log[from..upto - 1], wantsFrames) + Wanted([log[upto - 1]], wantsFrames)
  {
    assert log[from..upto] == log[from..upto - 1] + [log[upto - 1]];
    WithoutFramesJoin(log[from..upto - 1], [log[upto - 1]]);
  }

  /** One more event after the last hole. */
  lemma WithHolesNext(log: seq<TrafficEvent>, from: nat, holes: seq<Hole>, upto: nat, wantsFrames: bool)
    requires 0 < upto <= |log| && HolesFit(holes, from, upto - 1)
    ensures HolesFit(holes, from, upto)
    ensures WithHoles(log, from, holes, upto, wantsFrames)
            == WithHoles(log, from, holes, upto - 1, wantsFrames) + Wanted([log[upto - 1]], wantsFrames)
  {
    hide Wanted;
    var start := if holes == [] then from else holes[|holes| - 1].at + holes[|holes| - 1].missed;
    WantedNext(log, start, upto, wantsFrames);
  }

  /** One more hole. */
  lemma WithHolesOneMore(log: seq<TrafficEvent>, from: nat, holes: seq<Hole>, h: Hole, wantsFrames: bool)
    requires h.missed > 0 && h.at + h.missed <= |log| && HolesFit(holes, from, h.at)
    ensures HolesFit(holes + [h], from, h.at + h.missed)
    ensures WithHoles(log, from, holes + [h], h.at + h.missed, wantsFrames)
            == WithHoles(log, from, holes, h.at, wantsFrames) + [Lagged(h.missed)]
  {
    var more := holes + [h];
    assert more[..|more| - 1] == holes;
    assert log[h.at + h.missed..h.at + h.missed] == [];
  }

  lemma ShownIsWanted(item: Item, wantsFrames: bool)
    ensures (if !wantsFrames && IsFrameEvent(EventOf(item)) then [] else [EventOf(item)]) == Wanted([EventOf(item)], wantsFrames)
  {
    assert [EventOf(item)][1..] == [];
  }

  /** What a monitor is sent live, frames or no frames and gaps or no gaps, is that stretch of the log with its holes marked. */
  lemma {:induction false} LiveFeedIsTheLog(items: seq<Item>, log: seq<TrafficEvent>, from: nat, upto: nat, wantsFrames: bool)
    requires from <= |log| && Covers(items, log, from, upto)
    ensures upto <= |log| && HolesFit(HolesIn(items, from), from, upto)
    ensures Shown(items, wantsFrames) == WithHoles(log, from, HolesIn(items, from), upto, wantsFrames)
    decreases |items|
  {
    hide Wanted, HolesFit, WithHoles, LiveCount, Missed, IsFrameEvent;
    if items == [] {
      NoHoles(log, from, wantsFrames);
    } else {
      var earlier, last := items[..|items| - 1], items[|items| - 1];
      match last
      case Live(event) =>
        LiveFeedIsTheLog(earlier, log, from, upto - 1, wantsFrames);
        WithHolesNext(log, from, HolesIn(earlier, from), upto, wantsFrames);
        ShownIsWanted(last, wantsFrames);
        assert HolesIn(earlier, from) + [] == HolesIn(earlier, from);
      case Gap(missed) =>
        LiveFeedIsTheLog(earlier, log, from, upto - missed, wantsFrames);
        CoverageAddsUp(earlier, log, from, upto - missed);
        WithHolesOneMore(log, from, HolesIn(earlier, from), Hole(upto - missed, missed), wantsFrames);
        assert !IsFrameEvent(Lagged(missed)) by { LaggedIsNoFrame(missed); }
    }
  }

  lemma LaggedIsNoFrame(missed: nat)
    ensures !IsFrameEvent(Lagged(missed))
  {
  }

  lemma NoHoles(log: seq<TrafficEvent>, from: nat, wantsFrames: bool)
    requires from <= |log|
    ensures HolesFit([], from, from) && WithHoles(log, from, [], from, wantsFrames) == []
  {
  }

  /**
   * End to end, for any monitor of any run: what it is sent, replay and live feed joined, is the most
   * recent part it asked for of what the ring held, then everything published since up to its cursor
   * with each stretch it missed replaced by a marker of exactly that length; frame events are left out
   * if it did not want them.
   */
  lemma FeedIsTheLog(actions: seq<Action>, i: nat)
    requires i < |Run(actions).monitors|
    ensures var m, log := Run(actions).monitors[i], PublishedBy(actions);
            var wantsFrames, holes := m.query.frames != Some(false), HolesIn(m.received, m.attachedAt);
            && m.droppedBefore <= m.attachedAt <= m.cursor <= |log|
            && HolesFit(holes, m.attachedAt, m.cursor)
            && KeptOf(m.snapshot, m.query) == Recent(Wanted(log[m.droppedBefore..m.attachedAt], wantsFrames), m.query.history)
            && Shown(m.received, wantsFrames) == WithHoles(log, m.attachedAt, holes, m.cursor, wantsFrames)
  {
    hide Run, PublishedBy, RingOk, Covers, Missed, Shown, WithoutFrames, WithHoles, HolesIn, HolesFit;
    RunsStayInOrder(actions);
    var s := Run(actions);
    var m := s.monitors[i];
    assert MonitorOk(s.channel, m);
    LiveFeedIsTheLog(m.received, s.channel.log, m.attachedAt, m.cursor, m.query.frames != Some(false));
  }

  /** In particular a monitor that asked for everything and never lagged is sent one unbroken stretch of the log. */
  lemma UnbrokenFeed(actions: seq<Action>, i: nat)
    requires i < |Run(actions).monitors|
    requires Run(actions).monitors[i].query.history.None? && Missed(Run(actions).monitors[i].received) == 0
    ensures var m := Run(actions).monitors[i];
            var wantsFrames := m.query.frames != Some(false);
            && m.droppedBefore <= m.cursor <= |PublishedBy(actions)|
            && KeptOf(m.snapshot, m.query) + Shown(m.received, wantsFrames)
               == Wanted(PublishedBy(actions)[m.droppedBefore..m.cursor], wantsFrames)
  {
    RunsStayInOrder(actions);
    var s := Run(actions);
    var m := s.monitors[i];
    assert MonitorOk(s.channel, m);
    hide Run, PublishedBy, SystemOk, RingOk, Covers, Missed, Shown, WithoutFrames;
    UnbrokenStretch(m, s.channel.log);
  }

  lemma UnbrokenStretch(m: Monitor, log: seq<TrafficEvent>)
    requires m.droppedBefore <= m.attachedAt <= |log| && m.snapshot == log[m.droppedBefore..m.attachedAt]
    requires Covers(m.received, log, m.attachedAt, m.cursor) && Missed(m.received) == 0 && m.query.history.None?
    ensures var wantsFrames := m.query.frames != Some(false);
            && m.attachedAt <= m.cursor <= |log|
            && KeptOf(m.snapshot, m.query) + Shown(m.received, wantsFrames) == Wanted(log[m.droppedBefore..m.cursor], wantsFrames)
  {
    hide Covers, Missed, Shown, Wanted, KeptOf;
    var wantsFrames := m.query.frames != Some(false);
    UnbrokenLive(m.received, log, m.attachedAt, m.cursor, wantsFrames);
    WholeSnapshotKept(m.snapshot, m.query);
    WantedJoin(log, m.droppedBefore, m.attachedAt, m.cursor, wantsFrames);
  }

  lemma UnbrokenLive(items: seq<Item>, log: seq<TrafficEvent>, from: nat, upto: nat, wantsFrames: bool)
    requires from <= |log| && Covers(items, log, from, upto) && Missed(items) == 0
    ensures from <= upto <= |log| && Shown(items, wantsFrames) == Wanted(log[from..upto], wantsFrames)
  {
    LiveFeedIsTheLog(items, log, from, upto, wantsFrames);
    NoHolesIn(items, log, from, upto);
    hide Covers, Missed, Shown, Wanted, HolesIn;
  }

  lemma WholeSnapshotKept(snapshot: seq<TrafficEvent>, query: Query)
    requires query.history.None?
    ensures KeptOf(snapshot, query) == Wanted(snapshot, query.frames != Some(false))
  {
  }

  lemma WantedJoin(log: seq<TrafficEvent>, from: nat, mid: nat, upto: nat, wantsFrames: bool)
    requires from <= mid <= upto <= |log|
    ensures Wanted(log[from..upto], wantsFrames) == Wanted(log[from..mid], wantsFrames) + Wanted(log[mid..upto], wantsFrames)
  {
    hide WithoutFrames;
    assert log[from..upto] == log[from..mid] + log[mid..upto];
    WithoutFramesJoin(log[from..mid], log[mid..upto]);
  }

  lemma {:induction false} NoHolesIn(items: seq<Item>, log: seq<TrafficEvent>, from: nat, upto: nat)
    requires Covers(items, log, from, upto) && Missed(items) == 0
    ensures HolesIn(items, from) == []
    decreases |items|
  {
    if items != [] {
      match items[|items| - 1]
      case Live(_) => NoHolesIn(items[..|items| - 1], log, from, upto - 1);
      case Gap(_) => assert false;
    }
  }
}
