/**
 * Whatever frames come, where a message comes from: every message a receiver completes, live or in a capture,
 * is what one single frame carries, or a first frame and consecutive ones numbered on from it.
 */
module IsoTpRuns {
  import opened Basics
  import opened Pacing
  import opened IsoTp
  import opened IsoTpCapture

  // ---------------------------------------------------------------- what a message may come from

  /** Who reads: the capture reader, or a live physical receiver with room for so many bytes. */
  datatype Reader = OfCapture | Live(room: nat)

  /** The lengths a reader takes from a first frame. */
  ghost predicate Takes(reader: Reader, length: nat) {
    match reader
    case OfCapture => length > 0
    case Live(room) => 7 < length <= room
  }

  /** A first frame, and consecutive frames numbered 1, 2 and so on up to 15 and over. */
  ghost predicate InSequence(frames: seq<Data>, places: seq<nat>) {
    && places != [] && Rising(places, |frames|)
    && |frames[places[0]]| >= 2 && 0x10 <= frames[places[0]][0] <= 0x1F
    && forall k :: 0 < k < |places| ==> frames[places[k]] != [] && frames[places[k]][0] == 0x20 + k % 16
  }

  /** The length such frames announce. */
  ghost function Total(frames: seq<Data>, places: seq<nat>): nat
    requires InSequence(frames, places)
  {
    (frames[places[0]][0] as int - 0x10) * 256 + frames[places[0]][1]
  }

  /** Everything they carry, behind two bytes of the first and one of every other. */
  ghost function Joined(frames: seq<Data>, places: seq<nat>): Data
    requires InSequence(frames, places)
    decreases |places|
  {
    if |places| == 1 then frames[places[0]][2..]
    else
      FewerInSequence(frames, places);
      Joined(frames, places[..|places| - 1]) + frames[places[|places| - 1]][1..]
  }

  lemma FewerInSequence(frames: seq<Data>, places: seq<nat>)
    requires InSequence(frames, places) && |places| > 1
    ensures InSequence(frames, places[..|places| - 1]) && Total(frames, places[..|places| - 1]) == Total(frames, places)
  {
  }

  /** Frames that disturb nothing: flow control and empty ones; live, also reserved types and first frames announcing too little. */
  ghost predicate IsPassedOver(data: Data, reader: Reader) {
    || data == [] || 0x30 <= data[0] <= 0x3F
    || (reader.Live? && data[0] >= 0x40)
    || (reader.Live? && 0x10 <= data[0] <= 0x1F && (|data| < 2 || (data[0] == 0x10 && data[1] <= 7)))
  }

  ghost predicate Undisturbed(frames: seq<Data>, places: seq<nat>, upto: nat, reader: Reader)
    requires places != [] && upto <= |frames|
  {
    forall i :: places[0] <= i < upto && i !in places ==> IsPassedOver(frames[i], reader)
  }

  /** Such a run gives this message: of the length announced, and complete with the last frame and no sooner. */
  ghost predicate IsTransfer(frames: seq<Data>, places: seq<nat>, message: Data, reader: Reader) {
    && InSequence(frames, places) && |places| > 1 && Undisturbed(frames, places, places[|places| - 1], reader)
    && |message| == Total(frames, places) && Takes(reader, |message|)
    && message <= Joined(frames, places)
    && (|places| == 2 || (FewerInSequence(frames, places); |Joined(frames, places[..|places| - 1])| < |message|))
  }

  /** One frame gives this message: behind its length in four bits or, in a capture, behind a zero and its length in eight. */
  ghost predicate IsSingle(frame: Data, message: Data, reader: Reader) {
    && message != []
    && (([|message|] + message <= frame && |message| <= 15) || (reader.OfCapture? && [0, |message|] + message <= frame))
  }

  ghost predicate ComesFrom(frames: seq<Data>, places: seq<nat>, message: Data, reader: Reader) {
    && places != []
    && if |places| == 1 then places[0] < |frames| && IsSingle(frames[places[0]], message, reader)
    else IsTransfer(frames, places, message, reader)
  }

  /** After `n` frames a run is underway. */
  ghost predicate Underway(frames: seq<Data>, places: seq<nat>, n: nat, p: Partial, reader: Reader)
    requires n <= |frames|
  {
    && InSequence(frames, places) && places[|places| - 1] < n && Undisturbed(frames, places, n, reader)
    && |p.buffer| + p.remaining == Total(frames, places) && Takes(reader, Total(frames, places))
    && p.buffer <= Joined(frames, places)
    && (|p.buffer| == |Joined(frames, places)| || (p.remaining == 0 && |places| == 1))
    && (p.remaining == 0 ==> |places| == 1)
    && p.nextSequence == |places| % 16
  }

  // ---------------------------------------------------------------- one frame more

  lemma RunStarts(frames: seq<Data>, n: nat, reader: Reader)
    requires n < |frames| && |frames[n]| >= 2 && frames[n][0] / 16 == 1 && Takes(reader, Announced(frames[n]))
    ensures var taken := Min(|frames[n]| - 2, Announced(frames[n]));
            Underway(frames, [n], n + 1, Partial(frames[n][2..2 + taken], Announced(frames[n]) - taken, 1), reader)
  {
    assert InSequence(frames, [n]);
  }

  lemma RunIsUndisturbed(frames: seq<Data>, places: seq<nat>, n: nat, p: Partial, reader: Reader)
    requires n < |frames| && Underway(frames, places, n, p, reader) && IsPassedOver(frames[n], reader)
    ensures Underway(frames, places, n + 1, p, reader)
  {
  }

  lemma OneMoreInSequence(frames: seq<Data>, places: seq<nat>, n: nat)
    requires InSequence(frames, places) && places[|places| - 1] < n < |frames|
    requires frames[n] != [] && frames[n][0] == 0x20 + |places| % 16
    ensures InSequence(frames, places + [n]) && Total(frames, places + [n]) == Total(frames, places)
    ensures Joined(frames, places + [n]) == Joined(frames, places) + frames[n][1..]
  {
    LongerInSequence(frames, places, n);
    hide InSequence;
    assert (places + [n])[..|places|] == places && (places + [n])[|places|] == n;
  }

  lemma LongerInSequence(frames: seq<Data>, places: seq<nat>, n: nat)
    requires InSequence(frames, places) && places[|places| - 1] < n < |frames|
    requires frames[n] != [] && frames[n][0] == 0x20 + |places| % 16
    ensures places != [] && InSequence(frames, places + [n]) && Total(frames, places + [n]) == Total(frames, places)
  {
    var longer := places + [n];
    assert Rising(longer, |frames|);
    forall k | 0 < k < |longer| ensures frames[longer[k]] != [] && frames[longer[k]][0] == 0x20 + k % 16 {
      assert longer[k] == if k < |places| then places[k] else n;
    }
  }

  lemma RunGoesOn(frames: seq<Data>, places: seq<nat>, n: nat, p: Partial, reader: Reader)
    requires n < |frames| && Underway(frames, places, n, p, reader)
    requires frames[n] != [] && frames[n][0] == 0x20 + p.nextSequence
    ensures places != []
    ensures var taken := Min(|frames[n]| - 1, p.remaining);
            var q := Partial(p.buffer + frames[n][1..1 + taken], p.remaining - taken, (p.nextSequence + 1) % 16);
            if q.remaining == 0 then IsTransfer(frames, places + [n], q.buffer, reader) else Underway(frames, places + [n], n + 1, q, reader)
  {
    hide InSequence, Total, Joined, IsPassedOver, Min;
    FollowsInSequence(frames, places, n, p, reader);
    var taken, longer := Min(|frames[n]| - 1, p.remaining), places + [n];
    TakenIsLess(|frames[n]| - 1, p.remaining);
    var buffer := p.buffer + frames[n][1..1 + taken];
    PrefixGrows(p.buffer, Joined(frames, places), frames[n], taken, p.remaining);
    assert longer[..|places|] == places && longer[|places|] == n;
    assert |buffer| == |p.buffer| + taken;
    if taken == p.remaining {
      assert |places| > 1 ==> |Joined(frames, places)| < |buffer|;
      assert |longer| > 2 ==> |Joined(frames, longer[..|longer| - 1])| < |buffer|;
    } else {
      UndisturbedAfter(frames, places, n, reader);
    }
  }

  lemma TakenIsLess(there: nat, remaining: nat)
    ensures Min(there, remaining) <= remaining && Min(there, remaining) <= there && (Min(there, remaining) < remaining ==> Min(there, remaining) == there)
  {
  }

  lemma UndisturbedAfter(frames: seq<Data>, places: seq<nat>, n: nat, reader: Reader)
    requires places != [] && n < |frames| && Undisturbed(frames, places, n, reader)
    ensures Undisturbed(frames, places + [n], n, reader) && Undisturbed(frames, places + [n], n + 1, reader)
  {
    hide IsPassedOver;
    assert n in places + [n] by { assert (places + [n])[|places|] == n; }
  }

  lemma FollowsInSequence(frames: seq<Data>, places: seq<nat>, n: nat, p: Partial, reader: Reader)
    requires n < |frames| && Underway(frames, places, n, p, reader)
    requires frames[n] != [] && frames[n][0] == 0x20 + p.nextSequence
    ensures places != [] && InSequence(frames, places) && InSequence(frames, places + [n]) && Total(frames, places + [n]) == Total(frames, places)
    ensures Joined(frames, places + [n]) == Joined(frames, places) + frames[n][1..]
    ensures Undisturbed(frames, places + [n], n, reader)
    ensures (p.nextSequence + 1) % 16 == |places + [n]| % 16
  {
    hide IsPassedOver, Total, Joined, InSequence;
    NumbersWrap(|places|);
    HasPlaces(frames, places);
    OneMoreInSequence(frames, places, n);
    UndisturbedAfter(frames, places, n, reader);
  }

  lemma HasPlaces(frames: seq<Data>, places: seq<nat>)
    requires InSequence(frames, places)
    ensures places != []
  {
  }

  lemma NumbersWrap(n: nat)
    ensures (n % 16 + 1) % 16 == (n + 1) % 16
  {
  }

  lemma PrefixGrows(buffer: Data, joined: Data, frame: Data, taken: nat, remaining: nat)
    requires buffer <= joined && frame != [] && taken == Min(|frame| - 1, remaining)
    requires |buffer| == |joined| || remaining == 0
    ensures buffer + frame[1..1 + taken] <= joined + frame[1..]
    ensures taken < remaining ==> |buffer + frame[1..1 + taken]| == |joined + frame[1..]|
  {
    if |buffer| == |joined| {
      assert buffer == joined[..|buffer|] == joined;
    }
  }

  // ---------------------------------------------------------------- a capture

  /** Where every message found comes from, in the order found, each run over before the next begins. */
  ghost predicate Sources(frames: seq<Data>, sources: seq<seq<nat>>, messages: seq<Data>, n: nat, reader: Reader) {
    && |sources| == |messages|
    && (forall i :: 0 <= i < |sources| ==>
          sources[i] != [] && sources[i][|sources[i]| - 1] < n && ComesFrom(frames, sources[i], messages[i], reader))
    && (forall i, j :: 0 <= i < j < |sources| ==> sources[i][|sources[i]| - 1] < sources[j][0])
  }

  ghost predicate AllBefore(sources: seq<seq<nat>>, n: nat) {
    forall i :: 0 <= i < |sources| && sources[i] != [] ==> sources[i][|sources[i]| - 1] < n
  }

  lemma OneMoreSource(frames: seq<Data>, sources: seq<seq<nat>>, messages: seq<Data>, n: nat, reader: Reader, places: seq<nat>, message: Data)
    requires Sources(frames, sources, messages, n, reader)
    requires places != [] && ComesFrom(frames, places, message, reader) && places[|places| - 1] == n && AllBefore(sources, places[0])
    ensures Sources(frames, sources + [places], messages + [message], n + 1, reader)
  {
    hide ComesFrom, IsTransfer, IsSingle;
  }

  lemma SourcesLater(frames: seq<Data>, sources: seq<seq<nat>>, messages: seq<Data>, n: nat, reader: Reader)
    requires Sources(frames, sources, messages, n, reader)
    ensures Sources(frames, sources, messages, n + 1, reader) && AllBefore(sources, n)
  {
    hide ComesFrom;
  }

  /** What one frame does to what a receiver of either kind has in progress. */
  ghost predicate Moves(frames: seq<Data>, n: nat, before: Option<Partial>, after: Option<Partial>, found: Option<Data>, reader: Reader)
    requires n < |frames|
  {
    var data := frames[n];
    || (after.None? && found.None?)
    || (after == before && found.None? && IsPassedOver(data, reader))
    || (after.None? && found.Some? && IsSingle(data, found.value, reader))
    || (found.None? && |data| >= 2 && data[0] / 16 == 1 && Takes(reader, Announced(data))
        && var taken := Min(|data| - 2, Announced(data));
           after == Some(Partial(data[2..2 + taken], Announced(data) - taken, 1)))
    || (before.Some? && data != [] && data[0] == 0x20 + before.value.nextSequence
        && var p := before.value;
           var taken := Min(|data| - 1, p.remaining);
           var q := Partial(p.buffer + data[1..1 + taken], p.remaining - taken, (p.nextSequence + 1) % 16);
           if q.remaining == 0 then after.None? && found == Some(q.buffer) else after == Some(q) && found.None?)
  }

  lemma OneMoreFrame(frames: seq<Data>, n: nat, before: Option<Partial>, after: Option<Partial>, messages: seq<Data>, found: Option<Data>,
                     places: seq<nat>, sources: seq<seq<nat>>, reader: Reader) returns (now: seq<nat>, known: seq<seq<nat>>)
    requires n < |frames| && Moves(frames, n, before, after, found, reader)
    requires before.Some? ==> Underway(frames, places, n, before.value, reader) && AllBefore(sources, places[0])
    requires Sources(frames, sources, messages, n, reader)
    ensures after.Some? ==> Underway(frames, now, n + 1, after.value, reader) && AllBefore(known, now[0])
    ensures Sources(frames, known, messages + (if found.Some? then [found.value] else []), n + 1, reader)
  {
    hide Sources, IsTransfer, IsSingle, IsPassedOver, Undisturbed, InSequence, Joined, Total, Announced;
    SourcesLater(frames, sources, messages, n, reader);
    now, known := places, sources;
    assert messages + [] == messages;
    var data := frames[n];
    if after.None? && found.None? {
    } else if after == before && found.None? && IsPassedOver(data, reader) {
      RunIsUndisturbed(frames, places, n, before.value, reader);
    } else if found.None? && |data| >= 2 && data[0] / 16 == 1 && Takes(reader, Announced(data)) {
      RunStarts(frames, n, reader);
      now := [n];
    } else if after.None? && found.Some? && IsSingle(data, found.value, reader) {
      known := sources + [[n]];
      OneMoreSource(frames, sources, messages, n, reader, [n], found.value);
    } else {
      RunGoesOn(frames, places, n, before.value, reader);
      now := places + [n];
      if found.Some? {
        known := sources + [now];
        OneMoreSource(frames, sources, messages, n, reader, now, found.value);
      }
    }
  }

  lemma CaptureMoves(frames: seq<Data>, n: nat)
    requires n < |frames|
    ensures var before, after := Reassembled(frames[..n]), Reassembled(frames[..n + 1]);
            && |before.messages| <= |after.messages| <= |before.messages| + 1
            && var found := if |after.messages| > |before.messages| then Some(after.messages[|before.messages|]) else None;
               && after.messages == before.messages + (if found.Some? then [found.value] else [])
               && Moves(frames, n, before.partial, after.partial, found, OfCapture)
  {
    assert frames[..n + 1][..n] == frames[..n];
  }

  /** Where every message found in a capture comes from, and what is underway at its end. */
  lemma {:induction false} CaptureExplained(frames: seq<Data>, n: nat) returns (places: seq<nat>, sources: seq<seq<nat>>)
    requires n <= |frames|
    ensures var c := Reassembled(frames[..n]);
            && Sources(frames, sources, c.messages, n, OfCapture)
            && (c.partial.Some? ==> Underway(frames, places, n, c.partial.value, OfCapture) && AllBefore(sources, places[0]))
  {
    hide Sources, Underway, Moves, AllBefore, Observed;
    if n == 0 {
      places, sources := [], [];
      NothingYet(frames, OfCapture);
      assert frames[..0] == [];
    } else {
      var earlier, known := CaptureExplained(frames, n - 1);
      CaptureMoves(frames, n - 1);
      var before, after := Reassembled(frames[..n - 1]), Reassembled(frames[..n]);
      var found := if |after.messages| > |before.messages| then Some(after.messages[|before.messages|]) else None;
      places, sources := OneMoreFrame(frames, n - 1, before.partial, after.partial, before.messages, found, earlier, known, OfCapture);
    }
  }

  lemma NothingYet(frames: seq<Data>, reader: Reader)
    ensures Sources(frames, [], [], 0, reader)
  {
  }

  // ---------------------------------------------------------------- a live receiver

  /** What a receiver has in progress, block counts aside. */
  ghost function InProgress(rx: Rx): Option<Partial> {
    if rx.pending.None? then None
    else Some(Partial(rx.pending.value.buffer, rx.pending.value.remaining, rx.pending.value.nextSequence))
  }

  /** Whatever comes, what a receiver has in progress is of a length it has room for, and more than a single frame's. */
  ghost predicate HasRoom(rx: Rx) {
    rx.pending.Some? ==>
      && !rx.isFunctional && rx.pending.value.remaining + |rx.pending.value.buffer| > 7
      && |rx.pending.value.buffer| + rx.pending.value.remaining <= rx.maxPduLength
  }

  /** A functional receiver has nothing in progress, ever; no receiver completes more than it has room for, save in one frame. */
  lemma {:induction false} ReceiversKeepWithinRoom(rx: Rx, frames: seq<Data>)
    requires HasRoom(rx)
    ensures HasRoom(Listened(rx, frames).rx) && Listened(rx, frames).rx.(pending := None) == rx.(pending := None)
    ensures forall m :: m in Listened(rx, frames).messages ==> 1 <= |m| && (|m| <= 15 || (!rx.isFunctional && |m| <= rx.maxPduLength))
  {
    hide Received;
    if frames != [] {
      var earlier := frames[..|frames| - 1];
      ReceiversKeepWithinRoom(rx, earlier);
      OneFrameKeepsWithinRoom(Listened(rx, earlier).rx, frames[|frames| - 1]);
    }
  }

  lemma OneFrameKeepsWithinRoom(rx: Rx, data: Data)
    requires HasRoom(rx)
    ensures var (next, outcome) := Received(rx, data);
            && HasRoom(next) && next.(pending := None) == rx.(pending := None)
            && (outcome.Completed? ==> 1 <= |outcome.pdu| && (|outcome.pdu| <= 15 || (!rx.isFunctional && |outcome.pdu| <= rx.maxPduLength)))
            && (outcome.Refused? ==> !rx.isFunctional && [0x32, rx.params.blockSize, rx.params.separationTimeMin] <= outcome.frame)
            && (outcome.SendFlowControl? ==> !rx.isFunctional && [0x30, rx.params.blockSize, rx.params.separationTimeMin] <= outcome.frame)
  {
  }

  lemma ReceiverMoves(rx: Rx, frames: seq<Data>, n: nat)
    requires n < |frames| && HasRoom(rx)
    ensures var (next, outcome) := Received(rx, frames[n]);
            Moves(frames, n, InProgress(rx), InProgress(next), if outcome.Completed? then Some(outcome.pdu) else None, Live(rx.maxPduLength))
  {
    var data := frames[n];
    if data != [] && data[0] / 16 == 0 {
      SingleIsTaken(rx, data);
    } else if data != [] && data[0] / 16 == 2 && rx.pending.Some? {
      assert data[0] == 0x20 + data[0] % 16;
    }
  }

  lemma SingleIsTaken(rx: Rx, data: Data)
    requires data != [] && data[0] / 16 == 0
    ensures var (next, outcome) := Received(rx, data);
            next.pending.None? && (outcome == Nothing || (outcome.Completed? && IsSingle(data, outcome.pdu, Live(rx.maxPduLength))))
  {
    var length := data[0] % 16;
    if length != 0 && length + 1 <= |data| {
      assert [length] + data[1..1 + length] == data[..1 + length];
    }
  }

  /** Where every message a receiver completes comes from. */
  lemma {:induction false} ReceivingExplained(rx: Rx, frames: seq<Data>, n: nat) returns (places: seq<nat>, sources: seq<seq<nat>>)
    requires n <= |frames| && rx.pending.None?
    ensures var l := Listened(rx, frames[..n]);
            && Sources(frames, sources, l.messages, n, Live(rx.maxPduLength))
            && (l.rx.pending.Some? ==> Underway(frames, places, n, InProgress(l.rx).value, Live(rx.maxPduLength)) && AllBefore(sources, places[0]))
  {
    hide Sources, Underway, Moves, AllBefore, Received;
    if n == 0 {
      places, sources := [], [];
      NothingYet(frames, Live(rx.maxPduLength));
      assert frames[..0] == [];
    } else {
      var earlier, known := ReceivingExplained(rx, frames, n - 1);
      var before := Listened(rx, frames[..n - 1]);
      assert frames[..n][..n - 1] == frames[..n - 1];
      ReceiversKeepWithinRoom(rx, frames[..n - 1]);
      ReceiverMoves(before.rx, frames, n - 1);
      var (next, outcome) := Received(before.rx, frames[n - 1]);
      var found := if outcome.Completed? then Some(outcome.pdu) else None;
      places, sources := OneMoreFrame(frames, n - 1, InProgress(before.rx), InProgress(next), before.messages, found, earlier, known, Live(rx.maxPduLength));
      assert before.messages + [] == before.messages;
    }
  }

  // ---------------------------------------------------------------- what receivers promise of any traffic

  /** Every message a capture is found to hold is one frame's, or an unbroken run's of the length its first frame announces. */
  lemma CaptureFindsOnlyMessages(frames: seq<Data>) returns (sources: seq<seq<nat>>)
    ensures Sources(frames, sources, Reassembled(frames).messages, |frames|, OfCapture)
  {
    var places: seq<nat>;
    places, sources := CaptureExplained(frames, |frames|);
    assert frames[..|frames|] == frames;
  }

  /** So is every message a receiver completes, and those of several frames are longer than seven bytes. */
  lemma ReceiverFindsOnlyMessages(rx: Rx, frames: seq<Data>) returns (sources: seq<seq<nat>>)
    requires rx.pending.None?
    ensures Sources(frames, sources, Listened(rx, frames).messages, |frames|, Live(rx.maxPduLength))
  {
    var places: seq<nat>;
    places, sources := ReceivingExplained(rx, frames, |frames|);
    assert frames[..|frames|] == frames;
  }

  // ---------------------------------------------------------------- nothing is missed

  ghost predicate IsStart(data: Data, reader: Reader) {
    |data| >= 2 && data[0] / 16 == 1 && Takes(reader, Announced(data))
  }

  ghost function Started(data: Data): Partial
    requires |data| >= 2
  {
    var taken := Min(|data| - 2, Announced(data));
    Partial(data[2..2 + taken], Announced(data) - taken, 1)
  }

  ghost function GoneOn(p: Partial, data: Data): Partial
    requires data != []
  {
    var taken := Min(|data| - 1, p.remaining);
    Partial(p.buffer + data[1..1 + taken], p.remaining - taken, (p.nextSequence + 1) % 16)
  }

  /** What a receiver does with a frame it cannot pass by. */
  ghost predicate Heeds(data: Data, before: Option<Partial>, after: Option<Partial>, found: Option<Data>, reader: Reader) {
    && (before.Some? && IsPassedOver(data, reader) ==> after == before)
    && (IsStart(data, reader) ==> after == Some(Started(data)))
    && (before.Some? && before.value.nextSequence < 16 && data != [] && data[0] == 0x20 + before.value.nextSequence ==>
          var q := GoneOn(before.value, data);
          if q.remaining == 0 then found == Some(q.buffer) else after == Some(q))
    && (forall m :: IsSingle(data, m, reader) ==> found == Some(m))
  }

  /** A receiver's states before and after each frame, and what each frame completes. */
  ghost predicate IsTrace(frames: seq<Data>, states: seq<Option<Partial>>, found: seq<Option<Data>>, reader: Reader) {
    && |states| == |frames| + 1 && |found| == |frames|
    && forall n :: 0 <= n < |frames| ==> Heeds(frames[n], states[n], states[n + 1], found[n], reader)
  }

  lemma {:induction false} JoinedGrows(frames: seq<Data>, places: seq<nat>, k: nat)
    requires InSequence(frames, places) && 0 < k <= |places|
    ensures InSequence(frames, places[..k]) && Total(frames, places[..k]) == Total(frames, places)
    ensures |Joined(frames, places[..k])| <= |Joined(frames, places)|
    decreases |places|
  {
    if k == |places| {
      assert places[..k] == places;
    } else {
      FewerInSequence(frames, places);
      var fewer := places[..|places| - 1];
      JoinedGrows(frames, fewer, k);
      assert fewer[..k] == places[..k];
    }
  }

  /** Part of the way through a run, the receiver has just what its frames so far carry. */
  lemma {:induction false} RunIsFollowed(frames: seq<Data>, states: seq<Option<Partial>>, found: seq<Option<Data>>, reader: Reader,
                                         places: seq<nat>, message: Data, n: nat) returns (k: nat)
    requires IsTrace(frames, states, found, reader) && IsTransfer(frames, places, message, reader)
    requires places[0] < n <= places[|places| - 1]
    ensures 0 < k < |places| && places[k - 1] < n <= places[k] && n <= |frames|
    ensures states[n].Some? && Underway(frames, places[..k], n, states[n].value, reader)
    decreases n
  {
    hide Heeds, IsPassedOver, Joined, Total, Underway, Undisturbed;
    var last := n - 1;
    if last == places[0] {
      k := 1;
      assert places[..1] == [last];
      JoinedGrows(frames, places, 1);
      assert Heeds(frames[last], states[last], states[n], found[last], reader);
      StartIsHeeded(frames, last, states[last], states[n], found[last], reader);
    } else {
      var j := RunIsFollowed(frames, states, found, reader, places, message, last);
      k := if last == places[j] then j + 1 else j;
      assert Heeds(frames[last], states[last], states[n], found[last], reader);
      OneFrameFollowed(frames, states[last].value, states[n], found[last], reader, places, message, last, j);
      LaterPlaces(frames, places, j);
    }
  }

  lemma LaterPlaces(frames: seq<Data>, places: seq<nat>, j: nat)
    requires InSequence(frames, places) && 0 < j < |places|
    ensures j + 1 < |places| ==> places[j] < places[j + 1]
    ensures places[j] == places[|places| - 1] || j + 1 < |places|
  {
  }

  lemma OneFrameFollowed(frames: seq<Data>, p: Partial, after: Option<Partial>, found: Option<Data>, reader: Reader,
                         places: seq<nat>, message: Data, n: nat, j: nat)
    requires IsTransfer(frames, places, message, reader) && 0 < j < |places| && places[j - 1] < n <= places[j] && n < places[|places| - 1]
    requires Underway(frames, places[..j], n, p, reader) && Heeds(frames[n], Some(p), after, found, reader)
    ensures after.Some? && Underway(frames, places[..if n == places[j] then j + 1 else j], n + 1, after.value, reader)
  {
    hide Heeds, IsPassedOver, Joined, Total, Underway, Undisturbed;
    if n == places[j] {
      assert places[..j + 1] == places[..j] + [n];
      NotYetComplete(frames, places, message, reader, j + 1);
      NextIsHeeded(frames, places[..j], n, p, after, found, reader);
    } else {
      OutsideTheRun(frames, places, j, n, reader);
      PassingIsHeeded(frames, places[..j], n, p, after, found, reader);
    }
  }

  lemma OutsideTheRun(frames: seq<Data>, places: seq<nat>, j: nat, i: nat, reader: Reader)
    requires InSequence(frames, places) && 0 < j < |places| && places[j - 1] < i < places[j]
    requires Undisturbed(frames, places, places[|places| - 1], reader)
    ensures IsPassedOver(frames[i], reader)
  {
    hide IsPassedOver;
    assert places[0] <= places[j - 1] && places[j] <= places[|places| - 1];
    assert forall x :: 0 <= x < |places| ==> places[x] <= places[j - 1] || places[x] >= places[j];
  }

  lemma NotYetComplete(frames: seq<Data>, places: seq<nat>, message: Data, reader: Reader, k: nat)
    requires IsTransfer(frames, places, message, reader) && 1 < k < |places|
    ensures InSequence(frames, places[..k]) && |Joined(frames, places[..k])| < Total(frames, places[..k])
  {
    var fewer := places[..|places| - 1];
    FewerInSequence(frames, places);
    JoinedGrows(frames, places, k);
    JoinedGrows(frames, fewer, k);
    assert fewer[..k] == places[..k];
  }

  lemma StartIsHeeded(frames: seq<Data>, n: nat, before: Option<Partial>, after: Option<Partial>, found: Option<Data>, reader: Reader)
    requires n < |frames| && InSequence(frames, [n]) && Takes(reader, Total(frames, [n]))
    requires Heeds(frames[n], before, after, found, reader)
    ensures after.Some? && Underway(frames, [n], n + 1, after.value, reader)
  {
    assert Announced(frames[n]) == Total(frames, [n]);
    RunStarts(frames, n, reader);
  }

  lemma PassingIsHeeded(frames: seq<Data>, places: seq<nat>, n: nat, p: Partial, after: Option<Partial>, found: Option<Data>, reader: Reader)
    requires n < |frames| && Underway(frames, places, n, p, reader) && IsPassedOver(frames[n], reader)
    requires Heeds(frames[n], Some(p), after, found, reader)
    ensures after == Some(p) && Underway(frames, places, n + 1, p, reader)
  {
    RunIsUndisturbed(frames, places, n, p, reader);
  }

  lemma NextIsHeeded(frames: seq<Data>, places: seq<nat>, n: nat, p: Partial, after: Option<Partial>, found: Option<Data>, reader: Reader)
    requires n < |frames| && Underway(frames, places, n, p, reader) && InSequence(frames, places + [n])
    requires Heeds(frames[n], Some(p), after, found, reader)
    ensures |Joined(frames, places + [n])| < Total(frames, places + [n]) ==> after.Some? && Underway(frames, places + [n], n + 1, after.value, reader)
    ensures |Joined(frames, places + [n])| >= Total(frames, places + [n]) ==> found.Some? && IsTransfer(frames, places + [n], found.value, reader)
  {
    assert (places + [n])[|places|] == n;
    RunGoesOn(frames, places, n, p, reader);
  }

  /** Whatever run a receiver's frames hold, it finds it, with the last frame of the run. */
  lemma RunIsFound(frames: seq<Data>, states: seq<Option<Partial>>, found: seq<Option<Data>>, reader: Reader,
                   places: seq<nat>, message: Data)
    requires IsTrace(frames, states, found, reader) && IsTransfer(frames, places, message, reader)
    ensures found[places[|places| - 1]] == Some(message)
  {
    hide Heeds, IsPassedOver, Joined, Total, Underway;
    var last := places[|places| - 1];
    var k := RunIsFollowed(frames, states, found, reader, places, message, last);
    assert k == |places| - 1 && places[..k] + [last] == places;
    LastCompletes(frames, places, message, reader);
    NextIsHeeded(frames, places[..k], last, states[last].value, states[last + 1], found[last], reader);
    OneMessage(frames, places, message, found[last].value, reader);
  }

  lemma LastCompletes(frames: seq<Data>, places: seq<nat>, message: Data, reader: Reader)
    requires IsTransfer(frames, places, message, reader)
    ensures |Joined(frames, places)| >= Total(frames, places)
  {
  }

  /** A run gives one message. */
  lemma OneMessage(frames: seq<Data>, places: seq<nat>, a: Data, b: Data, reader: Reader)
    requires IsTransfer(frames, places, a, reader) && IsTransfer(frames, places, b, reader)
    ensures a == b
  {
    hide Joined, Total, Undisturbed, InSequence;
    var joined := Joined(frames, places);
    assert a == joined[..|a|] && b == joined[..|b|];
  }

  /** Any message some frames give is found. */
  lemma EverythingIsFound(frames: seq<Data>, states: seq<Option<Partial>>, found: seq<Option<Data>>, reader: Reader,
                          places: seq<nat>, message: Data)
    requires IsTrace(frames, states, found, reader) && ComesFrom(frames, places, message, reader)
    ensures places[|places| - 1] < |frames| && found[places[|places| - 1]] == Some(message)
  {
    if |places| > 1 {
      RunIsFound(frames, states, found, reader, places, message);
    } else {
      var n := places[0];
      assert Heeds(frames[n], states[n], states[n + 1], found[n], reader);
    }
  }

  lemma CaptureHeeds(c: Capture, data: Data)
    ensures var after := Observed(c, data);
            && c.messages <= after.messages
            && Heeds(data, c.partial, after.partial,
                     if |after.messages| == |c.messages| + 1 then Some(after.messages[|c.messages|]) else None, OfCapture)
  {
    forall m | IsSingle(data, m, OfCapture) ensures Observed(c, data) == Capture(None, c.messages + [m]) {
      SingleIsFound(c, data, m);
    }
  }

  lemma SingleIsFound(c: Capture, data: Data, message: Data)
    requires IsSingle(data, message, OfCapture)
    ensures Observed(c, data) == Capture(None, c.messages + [message])
  {
    if [|message|] + message <= data && |message| <= 15 {
      assert data[..1 + |message|] == [|message|] + message;
      assert data[0] == ([|message|] + message)[0];
      assert data[1..1 + |message|] == message;
    } else {
      assert data[..2 + |message|] == [0, |message|] + message;
      assert data[0] == ([0, |message|] + message)[0] && data[1] == ([0, |message|] + message)[1];
      assert data[2..2 + |message|] == message;
    }
  }

  lemma {:induction false} MessagesGrow(frames: seq<Data>, n: nat)
    requires n <= |frames|
    ensures Reassembled(frames[..n]).messages <= Reassembled(frames).messages
    decreases |frames| - n
  {
    if n == |frames| {
      assert frames[..n] == frames;
    } else {
      MessagesGrow(frames, n + 1);
      assert frames[..n + 1][..n] == frames[..n];
      CaptureHeeds(Reassembled(frames[..n]), frames[n]);
    }
  }

  /**
   * What is found in a capture is exactly what its frames give: a message is found if and only if one single
   * frame carries it, or an undisturbed run of numbered frames of just the length their first one announces.
   */
  lemma CaptureFindsExactly(frames: seq<Data>, message: Data)
    ensures message in Reassembled(frames).messages <==> exists places :: ComesFrom(frames, places, message, OfCapture)
  {
    hide ComesFrom, Heeds, Observed;
    var sources := CaptureFindsOnlyMessages(frames);
    if message in Reassembled(frames).messages {
      var i :| 0 <= i < |sources| && Reassembled(frames).messages[i] == message;
      assert ComesFrom(frames, sources[i], message, OfCapture);
    }
    forall places | ComesFrom(frames, places, message, OfCapture) ensures message in Reassembled(frames).messages {
      CaptureFinds(frames, places, message);
    }
  }

  ghost function CompletedBy(frames: seq<Data>, n: nat): Option<Data>
    requires n < |frames|
  {
    var before, after := Reassembled(frames[..n]).messages, Reassembled(frames[..n + 1]).messages;
    if |after| == |before| + 1 then Some(after[|before|]) else None
  }

  lemma CaptureFinds(frames: seq<Data>, places: seq<nat>, message: Data)
    requires ComesFrom(frames, places, message, OfCapture)
    ensures message in Reassembled(frames).messages
  {
    hide Heeds, Observed, Reassembled, ComesFrom;
    var states := seq(|frames| + 1, n requires 0 <= n <= |frames| => Reassembled(frames[..n]).partial);
    var found := seq(|frames|, n requires 0 <= n < |frames| => CompletedBy(frames, n));
    forall n | 0 <= n < |frames| ensures Heeds(frames[n], states[n], states[n + 1], found[n], OfCapture) {
      OneMoreObserved(frames, n);
      CaptureHeeds(Reassembled(frames[..n]), frames[n]);
    }
    EverythingIsFound(frames, states, found, OfCapture, places, message);
    HasSource(frames, places, message, OfCapture);
    var last := places[|places| - 1];
    MessagesGrow(frames, last + 1);
    assert message in Reassembled(frames[..last + 1]).messages;
  }

  lemma HasSource(frames: seq<Data>, places: seq<nat>, message: Data, reader: Reader)
    requires ComesFrom(frames, places, message, reader)
    ensures places != []
  {
  }

  lemma OneMoreObserved(frames: seq<Data>, n: nat)
    requires n < |frames|
    ensures Reassembled(frames[..n + 1]) == Observed(Reassembled(frames[..n]), frames[n])
  {
    assert frames[..n + 1][..n] == frames[..n];
    hide Observed;
  }

  // ---------------------------------------------------------------- a live receiver misses nothing either

  lemma ReceiverHeeds(rx: Rx, data: Data)
    requires !rx.isFunctional
    ensures var (next, outcome) := Received(rx, data);
            Heeds(data, InProgress(rx), InProgress(next), if outcome.Completed? then Some(outcome.pdu) else None, Live(rx.maxPduLength))
  {
    forall m | IsSingle(data, m, Live(rx.maxPduLength)) ensures Received(rx, data).1 == Completed(m) {
      SingleIsCompleted(rx, data, m);
    }
    if IsPassedOver(data, Live(rx.maxPduLength)) { assert Received(rx, data) == (rx, Nothing); }
  }

  lemma SingleIsCompleted(rx: Rx, data: Data, message: Data)
    requires IsSingle(data, message, Live(rx.maxPduLength))
    ensures Received(rx, data) == (rx.(pending := None), Completed(message))
  {
    assert data[..1 + |message|] == [|message|] + message;
    assert data[0] == ([|message|] + message)[0];
    assert data[1..1 + |message|] == message;
  }

  lemma {:induction false} ListeningGrows(rx: Rx, frames: seq<Data>, n: nat)
    requires n <= |frames|
    ensures Listened(rx, frames[..n]).messages <= Listened(rx, frames).messages
    decreases |frames| - n
  {
    if n == |frames| {
      assert frames[..n] == frames;
    } else {
      ListeningGrows(rx, frames, n + 1);
      OneMoreListened(rx, frames, n);
    }
  }

  lemma OneMoreListened(rx: Rx, frames: seq<Data>, n: nat)
    requires n < |frames|
    ensures var (next, outcome) := Received(Listened(rx, frames[..n]).rx, frames[n]);
            Listened(rx, frames[..n + 1]) ==
            Listening(next, Listened(rx, frames[..n]).messages + (if outcome.Completed? then [outcome.pdu] else []))
  {
    assert frames[..n + 1][..n] == frames[..n];
    hide Received;
    assert Listened(rx, frames[..n]).messages + [] == Listened(rx, frames[..n]).messages;
  }

  ghost function CompletedLive(rx: Rx, frames: seq<Data>, n: nat): Option<Data>
    requires n < |frames|
  {
    var outcome := Received(Listened(rx, frames[..n]).rx, frames[n]).1;
    if outcome.Completed? then Some(outcome.pdu) else None
  }

  lemma ReceiverFinds(rx: Rx, frames: seq<Data>, places: seq<nat>, message: Data)
    requires rx.pending.None? && !rx.isFunctional && ComesFrom(frames, places, message, Live(rx.maxPduLength))
    ensures message in Listened(rx, frames).messages
  {
    hide Heeds, Received, Listened, ComesFrom;
    var reader := Live(rx.maxPduLength);
    var states := seq(|frames| + 1, n requires 0 <= n <= |frames| => InProgress(Listened(rx, frames[..n]).rx));
    var found := seq(|frames|, n requires 0 <= n < |frames| => CompletedLive(rx, frames, n));
    forall n | 0 <= n < |frames| ensures Heeds(frames[n], states[n], states[n + 1], found[n], reader) {
      ReceiversKeepWithinRoom(rx, frames[..n]);
      OneMoreListened(rx, frames, n);
      SameReceiver(rx, Listened(rx, frames[..n]).rx);
      ReceiverHeeds(Listened(rx, frames[..n]).rx, frames[n]);
    }
    EverythingIsFound(frames, states, found, reader, places, message);
    HasSource(frames, places, message, Live(rx.maxPduLength));
    var last := places[|places| - 1];
    OneMoreListened(rx, frames, last);
    ListeningGrows(rx, frames, last + 1);
    assert message in Listened(rx, frames[..last + 1]).messages;
  }

  lemma SameReceiver(a: Rx, b: Rx)
    requires b.(pending := None) == a.(pending := None)
    ensures b.isFunctional == a.isFunctional && b.maxPduLength == a.maxPduLength
  {
  }

  /** A physical receiver completes exactly the messages its frames give and it has room for. */
  lemma ReceiverFindsExactly(rx: Rx, frames: seq<Data>, message: Data)
    requires rx.pending.None? && !rx.isFunctional
    ensures message in Listened(rx, frames).messages <==>
            exists places :: ComesFrom(frames, places, message, Live(rx.maxPduLength))
  {
    hide ComesFrom, Received;
    var sources := ReceiverFindsOnlyMessages(rx, frames);
    if message in Listened(rx, frames).messages {
      var i :| 0 <= i < |sources| && Listened(rx, frames).messages[i] == message;
      assert ComesFrom(frames, sources[i], message, Live(rx.maxPduLength));
      ReceiversKeepWithinRoom(rx, frames);
    }
    forall places | ComesFrom(frames, places, message, Live(rx.maxPduLength))
      ensures message in Listened(rx, frames).messages
    {
      ReceiverFinds(rx, frames, places, message);
    }
  }
}
