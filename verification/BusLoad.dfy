/**
 * The bus-load meter: per-second buckets filled as frames stream past, and what they amount to
 * over the whole history of the bus.
 */
module BusLoad {
  import opened Basics
  import opened CanFrames

  const MAX_BUCKETS := 120

  datatype Bucket = Bucket(startedAt: int, frames: nat, bitsNominal: nat, bitsWorstCase: nat)

  datatype Sample = Sample(at: int, frames: nat, loadNominal: real, loadWorstCase: real)

  function WorstCaseBits(frame: CanFrame): nat {
    frame.BitsOnWire() + frame.MaxStuffBits()
  }

  // ---------------------------------------------------------------- the history, grouped

  /** The highest whole second stamped so far: where the next frame is counted at the earliest. */
  ghost function RunningSecond(history: seq<CanFrame>): int
    requires history != []
  {
    var second := history[|history| - 1].timestamp.Floor;
    if |history| == 1 then second
    else
      var earlier := RunningSecond(history[..|history| - 1]);
      if second > earlier then second else earlier
  }

  /** What the frames counted at one second add up to. */
  ghost function TallyAt(history: seq<CanFrame>, second: int): Bucket {
    if history == [] then Bucket(second, 0, 0, 0)
    else
      var earlier := TallyAt(history[..|history| - 1], second);
      var last := history[|history| - 1];
      if RunningSecond(history) == second then
        Bucket(second, earlier.frames + 1, earlier.bitsNominal + last.BitsOnWire(), earlier.bitsWorstCase + WorstCaseBits(last))
      else earlier
  }

  /**
   * These buckets are the whole history grouped by running second: strictly later starts, each
   * bucket exactly its second's tally, and no second with a frame left out.
   */
  ghost predicate Groups(buckets: seq<Bucket>, history: seq<CanFrame>) {
    && Increasing(buckets)
    && AreTallies(buckets, history)
    && LeavesNothingOut(buckets, history)
    && (history != [] ==> buckets != [] && buckets[|buckets| - 1].startedAt == RunningSecond(history))
  }

  ghost predicate Increasing(buckets: seq<Bucket>) {
    forall i, j :: 0 <= i < j < |buckets| ==> buckets[i].startedAt < buckets[j].startedAt
  }

  ghost predicate AreTallies(buckets: seq<Bucket>, history: seq<CanFrame>) {
    forall i :: 0 <= i < |buckets| ==> buckets[i] == TallyAt(history, buckets[i].startedAt) && buckets[i].frames > 0
  }

  ghost predicate LeavesNothingOut(buckets: seq<Bucket>, history: seq<CanFrame>) {
    forall second :: TallyAt(history, second).frames > 0 ==> HasBucket(buckets, second)
  }

  ghost predicate HasBucket(buckets: seq<Bucket>, second: int) {
    exists i :: 0 <= i < |buckets| && buckets[i].startedAt == second
  }

  ghost function LastOnes<T>(s: seq<T>, n: nat): seq<T> {
    if |s| <= n then s else s[|s| - n..]
  }

  // ---------------------------------------------------------------- one step

  function Counted(bucket: Bucket, frame: CanFrame): Bucket {
    Bucket(bucket.startedAt, bucket.frames + 1, bucket.bitsNominal + frame.BitsOnWire(), bucket.bitsWorstCase + WorstCaseBits(frame))
  }

  /** Counting one frame with nothing ever evicted. */
  ghost function Tallied(buckets: seq<Bucket>, frame: CanFrame): seq<Bucket> {
    var second := frame.timestamp.Floor;
    if buckets != [] && buckets[|buckets| - 1].startedAt >= second
    then buckets[|buckets| - 1 := Counted(buckets[|buckets| - 1], frame)]
    else buckets + [Counted(Bucket(second, 0, 0, 0), frame)]
  }

  /** One more frame: how the running second and every second's tally move. */
  lemma OneMoreFrame(history: seq<CanFrame>, frame: CanFrame, second: int)
    ensures var more := history + [frame];
            var stamped := frame.timestamp.Floor;
            && RunningSecond(more) == (if history == [] || RunningSecond(history) < stamped then stamped else RunningSecond(history))
            && TallyAt(more, second) ==
               if RunningSecond(more) == second then Counted(TallyAt(history, second), frame) else TallyAt(history, second)
  {
    assert (history + [frame])[..|history|] == history;
    TallyKeepsSecond(history, second);
  }

  lemma NoBucketsYet(buckets: seq<Bucket>)
    requires Groups(buckets, [])
    ensures buckets == []
  {
    assert |buckets| > 0 ==> buckets[0].frames > 0;
  }

  /** How every second's tally moves, given where the frame is counted. */
  ghost predicate TalliesMove(history: seq<CanFrame>, more: seq<CanFrame>, frame: CanFrame, running: int) {
    forall s :: TallyAt(more, s) == if running == s then Counted(TallyAt(history, s), frame) else TallyAt(history, s)
  }

  lemma TalliesMoveOn(history: seq<CanFrame>, frame: CanFrame)
    ensures TalliesMove(history, history + [frame], frame, RunningSecond(history + [frame]))
  {
    var more := history + [frame];
    var running := RunningSecond(more);
    forall s ensures TallyAt(more, s) == if running == s then Counted(TallyAt(history, s), frame) else TallyAt(history, s) {
      OneMoreFrame(history, frame, s);
    }
  }

  /** The buckets a frame counted at this second leaves alone. */
  ghost function Untouched(buckets: seq<Bucket>, running: int): seq<Bucket> {
    if buckets != [] && buckets[|buckets| - 1].startedAt == running then buckets[..|buckets| - 1] else buckets
  }

  ghost predicate AllBefore(buckets: seq<Bucket>, second: int) {
    forall i :: 0 <= i < |buckets| ==> buckets[i].startedAt < second
  }

  /** Where the frame is counted, and what its bucket held before. */
  lemma LandsInBucket(buckets: seq<Bucket>, history: seq<CanFrame>, frame: CanFrame)
    requires Groups(buckets, history)
    ensures var running := RunningSecond(history + [frame]);
            && Tallied(buckets, frame) == Untouched(buckets, running) + [Counted(TallyAt(history, running), frame)]
            && TallyAt(history, running).startedAt == running
            && (buckets != [] ==> buckets[|buckets| - 1].startedAt <= running)
  {
    var running := RunningSecond(history + [frame]);
    OneMoreFrame(history, frame, running);
    TallyKeepsSecond(history, running);
    if history == [] { NoBucketsYet(buckets); }
    if history == [] || RunningSecond(history) < frame.timestamp.Floor {
      NothingLater(history, running);
    }
    hide RunningSecond, TallyAt, Increasing, LeavesNothingOut;
  }

  lemma UntouchedAreBefore(buckets: seq<Bucket>, running: int)
    requires Increasing(buckets)
    requires buckets != [] ==> buckets[|buckets| - 1].startedAt <= running
    ensures Increasing(Untouched(buckets, running)) && AllBefore(Untouched(buckets, running), running)
  {
  }

  lemma StillTallies(kept: seq<Bucket>, last: Bucket, history: seq<CanFrame>, more: seq<CanFrame>, frame: CanFrame)
    requires AreTallies(kept, history) && AllBefore(kept, last.startedAt)
    requires TalliesMove(history, more, frame, last.startedAt)
    requires last == TallyAt(more, last.startedAt) && last.frames > 0
    ensures AreTallies(kept + [last], more)
  {
    hide TallyAt;
  }

  lemma StillNothingOut(buckets: seq<Bucket>, last: Bucket, history: seq<CanFrame>, more: seq<CanFrame>, frame: CanFrame)
    requires LeavesNothingOut(buckets, history)
    requires TalliesMove(history, more, frame, last.startedAt)
    ensures LeavesNothingOut(Untouched(buckets, last.startedAt) + [last], more)
  {
    hide TallyAt;
    var after := Untouched(buckets, last.startedAt) + [last];
    forall s | TallyAt(more, s).frames > 0 ensures HasBucket(after, s) {
      if s == last.startedAt {
        assert after[|after| - 1].startedAt == s;
      } else {
        assert HasBucket(buckets, s);
        var i :| 0 <= i < |buckets| && buckets[i].startedAt == s;
        assert after[i].startedAt == s;
      }
    }
  }

  lemma StillIncreasing(kept: seq<Bucket>, last: Bucket)
    requires Increasing(kept) && AllBefore(kept, last.startedAt)
    ensures Increasing(kept + [last])
  {
  }

  lemma UntouchedAreTallies(buckets: seq<Bucket>, running: int, history: seq<CanFrame>)
    requires AreTallies(buckets, history)
    ensures AreTallies(Untouched(buckets, running), history)
  {
    hide TallyAt;
  }

  /** Counting a frame regroups the longer history. */
  lemma TalliedGroups(buckets: seq<Bucket>, history: seq<CanFrame>, frame: CanFrame)
    requires Groups(buckets, history)
    ensures Groups(Tallied(buckets, frame), history + [frame])
  {
    var more := history + [frame];
    var running := RunningSecond(more);
    var last := Counted(TallyAt(history, running), frame);
    TalliesMoveOn(history, frame);
    LandsInBucket(buckets, history, frame);
    assert last == TallyAt(more, running);
    hide TallyAt, RunningSecond, Tallied, Untouched, Increasing, AreTallies, LeavesNothingOut, TalliesMove, AllBefore;
    UntouchedAreBefore(buckets, running);
    UntouchedAreTallies(buckets, running, history);
    StillIncreasing(Untouched(buckets, running), last);
    StillTallies(Untouched(buckets, running), last, history, more, frame);
    StillNothingOut(buckets, last, history, more, frame);
  }

  lemma {:induction false} TallyKeepsSecond(history: seq<CanFrame>, second: int)
    ensures TallyAt(history, second).startedAt == second
  {
    if history != [] { TallyKeepsSecond(history[..|history| - 1], second); }
  }

  /** Nothing is counted at a second later than the running one. */
  lemma {:induction false} NothingLater(history: seq<CanFrame>, second: int)
    requires history != [] ==> RunningSecond(history) < second
    ensures TallyAt(history, second) == Bucket(second, 0, 0, 0)
  {
    if history != [] { NothingLater(history[..|history| - 1], second); }
  }

  lemma EvictionKeepsLastOnes(buckets: seq<Bucket>, frame: CanFrame)
    ensures LastOnes(Tallied(LastOnes(buckets, MAX_BUCKETS), frame), MAX_BUCKETS) == LastOnes(Tallied(buckets, frame), MAX_BUCKETS)
  {
  }

  lemma LastOnesAreInOrder(buckets: seq<Bucket>, n: nat)
    requires Increasing(buckets) && n > 0
    ensures Increasing(LastOnes(buckets, n)) && |LastOnes(buckets, n)| <= n
    ensures buckets == [] <==> LastOnes(buckets, n) == []
    ensures buckets != [] ==> LastOnes(buckets, n)[|LastOnes(buckets, n)| - 1] == buckets[|buckets| - 1]
    ensures forall k :: 0 <= k < |LastOnes(buckets, n)| ==> LastOnes(buckets, n)[k] in buckets
  {
  }

  class BusLoadMeter {
    const bitrate: nat
    var buckets: seq<Bucket>
    ghost var history: seq<CanFrame>
    /** The buckets of the whole history, evicted or not. */
    ghost var everything: seq<Bucket>

    ghost predicate Valid()
      reads this
    {
      Groups(everything, history) && buckets == LastOnes(everything, MAX_BUCKETS)
    }

    constructor (bitrate: nat)
      ensures Valid() && this.bitrate == bitrate && history == [] && buckets == []
    {
      this.bitrate := bitrate;
      buckets, history, everything := [], [], [];
    }

    /** One more frame enters the history. */
    method Record(frame: CanFrame)
      requires Valid()
      modifies this
      ensures Valid()
      ensures history == old(history) + [frame]
      ensures everything == Tallied(old(everything), frame)
    {
      TalliedGroups(everything, history, frame);
      EvictionKeepsLastOnes(everything, frame);
      assert |buckets| <= MAX_BUCKETS;
      hide Groups, Tallied, LastOnes;
      history, everything := history + [frame], Tallied(everything, frame);
      Count(frame);
    }

    /** The bucket work of `Record`: add to the one being filled, or start another and evict the oldest. */
    method Count(frame: CanFrame)
      requires |buckets| <= MAX_BUCKETS
      modifies this`buckets
      ensures buckets == LastOnes(Tallied(old(buckets), frame), MAX_BUCKETS)
    {
      var nominal := frame.BitsOnWire();
      var worstCase := nominal + frame.MaxStuffBits();
      var bucketStart := frame.timestamp.Floor;
      ghost var tallied := Tallied(buckets, frame);
      if buckets != [] && buckets[|buckets| - 1].startedAt >= bucketStart {
        var last := buckets[|buckets| - 1];
        last := Bucket(last.startedAt, last.frames + 1, last.bitsNominal + nominal, last.bitsWorstCase + worstCase);
        buckets := buckets[|buckets| - 1 := last];
        assert buckets == tallied;
        return;
      }
      buckets := buckets + [Bucket(bucketStart, 1, nominal, worstCase)];
      assert buckets == tallied;
      hide Tallied;
      while |buckets| > MAX_BUCKETS
        invariant LastOnes(buckets, MAX_BUCKETS) == LastOnes(tallied, MAX_BUCKETS)
      {
        buckets := buckets[1..];
      }
    }

    function SampleOf(bucket: Bucket): Sample {
      Sample(bucket.startedAt, bucket.frames, Share(bucket.bitsNominal, bitrate), Share(bucket.bitsWorstCase, bitrate))
    }

    /** A reading of every bucket kept. */
    function Samples(): (samples: seq<Sample>)
      reads this
      ensures |samples| == |buckets|
      ensures forall k :: 0 <= k < |samples| ==> samples[k] == SampleOf(buckets[k])
    {
      seq(|buckets|, k requires 0 <= k < |buckets| reads this => SampleOf(buckets[k]))
    }

    /** A reading of the newest bucket. */
    function Current(): Option<Sample>
      reads this
    {
      if buckets == [] then None else Some(SampleOf(buckets[|buckets| - 1]))
    }

    /** The busiest finished bucket. */
    function Peak(): Option<Sample>
      reads this
    {
      if buckets == [] then None else Busiest(Samples()[..|buckets| - 1])
    }

    /** A kept bucket is its second's tally over the whole history, and its loads are in order. */
    lemma KeptBucket(k: nat)
      requires Valid() && k < |buckets|
      ensures buckets[k] == TallyAt(history, buckets[k].startedAt) && buckets[k].frames > 0
      ensures var sample, tally := SampleOf(buckets[k]), TallyAt(history, buckets[k].startedAt);
              && sample.loadNominal == Share(tally.bitsNominal, bitrate) && sample.loadWorstCase == Share(tally.bitsWorstCase, bitrate)
              && 0.0 <= sample.loadNominal <= sample.loadWorstCase <= 1.0
              && 4.0 * sample.loadWorstCase <= 5.0 * sample.loadNominal
    {
      assert buckets[k] == everything[|everything| - |buckets| + k];
      TallyIsInRange(history, buckets[k].startedAt);
      SharesAreOrdered(buckets[k].bitsNominal, buckets[k].bitsWorstCase, bitrate);
    }

    lemma KeptInOrder()
      requires Valid()
      ensures |buckets| == if |everything| < 120 then |everything| else 120
      ensures Increasing(buckets)
      ensures buckets == [] <==> history == []
      ensures history != [] ==> buckets[|buckets| - 1].startedAt == RunningSecond(history)
    {
      if history == [] { NoBucketsYet(everything); }
      LastOnesAreInOrder(everything, MAX_BUCKETS);
      hide TallyAt, RunningSecond, HasBucket, LastOnes;
    }

    /** What a reader may rely on after any run of frames. */
    lemma ReadingsAreHonest()
      requires Valid()
      ensures |Samples()| == if |everything| < 120 then |everything| else 120
      ensures forall i, j :: 0 <= i < j < |Samples()| ==> Samples()[i].at < Samples()[j].at
      ensures forall k :: 0 <= k < |Samples()| ==>
                && Samples()[k].frames == TallyAt(history, Samples()[k].at).frames
                && Samples()[k].frames > 0
                && Samples()[k].loadNominal == Share(TallyAt(history, Samples()[k].at).bitsNominal, bitrate)
                && Samples()[k].loadWorstCase == Share(TallyAt(history, Samples()[k].at).bitsWorstCase, bitrate)
                && 0.0 <= Samples()[k].loadNominal <= Samples()[k].loadWorstCase <= 1.0
                && 4.0 * Samples()[k].loadWorstCase <= 5.0 * Samples()[k].loadNominal
      ensures Current().Some? <==> history != []
      ensures Current().Some? ==> Current().value.at == RunningSecond(history)
      ensures Peak().Some? <==> |buckets| > 1
      ensures Peak().Some? ==> Peak().value in Samples()[..|buckets| - 1]
      ensures Peak().Some? ==> forall k :: 0 <= k < |buckets| - 1 ==> Samples()[k].loadNominal <= Peak().value.loadNominal
      ensures Peak().Some? ==> IsLastOfTheGreatest(Peak().value, Samples()[..|buckets| - 1])
    {
      hide Valid, TallyAt, RunningSecond, Share, Busiest;
      KeptInOrder();
      forall k | 0 <= k < |buckets|
        ensures buckets[k] == TallyAt(history, buckets[k].startedAt) && buckets[k].frames > 0
        ensures SampleOf(buckets[k]).loadNominal == Share(TallyAt(history, buckets[k].startedAt).bitsNominal, bitrate)
        ensures SampleOf(buckets[k]).loadWorstCase == Share(TallyAt(history, buckets[k].startedAt).bitsWorstCase, bitrate)
        ensures 0.0 <= SampleOf(buckets[k]).loadNominal <= SampleOf(buckets[k]).loadWorstCase <= 1.0
        ensures 4.0 * SampleOf(buckets[k]).loadWorstCase <= 5.0 * SampleOf(buckets[k]).loadNominal
      {
        KeptBucket(k);
      }
      if buckets != [] {
        var finished := Samples()[..|buckets| - 1];
        assert forall k :: 0 <= k < |finished| ==> finished[k] == Samples()[k];
      }
    }
  }

  // ---------------------------------------------------------------- loads

  /** Bits as a share of a second's capacity, capped at the whole bus; an unknown bitrate reads zero. */
  function Share(bits: nat, bitrate: nat): real {
    if bitrate == 0 then 0.0
    else
      var share := bits as real / bitrate as real;
      if share < 1.0 then share else 1.0
  }

  /** Bits that fit are their exact share of the bitrate, more read as the whole bus, and without a bitrate nothing reads as anything. */
  lemma ShareExactly(bits: nat, bitrate: nat)
    ensures bitrate == 0 ==> Share(bits, bitrate) == 0.0
    ensures 0 < bitrate && bits <= bitrate ==> Share(bits, bitrate) * bitrate as real == bits as real
    ensures 0 < bitrate <= bits ==> Share(bits, bitrate) == 1.0
  {
    if bitrate > 0 {
      var c := bitrate as real;
      WholeShare(c);
      TimesBack(bits as real, c);
      if bits <= bitrate { ShareGrows(bits as real, c, c); } else { ShareGrows(c, bits as real, c); }
    }
  }

  lemma WholeShare(c: real)
    requires c > 0.0
    ensures c / c == 1.0
  {
  }

  lemma TimesBack(a: real, c: real)
    requires c > 0.0
    ensures (a / c) * c == a
  {
  }

  lemma SharesAreOrdered(nominal: nat, worstCase: nat, bitrate: nat)
    requires nominal <= worstCase && 4 * worstCase <= 5 * nominal
    ensures 0.0 <= Share(nominal, bitrate) <= Share(worstCase, bitrate) <= 1.0
    ensures 4.0 * Share(worstCase, bitrate) <= 5.0 * Share(nominal, bitrate)
  {
    if bitrate > 0 {
      var c := bitrate as real;
      ShareGrows(nominal as real, worstCase as real, c);
      ShareGrows(4.0 * worstCase as real, 5.0 * nominal as real, c);
      ShareGrows(0.0, nominal as real, c);
      assert 4.0 * worstCase as real / c == 4.0 * (worstCase as real / c);
      assert 5.0 * nominal as real / c == 5.0 * (nominal as real / c);
    }
  }

  lemma ShareGrows(a: real, b: real, c: real)
    requires a <= b && c > 0.0
    ensures a / c <= b / c
  {
  }

  /** No sample is above it and none after it is level. */
  ghost predicate IsLastOfTheGreatest(sample: Sample, samples: seq<Sample>) {
    exists k :: 0 <= k < |samples| && samples[k] == sample && IsLastGreatestAt(samples, k)
  }

  ghost predicate IsLastGreatestAt(samples: seq<Sample>, k: nat)
    requires k < |samples|
  {
    && (forall j :: 0 <= j <= k ==> samples[j].loadNominal <= samples[k].loadNominal)
    && (forall j :: k < j < |samples| ==> samples[j].loadNominal < samples[k].loadNominal)
  }

  /** The last of the samples with the greatest nominal load. */
  function Busiest(samples: seq<Sample>): (busiest: Option<Sample>)
    ensures busiest.None? <==> samples == []
    ensures busiest.Some? ==> busiest.value in samples
    ensures busiest.Some? ==> forall k :: 0 <= k < |samples| ==> samples[k].loadNominal <= busiest.value.loadNominal
    ensures busiest.Some? ==> IsLastOfTheGreatest(busiest.value, samples)
  {
    if samples == [] then None
    else
      var last := samples[|samples| - 1];
      assert samples == samples[..|samples| - 1] + [last];
      match Busiest(samples[..|samples| - 1])
      case None => Some(last)
      case Some(best) => if best.loadNominal <= last.loadNominal then Some(last) else Some(best)
  }

  // ---------------------------------------------------------------- conservation

  lemma {:induction false} TallyIsInRange(history: seq<CanFrame>, second: int)
    ensures var t := TallyAt(history, second);
            t.bitsNominal <= t.bitsWorstCase && 4 * t.bitsWorstCase <= 5 * t.bitsNominal
  {
    if history != [] {
      TallyIsInRange(history[..|history| - 1], second);
      StuffingIsAtMostAQuarter(history[|history| - 1]);
    }
  }

  ghost function Total(buckets: seq<Bucket>): Bucket {
    if buckets == [] then Bucket(0, 0, 0, 0)
    else
      var rest := Total(buckets[..|buckets| - 1]);
      var last := buckets[|buckets| - 1];
      Bucket(0, rest.frames + last.frames, rest.bitsNominal + last.bitsNominal, rest.bitsWorstCase + last.bitsWorstCase)
  }

  ghost function TotalOf(history: seq<CanFrame>): Bucket {
    if history == [] then Bucket(0, 0, 0, 0)
    else
      var rest := TotalOf(history[..|history| - 1]);
      var last := history[|history| - 1];
      Bucket(0, rest.frames + 1, rest.bitsNominal + last.BitsOnWire(), rest.bitsWorstCase + WorstCaseBits(last))
  }

  /** Counting a frame adds it to the total once, whichever bucket it lands in. */
  lemma TalliedConserves(buckets: seq<Bucket>, frame: CanFrame)
    ensures var before := Total(buckets);
            Total(Tallied(buckets, frame)) ==
              Bucket(0, before.frames + 1, before.bitsNominal + frame.BitsOnWire(), before.bitsWorstCase + WorstCaseBits(frame))
  {
    var after := Tallied(buckets, frame);
    if |after| == |buckets| {
      assert after[..|after| - 1] == buckets[..|buckets| - 1];
    } else {
      assert after[..|after| - 1] == buckets;
    }
  }

  /** Every frame of a history counted, with nothing evicted. */
  ghost function BucketsOf(history: seq<CanFrame>): seq<Bucket> {
    if history == [] then []
    else Tallied(BucketsOf(history[..|history| - 1]), history[|history| - 1])
  }

  /** The buckets of any history, in time order or not, hold every frame and every bit of it exactly once. */
  lemma {:induction false} BucketsHoldTheHistory(history: seq<CanFrame>)
    ensures Groups(BucketsOf(history), history)
    ensures Total(BucketsOf(history)) == TotalOf(history)
  {
    if history != [] {
      var earlier, last := history[..|history| - 1], history[|history| - 1];
      assert earlier + [last] == history;
      hide Groups, Tallied, Total;
      BucketsHoldTheHistory(earlier);
      TalliedConserves(BucketsOf(earlier), last);
      TalliedGroups(BucketsOf(earlier), earlier, last);
    }
  }

  /** Grouping leaves nothing to choice, so the meter's buckets are the last ones of `BucketsOf`. */
  lemma GroupsAreUnique(a: seq<Bucket>, b: seq<Bucket>, history: seq<CanFrame>)
    requires Groups(a, history) && Groups(b, history)
    ensures a == b
  {
    AllHeldBy(a, b, history);
    AllHeldBy(b, a, history);
    assert Increasing(a) && Increasing(b);
    hide Groups, Increasing, AreIn;
    forall i | 0 <= i < |a| ensures i < |b| && a[i] == b[i] { SameAt(a, b, i); }
    if |a| < |b| { SameAt(b, a, |a|); }
    if |b| < |a| { SameAt(a, b, |b|); }
  }

  ghost predicate AreIn(a: seq<Bucket>, b: seq<Bucket>) {
    forall i :: 0 <= i < |a| ==> a[i] in b
  }

  lemma AllHeldBy(a: seq<Bucket>, b: seq<Bucket>, history: seq<CanFrame>)
    requires Groups(a, history) && Groups(b, history)
    ensures AreIn(a, b)
  {
    hide TallyAt, RunningSecond, Increasing;
    forall i | 0 <= i < |a| ensures a[i] in b {
      assert HasBucket(b, a[i].startedAt);
      var j :| 0 <= j < |b| && b[j].startedAt == a[i].startedAt;
      assert b[j] == a[i];
    }
  }

  /** Two increasing lists with the same members agree place by place. */
  lemma {:induction false} SameAt(a: seq<Bucket>, b: seq<Bucket>, i: nat)
    requires Increasing(a) && Increasing(b) && AreIn(a, b) && AreIn(b, a) && i < |a|
    ensures i < |b| && a[i] == b[i]
  {
    assert a[i] in b;
    var m :| 0 <= m < |b| && b[m] == a[i];
    if m < i {
      SameAt(a, b, m);
    } else {
      assert b[i] in a;
      var k :| 0 <= k < |a| && a[k] == b[i];
      if k < i { SameAt(a, b, k); }
      hide AreIn;
    }
  }

  /** Frames stamped in order are counted in the second they were stamped with. */
  lemma {:induction false} InOrderRunsWithTheClock(history: seq<CanFrame>)
    requires history != [] && forall i, j :: 0 <= i < j < |history| ==> history[i].timestamp <= history[j].timestamp
    ensures RunningSecond(history) == history[|history| - 1].timestamp.Floor
  {
    if |history| > 1 {
      InOrderRunsWithTheClock(history[..|history| - 1]);
      assert history[|history| - 2].timestamp <= history[|history| - 1].timestamp;
    }
  }
}
