/** Bookkeeping for the bridge: what arrived, what became of each arrival, and which ones are still kept. */
module Arrivals {
  import opened Basics
  import opened CanFrames

  /**
   * Kept for handling; consumed as flow control; or dropped because its ECU was busy. A removal names
   * the handling it happened in, by that handling's place in the order frames were handed over.
   */
  datatype Fate = Kept | TakenAsFlowControl(during: nat) | DroppedFor(during: nat)

  /** Where in the arrival order the kept frames stand. */
  ghost function KeptPlaces(fates: seq<Fate>): (places: seq<nat>)
    ensures forall k :: 0 <= k < |places| ==> places[k] < |fates| && fates[places[k]] == Kept
  {
    if fates == [] then []
    else
      var n := |fates| - 1;
      KeptPlaces(fates[..n]) + (if fates[n] == Kept then [n] else [])
  }

  /** The arrivals still kept, in the order they arrived. */
  ghost function KeptOf(arrived: seq<CanFrame>, fates: seq<Fate>): (kept: seq<CanFrame>)
    requires |arrived| == |fates|
    ensures |kept| == |KeptPlaces(fates)|
    ensures forall k :: 0 <= k < |kept| ==> kept[k] == arrived[KeptPlaces(fates)[k]]
  {
    seq(|KeptPlaces(fates)|, k requires 0 <= k < |KeptPlaces(fates)| => arrived[KeptPlaces(fates)[k]])
  }

  lemma {:induction false} PlacesRise(fates: seq<Fate>, j: nat, k: nat)
    requires j < k < |KeptPlaces(fates)|
    ensures KeptPlaces(fates)[j] < KeptPlaces(fates)[k]
    decreases |fates|
  {
    var n := |fates| - 1;
    if k < |KeptPlaces(fates[..n])| { PlacesRise(fates[..n], j, k); }
  }

  lemma {:induction false} PlaceOf(fates: seq<Fate>, i: nat) returns (k: nat)
    requires i < |fates| && fates[i] == Kept
    ensures k < |KeptPlaces(fates)| && KeptPlaces(fates)[k] == i
    decreases |fates|
  {
    var n := |fates| - 1;
    if i == n {
      k := |KeptPlaces(fates[..n])|;
    } else {
      k := PlaceOf(fates[..n], i);
    }
  }

  ghost function AllKept(n: nat): (fates: seq<Fate>)
    ensures |fates| == n && forall i :: 0 <= i < n ==> fates[i] == Kept
  {
    seq(n, _ => Kept)
  }

  lemma PlacesNext(fates: seq<Fate>)
    ensures KeptPlaces(fates + [Kept]) == KeptPlaces(fates) + [|fates|]
  {
    assert (fates + [Kept])[..|fates|] == fates;
  }

  lemma {:induction false} PlacesOfMore(fates: seq<Fate>, n: nat)
    ensures KeptPlaces(fates + AllKept(n)) == KeptPlaces(fates) + seq(n, k => |fates| + k)
    decreases n
  {
    hide KeptPlaces;
    if n == 0 {
      assert fates + AllKept(0) == fates;
    } else {
      PlacesOfMore(fates, n - 1);
      PlacesNext(fates + AllKept(n - 1));
      assert fates + AllKept(n) == (fates + AllKept(n - 1)) + [Kept];
      assert seq(n, k => |fates| + k) == seq(n - 1, k => |fates| + k) + [|fates| + (n - 1)];
    }
  }

  /** Fresh arrivals stand behind everything kept so far. */
  lemma KeptOfMore(arrived: seq<CanFrame>, fates: seq<Fate>, more: seq<CanFrame>)
    requires |arrived| == |fates|
    ensures KeptOf(arrived + more, fates + AllKept(|more|)) == KeptOf(arrived, fates) + more
    ensures KeptPlaces(fates) <= KeptPlaces(fates + AllKept(|more|))
  {
    PlacesOfMore(fates, |more|);
    hide KeptPlaces;
  }

  /** Removing the `j`-th kept arrival takes out exactly that one. */
  lemma {:induction false} RemovePlace(fates: seq<Fate>, j: nat, fate: Fate)
    requires j < |KeptPlaces(fates)| && fate != Kept
    ensures var places := KeptPlaces(fates);
            KeptPlaces(fates[places[j] := fate]) == places[..j] + places[j + 1..]
    decreases |fates|
  {
    var n := |fates| - 1;
    var earlier := KeptPlaces(fates[..n]);
    var i := KeptPlaces(fates)[j];
    if j == |earlier| {
      assert fates[i := fate][..n] == fates[..n];
    } else {
      RemovePlace(fates[..n], j, fate);
      assert fates[i := fate][..n] == fates[..n][i := fate];
    }
  }

  lemma RemoveKept(arrived: seq<CanFrame>, fates: seq<Fate>, j: nat, fate: Fate)
    requires |arrived| == |fates| && j < |KeptPlaces(fates)| && fate != Kept
    ensures var kept := KeptOf(arrived, fates);
            KeptOf(arrived, fates[KeptPlaces(fates)[j] := fate]) == kept[..j] + kept[j + 1..]
  {
    hide KeptPlaces;
    RemovePlace(fates, j, fate);
    var kept, places := KeptOf(arrived, fates), KeptPlaces(fates);
    var fewer, left := kept[..j] + kept[j + 1..], places[..j] + places[j + 1..];
    assert forall k :: 0 <= k < |left| ==> fewer[k] == arrived[left[k]];
  }

  /** Nothing was un-removed, and what was removed since was removed in handlings `from` to `upto`. */
  ghost predicate OnlyRemoves(before: seq<Fate>, after: seq<Fate>, from: int, upto: int) {
    && |before| <= |after|
    && (forall i :: 0 <= i < |before| && before[i] != Kept ==> after[i] == before[i])
    && (forall i :: 0 <= i < |after| ==>
          || after[i] == Kept
          || (i < |before| && after[i] == before[i])
          || from <= after[i].during < upto)
  }

  lemma RemovesNothing(fates: seq<Fate>, from: int, upto: int)
    ensures OnlyRemoves(fates, fates, from, upto)
  {
  }

  lemma RemovesTwice(a: seq<Fate>, b: seq<Fate>, c: seq<Fate>, from: int, upto: int)
    requires OnlyRemoves(a, b, from, upto) && OnlyRemoves(b, c, from, upto)
    ensures OnlyRemoves(a, c, from, upto)
  {
  }

  lemma RemovesWithin(a: seq<Fate>, b: seq<Fate>, from: int, upto: int, from': int, upto': int)
    requires OnlyRemoves(a, b, from, upto) && from' <= from && upto <= upto'
    ensures OnlyRemoves(a, b, from', upto')
  {
  }

  lemma ArrivingRemovesNothing(fates: seq<Fate>, n: nat, from: int, upto: int)
    ensures OnlyRemoves(fates, fates + AllKept(n), from, upto)
  {
  }

  lemma RemovingIsRemoval(fates: seq<Fate>, i: nat, fate: Fate, from: int, upto: int)
    requires i < |fates| && fates[i] == Kept && fate != Kept && from <= fate.during < upto
    ensures OnlyRemoves(fates, fates[i := fate], from, upto)
  {
  }

  /** How many arrivals were taken as flow control. */
  ghost function TakenIn(fates: seq<Fate>): nat {
    if fates == [] then 0
    else TakenIn(fates[..|fates| - 1]) + (if fates[|fates| - 1].TakenAsFlowControl? then 1 else 0)
  }

  lemma {:induction false} TakenOfMore(fates: seq<Fate>, n: nat)
    ensures TakenIn(fates + AllKept(n)) == TakenIn(fates)
    decreases n
  {
    if n == 0 {
      assert fates + AllKept(0) == fates;
    } else {
      TakenOfMore(fates, n - 1);
      assert (fates + AllKept(n))[..|fates| + n - 1] == fates + AllKept(n - 1);
    }
  }

  lemma {:induction false} TakenOfRemoval(fates: seq<Fate>, i: nat, fate: Fate)
    requires i < |fates| && fates[i] == Kept
    ensures TakenIn(fates[i := fate]) == TakenIn(fates) + (if fate.TakenAsFlowControl? then 1 else 0)
    decreases |fates|
  {
    var n := |fates| - 1;
    if i == n {
      assert fates[i := fate][..n] == fates[..n];
    } else {
      TakenOfRemoval(fates[..n], i, fate);
      assert fates[i := fate][..n] == fates[..n][i := fate];
    }
  }
}
