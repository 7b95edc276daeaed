/** Value-level pieces of the vehicle's algorithms that their loops are checked against. */
module WiringSteps {
  import opened Basics
  import opened Wiring

  // ---------------------------------------------------------------- validation

  /** What each refusal promises about the vehicle it refuses. */
  ghost predicate Explains(w: Wires, error: TopologyError) {
    match error
    case UnknownNetwork(name, id) =>
      !Declared(w, id) && exists i :: 0 <= i < |w.ecus| && w.ecus[i].name == name && RefersTo(w.ecus[i], id)
    case GatewayOntoOwnNetwork(name, id) =>
      exists i :: 0 <= i < |w.ecus| && w.ecus[i].name == name && w.ecus[i].networkId == Some(id) && id in w.ecus[i].gatewayFor
    case NetworkHasTwoGateways(id, first, second) =>
      exists i, a, j, b :: ClaimedAt(w, i, a, id, first) && ClaimedAt(w, j, b, id, second) && (i < j || (i == j && a < b))
    case GatewayCycle(walked) =>
      IsLoopReport(w, walked)
  }

  ghost predicate RefersTo(ecu: Ecu, id: string) {
    ecu.networkId == Some(id) || id in ecu.gatewayFor
  }

  ghost predicate ClaimedAt(w: Wires, i: int, a: int, id: string, name: string) {
    0 <= i < |w.ecus| && 0 <= a < |w.ecus[i].gatewayFor| && w.ecus[i].gatewayFor[a] == id && w.ecus[i].name == name
  }

  /** The claims met before claim `k` of ECU `i`, where each was made, and that none repeats. */
  ghost predicate ClaimsUpTo(ecus: seq<Ecu>, i: nat, k: nat, claims: map<string, string>, places: map<string, (nat, nat)>) {
    && claims.Keys == places.Keys
    && (forall id :: id in places ==>
          var (j, b) := places[id];
          && (j < i || (j == i && b < k)) && j < |ecus| && b < |ecus[j].gatewayFor|
          && ecus[j].gatewayFor[b] == id && claims[id] == ecus[j].name)
    && (forall j, b :: (0 <= j < i || (j == i && b < k)) && 0 <= j < |ecus| && 0 <= b < |ecus[j].gatewayFor| ==>
          ecus[j].gatewayFor[b] in places && places[ecus[j].gatewayFor[b]] == (j, b))
  }

  lemma NothingClaimed(ecus: seq<Ecu>)
    ensures ClaimsUpTo(ecus, 0, 0, map[], map[])
  {
  }

  lemma ClaimIsNew(ecus: seq<Ecu>, i: nat, k: nat, claims: map<string, string>, places: map<string, (nat, nat)>)
    requires ClaimsUpTo(ecus, i, k, claims, places)
    requires i < |ecus| && k < |ecus[i].gatewayFor| && ecus[i].gatewayFor[k] !in claims
    ensures var behind := ecus[i].gatewayFor[k];
            ClaimsUpTo(ecus, i, k + 1, claims[behind := ecus[i].name], places[behind := (i, k)])
  {
  }

  lemma ClaimRepeats(w: Wires, i: nat, k: nat, claims: map<string, string>, places: map<string, (nat, nat)>)
    requires ClaimsUpTo(w.ecus, i, k, claims, places)
    requires i < |w.ecus| && k < |w.ecus[i].gatewayFor| && w.ecus[i].gatewayFor[k] in claims
    ensures !ClaimedOnce(w)
    ensures Explains(w, NetworkHasTwoGateways(w.ecus[i].gatewayFor[k], claims[w.ecus[i].gatewayFor[k]], w.ecus[i].name))
  {
    var behind := w.ecus[i].gatewayFor[k];
    var (j, b) := places[behind];
    assert ClaimedAt(w, j, b, behind, claims[behind]) && ClaimedAt(w, i, k, behind, w.ecus[i].name);
  }

  lemma EcuIsThrough(ecus: seq<Ecu>, i: nat, claims: map<string, string>, places: map<string, (nat, nat)>)
    requires i < |ecus| && ClaimsUpTo(ecus, i, |ecus[i].gatewayFor|, claims, places)
    ensures ClaimsUpTo(ecus, i + 1, 0, claims, places)
  {
  }

  lemma NoClaimRepeats(w: Wires, claims: map<string, string>, places: map<string, (nat, nat)>)
    requires ClaimsUpTo(w.ecus, |w.ecus|, 0, claims, places)
    ensures ClaimedOnce(w)
  {
  }

  lemma Undeclared(w: Wires, id: string)
    requires FindNetwork(w.networks, id).None?
    ensures !Declared(w, id)
  {
  }

  lemma IsDeclared(w: Wires, id: string)
    requires FindNetwork(w.networks, id).Some?
    ensures Declared(w, id)
  {
    var i :| 0 <= i < |w.networks| && w.networks[i] == FindNetwork(w.networks, id).value;
  }

  /** The networks ECUs sit on: the only places a walk upward can lead. */
  ghost function SatOn(w: Wires): set<string> {
    set i | 0 <= i < |w.ecus| && w.ecus[i].networkId.Some? :: w.ecus[i].networkId.value
  }

  ghost predicate WalkEnds(w: Wires, id: string) {
    exists steps: nat :: Ancestor(w, id, steps).None?
  }

  lemma EndingWalksAreAcyclic(w: Wires)
    requires forall i :: 0 <= i < |w.networks| ==> WalkEnds(w, w.networks[i].id)
    ensures Acyclic(w)
  {
    forall id, period: nat | period > 0 && Declared(w, id) ensures Ancestor(w, id, period) != Some(id) {
      var i :| 0 <= i < |w.networks| && w.networks[i].id == id;
      assert WalkEnds(w, w.networks[i].id);
      var steps: nat :| Ancestor(w, id, steps).None?;
      if Ancestor(w, id, period) == Some(id) {
        LoopNeverEnds(w, id, period, steps);
      }
    }
  }

  /** A walk upward so far: real upstream edges, no network met twice. */
  ghost predicate WalkingUp(w: Wires, start: string, walked: seq<string>) {
    && |walked| > 0 && walked[0] == start && Declared(w, start)
    && (forall k :: 0 <= k < |walked| - 1 ==> Upstream(w, walked[k]) == Some(walked[k + 1]))
    && Distinct(walked)
    && (forall k :: 0 < k < |walked| ==> walked[k] in SatOn(w))
    && |walked| <= |SatOn(w)| + 1
  }

  lemma WalkGoesOn(w: Wires, start: string, walked: seq<string>, up: string)
    requires WalkingUp(w, start, walked) && up !in walked && Upstream(w, walked[|walked| - 1]) == Some(up)
    ensures WalkingUp(w, start, walked + [up])
  {
    var longer := walked + [up];
    assert up in SatOn(w);
    forall k | 0 < k < |longer| ensures longer[k] in SatOn(w) {
      if k < |walked| { assert longer[k] == walked[k]; }
    }
    assert Distinct(longer);
    DistinctFits(longer[1..], SatOn(w));
  }

  lemma WalkMeetsItself(w: Wires, start: string, walked: seq<string>, up: string)
    requires WalkingUp(w, start, walked) && up in walked && Upstream(w, walked[|walked| - 1]) == Some(up)
    ensures IsLoopReport(w, walked + [up])
  {
    assert (walked + [up])[..|walked|] == walked;
  }

  lemma WalkIsOver(w: Wires, start: string, walked: seq<string>)
    requires WalkingUp(w, start, walked) && Upstream(w, walked[|walked| - 1]).None?
    ensures WalkEnds(w, start)
  {
    WalkIsAncestry(w, walked, 0, |walked| - 1);
    AncestorSplits(w, start, |walked| - 1, 1);
    assert Ancestor(w, start, |walked|).None?;
  }

  // ---------------------------------------------------------------- entry points

  ghost predicate HasExplicitChoice(w: Wires) {
    exists i :: 0 <= i < |w.networks| && w.networks[i].isEntryPoint
  }

  ghost predicate Gatewayed(w: Wires, id: string) {
    exists i :: 0 <= i < |w.ecus| && id in w.ecus[i].gatewayFor
  }

  /** An explicit choice stands; otherwise exactly the networks nothing forwards onto take a tester. */
  ghost function Normalized(w: Wires): (n: Wires)
    ensures n.ecus == w.ecus && |n.networks| == |w.networks|
    ensures HasExplicitChoice(w) ==> n == w
    ensures !HasExplicitChoice(w) ==>
              forall i :: 0 <= i < |w.networks| ==>
                n.networks[i] == w.networks[i].(isEntryPoint := !Gatewayed(w, w.networks[i].id))
  {
    if HasExplicitChoice(w) then w
    else
      w.(networks := seq(|w.networks|, i requires 0 <= i < |w.networks| =>
        w.networks[i].(isEntryPoint := !Gatewayed(w, w.networks[i].id))))
  }

  // ---------------------------------------------------------------- the upward walk

  ghost function After(crossed: seq<nat>, rest: Climb): Climb {
    Climb(crossed + rest.gateways, rest.arrived)
  }

  /** The gateways crossed so far, and that the rest of the climb starts at `current`. */
  ghost predicate Crossed(w: Wires, start: string, limit: nat, crossed: seq<nat>, current: string, round: nat) {
    && round <= limit
    && (forall k :: 0 <= k < |crossed| ==> crossed[k] < |w.ecus|)
    && ClimbFrom(w, start, limit) == After(crossed, ClimbFrom(w, current, limit - round))
  }

  /** The walk of `DiagnosticPathTo` after so many rounds: what it crossed, where it stands and the names in its lists. */
  ghost predicate Walked(w: Wires, ecu: Ecu, crossed: seq<nat>, current: string, round: nat, names: seq<string>, offNames: seq<string>) {
    && ecu.networkId.Some?
    && Crossed(w, ecu.networkId.value, HopLimit(w), crossed, current, round)
    && names == Names(w.ecus, crossed) && offNames == OffNames(w.ecus, crossed)
  }

  lemma WalkBegins(w: Wires, ecu: Ecu)
    requires ecu.networkId.Some?
    ensures Walked(w, ecu, [], ecu.networkId.value, 0, [], [])
  {
    hide ClimbFrom;
    var climb := ClimbFrom(w, ecu.networkId.value, HopLimit(w));
    assert [] + climb.gateways == climb.gateways;
  }

  lemma TesterMet(w: Wires, ecu: Ecu, crossed: seq<nat>, current: string, round: nat, names: seq<string>, offNames: seq<string>)
    requires Walked(w, ecu, crossed, current, round, names, offNames) && round < HopLimit(w) && StopsAt(w, current)
    ensures PathTo(w, ecu) == DiagnosticPath(Reversed(names), |names|, true,
                                             if offNames == [] then None else Some(Reversed(offNames)[0]))
  {
    hide StopsAt, ClimbFrom, PathTo, Names, OffNames, FirstOff, Reversed;
    ArrivesHere(w, ecu.networkId.value, HopLimit(w), crossed, current, round);
    PathOfArrival(w, ecu, crossed);
    OffNamesReversed(w.ecus, crossed);
    NamesReversed(w.ecus, crossed);
  }

  lemma ArrivesHere(w: Wires, start: string, limit: nat, crossed: seq<nat>, current: string, round: nat)
    requires round < limit && Crossed(w, start, limit, crossed, current, round) && StopsAt(w, current)
    ensures ClimbFrom(w, start, limit) == Climb(crossed, true)
  {
    hide StopsAt, FindGateway, ClimbFrom;
    ClimbStep(w, current, limit - round);
    assert crossed + [] == crossed;
  }

  lemma PathOfArrival(w: Wires, ecu: Ecu, crossed: seq<nat>)
    requires ecu.networkId.Some? && ClimbFrom(w, ecu.networkId.value, HopLimit(w)) == Climb(crossed, true)
    ensures forall k :: 0 <= k < |crossed| ==> crossed[k] < |w.ecus|
    ensures var off := FirstOff(w.ecus, Reversed(crossed));
            PathTo(w, ecu) == DiagnosticPath(Names(w.ecus, Reversed(crossed)), |crossed|, true,
                                             if off.Some? then Some(w.ecus[off.value].name) else None)
  {
    hide ClimbFrom, Names, FirstOff, HopLimit, Reversed;
  }

  lemma PathWithoutArrival(w: Wires, ecu: Ecu, crossed: seq<nat>)
    requires ecu.networkId.Some? && ClimbFrom(w, ecu.networkId.value, HopLimit(w)) == Climb(crossed, false)
    ensures PathTo(w, ecu) == DiagnosticPath([], |crossed|, false, None)
  {
    hide ClimbFrom, HopLimit;
  }

  lemma NamesReversed(ecus: seq<Ecu>, positions: seq<nat>)
    requires forall k :: 0 <= k < |positions| ==> positions[k] < |ecus|
    ensures Names(ecus, Reversed(positions)) == Reversed(Names(ecus, positions))
  {
  }

  lemma NoGateway(w: Wires, ecu: Ecu, crossed: seq<nat>, current: string, round: nat, names: seq<string>, offNames: seq<string>)
    requires Walked(w, ecu, crossed, current, round, names, offNames) && round < HopLimit(w)
    requires !StopsAt(w, current) && FindGateway(w.ecus, current).None?
    ensures PathTo(w, ecu) == DiagnosticPath([], |names|, false, None)
  {
    hide StopsAt, FindGateway, ClimbFrom, PathTo, Names, OffNames;
    ClimbStep(w, current, HopLimit(w) - round);
    assert crossed + [] == crossed;
    PathWithoutArrival(w, ecu, crossed);
  }

  /** Crossing a gateway puts its name on the list, and on the other one if it is off; then the walk goes on or is stranded. */
  lemma CrossGateway(w: Wires, ecu: Ecu, crossed: seq<nat>, current: string, round: nat, names: seq<string>, offNames: seq<string>)
    requires Walked(w, ecu, crossed, current, round, names, offNames) && round < HopLimit(w)
    requires !StopsAt(w, current) && FindGateway(w.ecus, current).Some?
    ensures var g := FindGateway(w.ecus, current).value;
            && (w.ecus[g].networkId.None? ==> PathTo(w, ecu) == DiagnosticPath([], |names| + 1, false, None))
            && (w.ecus[g].networkId.Some? ==>
                  Walked(w, ecu, crossed + [g], w.ecus[g].networkId.value, round + 1, names + [w.ecus[g].name],
                         if w.ecus[g].isEnabled then offNames else offNames + [w.ecus[g].name]))
  {
    hide OffNames, Names, StopsAt, FindGateway, ClimbFrom, After, PathTo, HopLimit;
    var g := FindGateway(w.ecus, current).value;
    assert offNames + [] == offNames;
    ClimbStep(w, current, HopLimit(w) - round);
    NamesAppend(w.ecus, crossed, g);
    OffNamesAppend(w.ecus, crossed, g);
    if w.ecus[g].networkId.Some? {
      AfterOneMore(crossed, g, ClimbFrom(w, w.ecus[g].networkId.value, HopLimit(w) - round - 1));
    } else {
      AfterTheLast(crossed, g);
      PathWithoutArrival(w, ecu, crossed + [g]);
    }
  }

  lemma AfterOneMore(crossed: seq<nat>, g: nat, rest: Climb)
    ensures After(crossed, Climb([g] + rest.gateways, rest.arrived)) == After(crossed + [g], rest)
  {
    assert crossed + ([g] + rest.gateways) == (crossed + [g]) + rest.gateways;
  }

  lemma AfterTheLast(crossed: seq<nat>, g: nat)
    ensures After(crossed, Climb([g], false)) == Climb(crossed + [g], false)
  {
  }

  lemma NamesAppend(ecus: seq<Ecu>, positions: seq<nat>, g: nat)
    requires forall k :: 0 <= k < |positions| ==> positions[k] < |ecus|
    requires g < |ecus|
    ensures Names(ecus, positions + [g]) == Names(ecus, positions) + [ecus[g].name]
  {
  }

  lemma OutOfRounds(w: Wires, ecu: Ecu, crossed: seq<nat>, current: string, names: seq<string>, offNames: seq<string>)
    requires Walked(w, ecu, crossed, current, HopLimit(w), names, offNames)
    ensures PathTo(w, ecu) == DiagnosticPath([], |names|, false, None)
  {
    hide ClimbFrom, PathTo, Names, OffNames;
    ClimbStopsAtOnce(w, current);
    assert crossed + [] == crossed;
    PathWithoutArrival(w, ecu, crossed);
  }

  /** The names of the switched-off ECUs among these positions, in order. */
  function OffNames(ecus: seq<Ecu>, positions: seq<nat>): seq<string>
    requires forall k :: 0 <= k < |positions| ==> positions[k] < |ecus|
  {
    if positions == [] then []
    else
      var last := ecus[positions[|positions| - 1]];
      OffNames(ecus, positions[..|positions| - 1]) + (if last.isEnabled then [] else [last.name])
  }

  lemma OffNamesAppend(ecus: seq<Ecu>, positions: seq<nat>, g: nat)
    requires forall k :: 0 <= k < |positions| ==> positions[k] < |ecus|
    requires g < |ecus|
    ensures OffNames(ecus, positions + [g])
            == OffNames(ecus, positions) + (if ecus[g].isEnabled then [] else [ecus[g].name])
  {
    assert (positions + [g])[..|positions|] == positions;
  }

  lemma ReversedSplits<T>(s: seq<T>)
    requires s != []
    ensures Reversed(s)[0] == s[|s| - 1] && Reversed(s)[1..] == Reversed(s[..|s| - 1])
  {
  }

  /** The last switched-off gateway met on the way up is the first one met on the way down. */
  lemma {:induction false} OffNamesReversed(ecus: seq<Ecu>, positions: seq<nat>)
    requires forall k :: 0 <= k < |positions| ==> positions[k] < |ecus|
    ensures var off := FirstOff(ecus, Reversed(positions));
            var names := OffNames(ecus, positions);
            && (off.None? <==> names == [])
            && (off.Some? ==> Reversed(names)[0] == ecus[off.value].name)
    decreases |positions|
  {
    if positions != [] {
      var earlier := positions[..|positions| - 1];
      OffNamesReversed(ecus, earlier);
      ReversedSplits(positions);
    }
  }
}
