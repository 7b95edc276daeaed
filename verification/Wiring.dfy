/**
 * The wiring of a vehicle: networks, the ECUs sitting on them, and the gateways that forward
 * diagnostics from one network onto another. This file holds the value-level model, the walk
 * upward from a network to a tester, and the graph facts the other wiring files build on.
 */
module Wiring {
  import opened Basics

  datatype Network = Network(id: string, name: string, isEntryPoint: bool)

  datatype Ecu = Ecu(name: string, networkId: Option<string>, gatewayFor: seq<string>, isEnabled: bool)

  datatype Wires = Wires(networks: seq<Network>, ecus: seq<Ecu>)

  datatype TopologyError =
    | UnknownNetwork(ecuName: string, networkId: string)
    | GatewayOntoOwnNetwork(ecuName: string, networkId: string)
    | NetworkHasTwoGateways(networkId: string, firstEcu: string, secondEcu: string)
    | GatewayCycle(walked: seq<string>)

  datatype DiagnosticPath = DiagnosticPath(
    gatewayNames: seq<string>,
    hopCount: nat,
    isReachable: bool,
    disabledGateway: Option<string>)

  // ---------------------------------------------------------------- looking things up

  /** The first network with this id, as `find` returns it. */
  function FindNetwork(networks: seq<Network>, id: string): (found: Option<Network>)
    ensures found.None? <==> forall i :: 0 <= i < |networks| ==> networks[i].id != id
    ensures found.Some? ==> found.value in networks && found.value.id == id
  {
    if networks == [] then None
    else if networks[0].id == id then Some(networks[0])
    else FindNetwork(networks[1..], id)
  }

  /** The position of the first ECU that forwards onto this network. */
  function FindGateway(ecus: seq<Ecu>, id: string): (found: Option<nat>)
    ensures found.None? <==> forall i :: 0 <= i < |ecus| ==> id !in ecus[i].gatewayFor
    ensures found.Some? ==> found.value < |ecus| && id in ecus[found.value].gatewayFor
    ensures found.Some? ==> forall i :: 0 <= i < found.value ==> id !in ecus[i].gatewayFor
  {
    if ecus == [] then None
    else if id in ecus[0].gatewayFor then Some(0)
    else
      match FindGateway(ecus[1..], id)
      case None => None
      case Some(i) => assert forall k :: 1 <= k < |ecus| ==> ecus[k] == ecus[1..][k - 1]; Some(i + 1)
  }

  /** Whether the walk upward would stop here: the first network with this id takes a tester. */
  predicate StopsAt(w: Wires, id: string) {
    var found := FindNetwork(w.networks, id);
    found.Some? && found.value.isEntryPoint
  }

  /** The network one step nearer the tester, if the gateway onto `id` sits on one. */
  function Upstream(w: Wires, id: string): Option<string> {
    match FindGateway(w.ecus, id)
    case None => None
    case Some(i) => w.ecus[i].networkId
  }

  /** `steps` steps upward, while there is somewhere to go. */
  ghost function Ancestor(w: Wires, id: string, steps: nat): Option<string>
    decreases steps
  {
    if steps == 0 then Some(id)
    else
      match Upstream(w, id)
      case None => None
      case Some(up) => Ancestor(w, up, steps - 1)
  }

  // ---------------------------------------------------------------- what the wiring means

  ghost predicate Declared(w: Wires, id: string) {
    exists i :: 0 <= i < |w.networks| && w.networks[i].id == id
  }

  /** Some network with this id is marked as a place a tester attaches to. */
  ghost predicate TakesTester(w: Wires, id: string) {
    exists i :: 0 <= i < |w.networks| && w.networks[i].id == id && w.networks[i].isEntryPoint
  }

  /** Some ECU sitting on `above` forwards onto `below`. */
  ghost predicate Forwards(w: Wires, above: string, below: string) {
    exists i :: 0 <= i < |w.ecus| && w.ecus[i].networkId == Some(above) && below in w.ecus[i].gatewayFor
  }

  /** A forwarding chain from a network that takes a tester down to `id`. */
  ghost predicate ChainTo(w: Wires, chain: seq<string>, id: string) {
    && |chain| > 0
    && TakesTester(w, chain[0])
    && chain[|chain| - 1] == id
    && forall i :: 0 <= i < |chain| - 1 ==> Forwards(w, chain[i], chain[i + 1])
  }

  /**
   * The meaning of a depth map, stated without any search: a network is present exactly when
   * some chain reaches it, and its depth is the hop count of the shortest such chain.
   */
  ghost predicate ShortestDepths(w: Wires, depths: map<string, nat>) {
    && (forall id, chain :: ChainTo(w, chain, id) ==> id in depths && depths[id] <= |chain| - 1)
    && (forall id :: id in depths ==> exists chain :: ChainTo(w, chain, id) && |chain| - 1 == depths[id])
  }

  ghost predicate ReferencesDeclared(w: Wires) {
    forall i :: 0 <= i < |w.ecus| ==> EcuReferencesDeclared(w, w.ecus[i])
  }

  ghost predicate EcuReferencesDeclared(w: Wires, ecu: Ecu) {
    && (ecu.networkId.Some? ==> Declared(w, ecu.networkId.value))
    && forall k :: 0 <= k < |ecu.gatewayFor| ==> Declared(w, ecu.gatewayFor[k])
  }

  ghost predicate NoneOntoOwnNetwork(w: Wires) {
    forall i :: 0 <= i < |w.ecus| ==> !OntoOwnNetwork(w.ecus[i])
  }

  ghost predicate OntoOwnNetwork(ecu: Ecu) {
    ecu.networkId.Some? && ecu.networkId.value in ecu.gatewayFor
  }

  /** No network is claimed twice, be it by two ECUs or twice by one. */
  ghost predicate ClaimedOnce(w: Wires) {
    forall i, a, j, b |
      && 0 <= i < |w.ecus| && 0 <= a < |w.ecus[i].gatewayFor|
      && 0 <= j < |w.ecus| && 0 <= b < |w.ecus[j].gatewayFor|
      :: w.ecus[i].gatewayFor[a] == w.ecus[j].gatewayFor[b] ==> i == j && a == b
  }

  /** No declared network is reached only through itself. */
  ghost predicate Acyclic(w: Wires) {
    forall id, steps: nat :: steps > 0 && Declared(w, id) ==> Ancestor(w, id, steps) != Some(id)
  }

  /** What an accepted vehicle satisfies. */
  ghost predicate Sound(w: Wires) {
    ReferencesDeclared(w) && NoneOntoOwnNetwork(w) && ClaimedOnce(w) && Acyclic(w)
  }

  /** A gateway-cycle report: a real walk upward whose last network is already on it. */
  ghost predicate IsLoopReport(w: Wires, walked: seq<string>) {
    && |walked| >= 2
    && Declared(w, walked[0])
    && (forall i :: 0 <= i < |walked| - 1 ==> Upstream(w, walked[i]) == Some(walked[i + 1]))
    && walked[|walked| - 1] in walked[..|walked| - 1]
  }

  // ---------------------------------------------------------------- the walk to a tester

  /** Gateways met on the way up (positions, nearest the ECU first) and whether a tester was met. */
  datatype Climb = Climb(gateways: seq<nat>, arrived: bool)

  function ClimbFrom(w: Wires, id: string, limit: nat): (c: Climb)
    ensures forall k :: 0 <= k < |c.gateways| ==> c.gateways[k] < |w.ecus|
    decreases limit
  {
    if limit == 0 then Climb([], false)
    else if StopsAt(w, id) then Climb([], true)
    else
      match FindGateway(w.ecus, id)
      case None => Climb([], false)
      case Some(g) =>
        match w.ecus[g].networkId
        case None => Climb([g], false)
        case Some(up) =>
          var rest := ClimbFrom(w, up, limit - 1);
          Climb([g] + rest.gateways, rest.arrived)
  }

  /** One round of the climb. */
  lemma ClimbStep(w: Wires, id: string, limit: nat)
    requires limit > 0
    ensures var gateway := FindGateway(w.ecus, id);
            ClimbFrom(w, id, limit) ==
              if StopsAt(w, id) then Climb([], true)
              else if gateway.None? then Climb([], false)
              else if w.ecus[gateway.value].networkId.None? then Climb([gateway.value], false)
              else
                var rest := ClimbFrom(w, w.ecus[gateway.value].networkId.value, limit - 1);
                Climb([gateway.value] + rest.gateways, rest.arrived)
  {
    hide StopsAt, FindGateway;
  }

  lemma ClimbStopsAtOnce(w: Wires, id: string)
    ensures ClimbFrom(w, id, 0) == Climb([], false)
  {
    hide StopsAt, FindGateway;
  }

  /** Whether a climb arrives, and over how many gateways, told through `Upstream` alone. */
  lemma ClimbCounts(w: Wires, id: string, limit: nat)
    requires limit > 0
    ensures var c := ClimbFrom(w, id, limit);
            var up := Upstream(w, id);
            && (StopsAt(w, id) ==> c.arrived && c.gateways == [])
            && (!StopsAt(w, id) && up.None? ==> !c.arrived)
            && (!StopsAt(w, id) && up.Some? ==>
                  var rest := ClimbFrom(w, up.value, limit - 1);
                  c.arrived == rest.arrived && |c.gateways| == |rest.gateways| + 1)
  {
    ClimbStep(w, id, limit);
    hide ClimbFrom, StopsAt, FindGateway;
  }

  function HopLimit(w: Wires): nat {
    |w.networks| + 1
  }

  function Names(ecus: seq<Ecu>, positions: seq<nat>): (names: seq<string>)
    requires forall k :: 0 <= k < |positions| ==> positions[k] < |ecus|
    ensures |names| == |positions|
    ensures forall k :: 0 <= k < |names| ==> names[k] == ecus[positions[k]].name
  {
    seq(|positions|, k requires 0 <= k < |positions| => ecus[positions[k]].name)
  }

  function Reversed<T>(s: seq<T>): (r: seq<T>)
    ensures |r| == |s|
    ensures forall k :: 0 <= k < |s| ==> r[k] == s[|s| - 1 - k]
  {
    seq(|s|, k requires 0 <= k < |s| => s[|s| - 1 - k])
  }

  /** The gateways between the tester and a reachable ECU, nearest the tester first. */
  function GatewaysTo(w: Wires, ecu: Ecu): (gateways: seq<nat>)
    ensures forall k :: 0 <= k < |gateways| ==> gateways[k] < |w.ecus|
  {
    if ecu.networkId.None? then []
    else
      var climb := ClimbFrom(w, ecu.networkId.value, HopLimit(w));
      if climb.arrived then Reversed(climb.gateways) else []
  }

  predicate Reachable(w: Wires, ecu: Ecu) {
    ecu.networkId.Some? ==> ClimbFrom(w, ecu.networkId.value, HopLimit(w)).arrived
  }

  /** The first switched-off position in a tester-first list of gateways. */
  function FirstOff(ecus: seq<Ecu>, gateways: seq<nat>): (off: Option<nat>)
    requires forall k :: 0 <= k < |gateways| ==> gateways[k] < |ecus|
    ensures off.None? <==> forall k :: 0 <= k < |gateways| ==> ecus[gateways[k]].isEnabled
    ensures off.Some? ==> exists k :: 0 <= k < |gateways| && gateways[k] == off.value && !ecus[off.value].isEnabled
                                      && forall j :: 0 <= j < k ==> ecus[gateways[j]].isEnabled
  {
    if gateways == [] then None
    else if !ecus[gateways[0]].isEnabled then Some(gateways[0])
    else
      var rest := FirstOff(ecus, gateways[1..]);
      assert rest.Some? ==> exists k :: 0 <= k < |gateways[1..]| && gateways[1..][k] == rest.value && !ecus[rest.value].isEnabled
                                        && forall j :: 0 <= j < k ==> ecus[gateways[1..][j]].isEnabled;
      FirstOffShift(ecus, gateways, rest);
      rest
  }

  lemma FirstOffShift(ecus: seq<Ecu>, gateways: seq<nat>, rest: Option<nat>)
    requires gateways != []
    requires forall k :: 0 <= k < |gateways| ==> gateways[k] < |ecus|
    requires ecus[gateways[0]].isEnabled
    requires rest.Some? ==> exists k :: 0 <= k < |gateways[1..]| && gateways[1..][k] == rest.value && !ecus[rest.value].isEnabled
                                        && forall j :: 0 <= j < k ==> ecus[gateways[1..][j]].isEnabled
    ensures rest.Some? ==> exists k :: 0 <= k < |gateways| && gateways[k] == rest.value && !ecus[rest.value].isEnabled
                                       && forall j :: 0 <= j < k ==> ecus[gateways[j]].isEnabled
  {
    if rest.Some? {
      var k :| 0 <= k < |gateways[1..]| && gateways[1..][k] == rest.value && !ecus[rest.value].isEnabled
               && forall j :: 0 <= j < k ==> ecus[gateways[1..][j]].isEnabled;
      assert gateways[k + 1] == rest.value;
      forall j | 0 <= j < k + 1 ensures ecus[gateways[j]].isEnabled {
        if j > 0 { assert gateways[1..][j - 1] == gateways[j]; }
      }
    }
  }

  /** The switched-off gateway nearest the tester on the way to an ECU. */
  function BlockedBy(w: Wires, ecu: Ecu): Option<nat> {
    FirstOff(w.ecus, GatewaysTo(w, ecu))
  }

  /** What `DiagnosticPathTo` answers, as a value. */
  function PathTo(w: Wires, ecu: Ecu): DiagnosticPath {
    if ecu.networkId.None? then DiagnosticPath([], 0, true, None)
    else
      var climb := ClimbFrom(w, ecu.networkId.value, HopLimit(w));
      if climb.arrived then
        var off := BlockedBy(w, ecu);
        DiagnosticPath(Names(w.ecus, Reversed(climb.gateways)), |climb.gateways|, true,
                       if off.Some? then Some(w.ecus[off.value].name) else None)
      else
        DiagnosticPath([], |climb.gateways|, false, None)
  }

  // ---------------------------------------------------------------- graph facts

  lemma UpstreamForwards(w: Wires, above: string, below: string)
    requires Upstream(w, below) == Some(above)
    ensures Forwards(w, above, below)
  {
  }

  /** With single claims, the forwarding relation and the walk upward are the same edges. */
  lemma ForwardsIsUpstream(w: Wires, above: string, below: string)
    requires ClaimedOnce(w) && Forwards(w, above, below)
    ensures Upstream(w, below) == Some(above)
  {
    var i :| 0 <= i < |w.ecus| && w.ecus[i].networkId == Some(above) && below in w.ecus[i].gatewayFor;
    var j := FindGateway(w.ecus, below).value;
    var a :| 0 <= a < |w.ecus[i].gatewayFor| && w.ecus[i].gatewayFor[a] == below;
    var b :| 0 <= b < |w.ecus[j].gatewayFor| && w.ecus[j].gatewayFor[b] == below;
    assert i == j;
  }

  lemma {:induction false} AncestorSplits(w: Wires, id: string, m: nat, n: nat)
    requires Ancestor(w, id, m).Some?
    ensures Ancestor(w, id, m + n) == Ancestor(w, Ancestor(w, id, m).value, n)
    decreases m
  {
    if m > 0 {
      AncestorSplits(w, Upstream(w, id).value, m - 1, n);
    }
  }

  /** A network that is its own ancestor has ancestors without end. */
  lemma {:induction false} LoopNeverEnds(w: Wires, id: string, period: nat, steps: nat)
    requires period > 0 && Ancestor(w, id, period) == Some(id)
    ensures Ancestor(w, id, steps).Some?
    decreases steps
  {
    if steps < period {
      AncestorPrefix(w, id, steps, period);
    } else {
      LoopNeverEnds(w, id, period, steps - period);
      AncestorSplits(w, id, period, steps - period);
    }
  }

  lemma {:induction false} AncestorPrefix(w: Wires, id: string, m: nat, n: nat)
    requires m <= n && Ancestor(w, id, n).Some?
    ensures Ancestor(w, id, m).Some?
    decreases m
  {
    if m > 0 {
      AncestorPrefix(w, Upstream(w, id).value, m - 1, n - 1);
    }
  }

  /** A report of a loop refutes acyclicity once every reference is declared. */
  lemma LoopReportRefutes(w: Wires, walked: seq<string>)
    requires ReferencesDeclared(w) && IsLoopReport(w, walked)
    ensures !Acyclic(w)
  {
    var last := |walked| - 1;
    var i :| 0 <= i < last && walked[i] == walked[last];
    WalkIsAncestry(w, walked, i, last);
    if i > 0 {
      UpstreamDeclared(w, walked[i - 1], walked[i]);
    }
    assert Declared(w, walked[i]);
    assert Ancestor(w, walked[i], last - i) == Some(walked[i]);
  }

  lemma UpstreamDeclared(w: Wires, id: string, up: string)
    requires ReferencesDeclared(w) && Upstream(w, id) == Some(up)
    ensures Declared(w, up)
  {
    var i := FindGateway(w.ecus, id).value;
    assert EcuReferencesDeclared(w, w.ecus[i]);
  }

  lemma {:induction false} WalkIsAncestry(w: Wires, walked: seq<string>, i: nat, j: nat)
    requires i <= j < |walked|
    requires forall k :: 0 <= k < |walked| - 1 ==> Upstream(w, walked[k]) == Some(walked[k + 1])
    ensures Ancestor(w, walked[i], j - i) == Some(walked[j])
    decreases j - i
  {
    if i < j {
      WalkIsAncestry(w, walked, i + 1, j);
    }
  }

  // ---------------------------------------------------------------- climbing

  /** Once a climb arrives, a higher limit changes nothing. */
  lemma {:induction false} ArrivalIsStable(w: Wires, id: string, limit: nat, higher: nat)
    requires limit <= higher && ClimbFrom(w, id, limit).arrived
    ensures ClimbFrom(w, id, higher) == ClimbFrom(w, id, limit)
    decreases limit
  {
    if !StopsAt(w, id) {
      var g := FindGateway(w.ecus, id).value;
      ArrivalIsStable(w, w.ecus[g].networkId.value, limit - 1, higher - 1);
    }
  }

  /** A climb that arrives needs exactly one round more than the gateways it crosses. */
  lemma {:induction false} ArrivalNeeds(w: Wires, id: string, limit: nat)
    requires ClimbFrom(w, id, limit).arrived
    ensures var hops := |ClimbFrom(w, id, limit).gateways|;
            hops < limit && ClimbFrom(w, id, hops + 1) == ClimbFrom(w, id, limit)
    decreases limit
  {
    if !StopsAt(w, id) {
      var g := FindGateway(w.ecus, id).value;
      ArrivalNeeds(w, w.ecus[g].networkId.value, limit - 1);
    }
  }

  /** A tester-first list of gateways really is the chain: each sits on one network and forwards onto the next. */
  ghost predicate Carries(w: Wires, chain: seq<string>, gateways: seq<nat>) {
    && |chain| == |gateways| + 1
    && forall k :: 0 <= k < |gateways| ==>
         && gateways[k] < |w.ecus|
         && w.ecus[gateways[k]].networkId == Some(chain[k])
         && chain[k + 1] in w.ecus[gateways[k]].gatewayFor
  }

  /** An arriving climb, read backwards, is a forwarding chain from a tester, carried by the gateways crossed. */
  lemma {:induction false} ClimbIsChain(w: Wires, id: string, limit: nat) returns (chain: seq<string>)
    requires ClimbFrom(w, id, limit).arrived
    ensures ChainTo(w, chain, id) && Carries(w, chain, Reversed(ClimbFrom(w, id, limit).gateways))
    decreases limit
  {
    hide StopsAt, FindGateway, ClimbFrom, Upstream, ChainTo, Forwards;
    if limit == 0 { ClimbStopsAtOnce(w, id); }
    ClimbStep(w, id, limit);
    if StopsAt(w, id) {
      chain := [id];
      StopIsChain(w, id);
    } else {
      var g := FindGateway(w.ecus, id).value;
      var up := w.ecus[g].networkId.value;
      var above := ClimbIsChain(w, up, limit - 1);
      GatewayForwards(w, id);
      chain := ExtendChain(w, above, up, id);
      CarriesOneMore(w, above, ClimbFrom(w, up, limit - 1).gateways, g, id);
    }
  }

  lemma StopIsChain(w: Wires, id: string)
    requires StopsAt(w, id)
    ensures ChainTo(w, [id], id)
  {
    var i :| 0 <= i < |w.networks| && w.networks[i] == FindNetwork(w.networks, id).value;
    assert TakesTester(w, id);
  }

  lemma GatewayForwards(w: Wires, id: string)
    requires FindGateway(w.ecus, id).Some? && w.ecus[FindGateway(w.ecus, id).value].networkId.Some?
    ensures Forwards(w, w.ecus[FindGateway(w.ecus, id).value].networkId.value, id)
  {
    hide FindGateway;
  }

  lemma CarriesOneMore(w: Wires, above: seq<string>, rest: seq<nat>, g: nat, id: string)
    requires Carries(w, above, Reversed(rest)) && g < |w.ecus| && w.ecus[g].networkId.Some? && id in w.ecus[g].gatewayFor
    requires ChainTo(w, above, w.ecus[g].networkId.value)
    ensures Carries(w, above + [id], Reversed([g] + rest))
  {
    assert Reversed([g] + rest) == Reversed(rest) + [g];
  }

  lemma ExtendChain(w: Wires, chain: seq<string>, above: string, below: string) returns (longer: seq<string>)
    requires ChainTo(w, chain, above) && Forwards(w, above, below)
    ensures longer == chain + [below] && ChainTo(w, longer, below)
  {
    longer := chain + [below];
    forall j | 0 <= j < |longer| - 1 ensures Forwards(w, longer[j], longer[j + 1]) {
      if j < |chain| - 1 {
        assert Forwards(w, chain[j], chain[j + 1]);
      }
    }
  }

  /** Every chain but the shortest has a chain above its last network. */
  lemma ChainAbove(w: Wires, chain: seq<string>, id: string)
    requires ChainTo(w, chain, id) && |chain| > 1
    ensures var above := chain[..|chain| - 1];
            ChainTo(w, above, above[|above| - 1]) && Forwards(w, above[|above| - 1], id)
  {
    var above := chain[..|chain| - 1];
    assert Forwards(w, chain[|chain| - 2], chain[|chain| - 1]);
    forall i | 0 <= i < |above| - 1 ensures Forwards(w, above[i], above[i + 1]) {
      assert Forwards(w, chain[i], chain[i + 1]);
    }
  }

  /** With single claims, a climb from the foot of a chain arrives within the chain's length. */
  lemma {:induction false} ChainIsClimbed(w: Wires, chain: seq<string>, id: string)
    requires ClaimedOnce(w) && ChainTo(w, chain, id) && StopsAt(w, chain[0])
    ensures ClimbFrom(w, id, |chain|).arrived
    ensures |ClimbFrom(w, id, |chain|).gateways| <= |chain| - 1
    decreases |chain|
  {
    if |chain| > 1 && !StopsAt(w, id) {
      ChainAbove(w, chain, id);
      var above := chain[..|chain| - 1];
      var up := above[|above| - 1];
      ForwardsIsUpstream(w, up, id);
      ChainIsClimbed(w, above, up);
    }
  }

  /** The networks an arriving climb passes, each with its remaining hop count. */
  lemma {:induction false} ClimbPasses(w: Wires, id: string, limit: nat) returns (passed: seq<string>)
    requires ReferencesDeclared(w) && Declared(w, id) && ClimbFrom(w, id, limit).arrived
    ensures |passed| == |ClimbFrom(w, id, limit).gateways| + 1
    ensures forall i :: 0 <= i < |passed| ==>
              Declared(w, passed[i])
              && ClimbFrom(w, passed[i], limit).arrived
              && |ClimbFrom(w, passed[i], limit).gateways| == |passed| - 1 - i
    decreases limit
  {
    hide ReferencesDeclared, Declared, StopsAt, Upstream, ClimbFrom;
    if limit == 0 { ClimbStopsAtOnce(w, id); }
    ClimbCounts(w, id, limit);
    if StopsAt(w, id) {
      passed := [id];
    } else {
      var up := Upstream(w, id).value;
      UpstreamDeclared(w, id, up);
      var rest := ClimbPasses(w, up, limit - 1);
      passed := [id] + rest;
      forall i | 0 < i < |passed|
        ensures Declared(w, passed[i]) && ClimbFrom(w, passed[i], limit).arrived
                && |ClimbFrom(w, passed[i], limit).gateways| == |passed| - 1 - i
      {
        assert passed[i] == rest[i - 1];
        ArrivalIsStable(w, rest[i - 1], limit - 1, limit);
      }
    }
  }

  /**
   * A climb that arrives crosses fewer gateways than there are networks: the networks passed
   * have different remaining hop counts, so they are different declared networks.
   */
  lemma ArrivalIsShort(w: Wires, id: string, limit: nat)
    requires ReferencesDeclared(w) && ClimbFrom(w, id, limit).arrived
    ensures |ClimbFrom(w, id, limit).gateways| < |w.networks|
  {
    ArrivingIsDeclared(w, id, limit);
    var passed := ClimbPasses(w, id, limit);
    assert Distinct(passed);
    var ids := seq(|w.networks|, i requires 0 <= i < |w.networks| => w.networks[i].id);
    forall i | 0 <= i < |passed| ensures passed[i] in Elements(ids) {
      assert Declared(w, passed[i]);
      var k :| 0 <= k < |w.networks| && w.networks[k].id == passed[i];
      assert ids[k] == passed[i];
    }
    DistinctFits(passed, Elements(ids));
    ElementsFit(ids);
  }

  lemma ArrivingIsDeclared(w: Wires, id: string, limit: nat)
    requires ReferencesDeclared(w) && ClimbFrom(w, id, limit).arrived
    ensures Declared(w, id)
  {
    if StopsAt(w, id) {
      var i :| 0 <= i < |w.networks| && w.networks[i] == FindNetwork(w.networks, id).value;
    } else {
      var g := FindGateway(w.ecus, id).value;
      assert EcuReferencesDeclared(w, w.ecus[g]);
    }
  }
}
