/**
 * The main results about the wiring: the depth map and the upward walk agree, the hop limit never
 * decides anything, unmarked vehicles become reachable, and power is independent of wiring.
 */
module WiringTheorems {
  import opened Basics
  import opened Wiring
  import opened WiringSteps

  // ---------------------------------------------------------------- two algorithms, one answer

  /** The upward walk and the depth map say the same about one network. */
  ghost predicate Agrees(w: Wires, depths: map<string, nat>, id: string) {
    var climb := ClimbFrom(w, id, HopLimit(w));
    && (climb.arrived <==> id in depths)
    && (climb.arrived ==> |climb.gateways| == depths[id])
  }

  ghost predicate UniqueIds(w: Wires) {
    forall i, j :: 0 <= i < j < |w.networks| ==> w.networks[i].id != w.networks[j].id
  }

  /** Where any network of an id takes a tester, the first network of that id does. */
  ghost predicate FirstMatchDecides(w: Wires) {
    forall id :: TakesTester(w, id) ==> StopsAt(w, id)
  }

  lemma UniqueIdsDecide(w: Wires)
    requires UniqueIds(w)
    ensures FirstMatchDecides(w)
  {
    forall id | TakesTester(w, id) ensures StopsAt(w, id) {
      var i :| 0 <= i < |w.networks| && w.networks[i].id == id && w.networks[i].isEntryPoint;
      var found := FindNetwork(w.networks, id);
      assert found.Some? && found.value.id == id;
      var j :| 0 <= j < |w.networks| && w.networks[j] == found.value;
      assert i == j;
    }
  }

  /** On any wiring, validated or not, the hop limit cuts off exactly the walks over more gateways than networks are declared. */
  lemma HopLimitBitesExactly(w: Wires, id: string, limit: nat)
    requires ClimbFrom(w, id, limit).arrived
    ensures ClimbFrom(w, id, HopLimit(w)).arrived <==> |ClimbFrom(w, id, limit).gateways| <= |w.networks|
    ensures ClimbFrom(w, id, HopLimit(w)).arrived ==> ClimbFrom(w, id, HopLimit(w)) == ClimbFrom(w, id, limit)
  {
    hide ClimbFrom;
    ArrivalNeeds(w, id, limit);
    var needed := |ClimbFrom(w, id, limit).gateways| + 1;
    if needed <= HopLimit(w) { ArrivalIsStable(w, id, needed, HopLimit(w)); }
    if ClimbFrom(w, id, HopLimit(w)).arrived {
      ArrivalNeeds(w, id, HopLimit(w));
      if HopLimit(w) <= limit { ArrivalIsStable(w, id, HopLimit(w), limit); }
    }
  }

  /** So with every reference declared it cuts off no walk that would have succeeded under any other limit. */
  lemma HopLimitNeverBites(w: Wires, id: string, limit: nat)
    requires ReferencesDeclared(w) && ClimbFrom(w, id, limit).arrived
    ensures ClimbFrom(w, id, HopLimit(w)) == ClimbFrom(w, id, limit)
  {
    ArrivalIsShort(w, id, limit);
    HopLimitBitesExactly(w, id, limit);
  }

  /** Two undeclared networks on the way up from one of them: the walk needs three rounds and gets two. */
  lemma UndeclaredReachesTheLimit()
    ensures var w := Wires([Network("a", "a", true)], [Ecu("g", Some("a"), ["b"], true), Ecu("h", Some("b"), ["c"], true)]);
            && HopLimit(w) == 2
            && ClimbFrom(w, "c", 3) == Climb([1, 0], true)
            && ClimbFrom(w, "c", HopLimit(w)) == Climb([1, 0], false)
  {
    var w := Wires([Network("a", "a", true)], [Ecu("g", Some("a"), ["b"], true), Ecu("h", Some("b"), ["c"], true)]);
    OneUpwardEach(w);
    hide StopsAt, FindGateway, ClimbFrom;
    ClimbStep(w, "a", 1);
    ClimbStep(w, "b", 2);
    ClimbStep(w, "c", 3);
    ClimbStopsAtOnce(w, "a");
    ClimbStep(w, "b", 1);
    ClimbStep(w, "c", 2);
  }

  lemma OneUpwardEach(w: Wires)
    requires w == Wires([Network("a", "a", true)], [Ecu("g", Some("a"), ["b"], true), Ecu("h", Some("b"), ["c"], true)])
    ensures StopsAt(w, "a") && !StopsAt(w, "b") && !StopsAt(w, "c")
    ensures FindGateway(w.ecus, "b") == Some(0) && FindGateway(w.ecus, "c") == Some(1)
  {
    assert w.ecus[0].gatewayFor == ["b"] && w.ecus[1].gatewayFor == ["c"];
    assert FindNetwork(w.networks, "a") == Some(w.networks[0]);
    assert w.networks[0].id == "a";
  }

  lemma WalkAgreesWithDepths(w: Wires, depths: map<string, nat>, id: string)
    requires ReferencesDeclared(w) && ClaimedOnce(w) && FirstMatchDecides(w)
    requires ShortestDepths(w, depths)
    ensures Agrees(w, depths, id)
  {
    if id in depths {
      var chain :| ChainTo(w, chain, id) && |chain| - 1 == depths[id];
      ChainIsClimbed(w, chain, id);
      HopLimitNeverBites(w, id, |chain|);
    }
    if ClimbFrom(w, id, HopLimit(w)).arrived {
      var chain := ClimbIsChain(w, id, HopLimit(w));
    }
  }

  /** On accepted wiring the two algorithms agree everywhere exactly when the first match decides. */
  lemma AgreementExactly(w: Wires, depths: map<string, nat>)
    requires Sound(w) && ShortestDepths(w, depths)
    ensures (forall id :: Agrees(w, depths, id)) <==> FirstMatchDecides(w)
  {
    if FirstMatchDecides(w) {
      forall id ensures Agrees(w, depths, id) {
        WalkAgreesWithDepths(w, depths, id);
      }
    }
    if forall id :: Agrees(w, depths, id) {
      forall id | TakesTester(w, id) ensures StopsAt(w, id) {
        assert ChainTo(w, [id], id);
        assert Agrees(w, depths, id);
      }
    }
  }

  /** A repeated id marked only on its second network: accepted, and the two algorithms disagree. */
  lemma RepeatedIdDisagrees()
    ensures var w := Wires([Network("a", "first", false), Network("a", "second", true)], []);
            Sound(w) && ShortestDepths(w, map["a" := 0]) && !Agrees(w, map["a" := 0], "a")
  {
    var w := Wires([Network("a", "first", false), Network("a", "second", true)], []);
    var depths: map<string, nat> := map["a" := 0];
    assert w.networks[1].id == "a" && w.networks[1].isEntryPoint;
    assert TakesTester(w, "a");
    assert ChainTo(w, ["a"], "a");
    forall id, chain | ChainTo(w, chain, id) ensures id in depths && depths[id] <= |chain| - 1 {
      if |chain| > 1 {
        ChainAbove(w, chain, id);
        assert false;
      }
    }
    assert !StopsAt(w, "a");
    assert Acyclic(w) by {
      forall id, steps: nat | steps > 0 && Declared(w, id) ensures Ancestor(w, id, steps) != Some(id) {
        assert Upstream(w, id).None?;
      }
    }
  }

  /** What a caller reads off a path: reachability, hops and a real chain of gateways, tester first. */
  lemma PathMatchesDepths(w: Wires, depths: map<string, nat>, ecu: Ecu)
    requires ReferencesDeclared(w) && ClaimedOnce(w) && FirstMatchDecides(w) && ShortestDepths(w, depths)
    ensures var path := PathTo(w, ecu);
            && (ecu.networkId.None? ==> path == DiagnosticPath([], 0, true, None))
            && (ecu.networkId.Some? ==>
                  && (path.isReachable <==> ecu.networkId.value in depths)
                  && (path.isReachable ==> path.hopCount == depths[ecu.networkId.value] == |path.gatewayNames|)
                  && (path.isReachable ==> exists chain :: ChainTo(w, chain, ecu.networkId.value) && Carries(w, chain, GatewaysTo(w, ecu))))
            && path.gatewayNames == Names(w.ecus, GatewaysTo(w, ecu))
  {
    if ecu.networkId.Some? {
      WalkAgreesWithDepths(w, depths, ecu.networkId.value);
      if PathTo(w, ecu).isReachable {
        var chain := ClimbIsChain(w, ecu.networkId.value, HopLimit(w));
      }
    }
  }

  /**
   * Zero hops are reported for an ECU on no network, for one where the walk stops at once, and for one
   * whose network takes no tester and has no gateway; the last is unreachable and on no entry-point link.
   */
  lemma ZeroHopsExactly(w: Wires, ecu: Ecu)
    ensures var path := PathTo(w, ecu);
            && (path.hopCount == 0 <==>
                  ecu.networkId.None? || StopsAt(w, ecu.networkId.value) || FindGateway(w.ecus, ecu.networkId.value).None?)
            && (path.hopCount == 0 && path.isReachable <==> ecu.networkId.None? || StopsAt(w, ecu.networkId.value))
  {
    hide StopsAt, FindGateway, ClimbFrom;
    if ecu.networkId.Some? { ClimbStep(w, ecu.networkId.value, HopLimit(w)); }
  }

  /** There is only one map of shortest depths. */
  lemma DepthsAreUnique(w: Wires, a: map<string, nat>, b: map<string, nat>)
    requires ShortestDepths(w, a) && ShortestDepths(w, b)
    ensures a == b
  {
    forall id | id in a ensures id in b && b[id] <= a[id] {
      var chain :| ChainTo(w, chain, id) && |chain| - 1 == a[id];
    }
    forall id | id in b ensures id in a && a[id] <= b[id] {
      var chain :| ChainTo(w, chain, id) && |chain| - 1 == b[id];
    }
  }

  // ---------------------------------------------------------------- entry points

  lemma NormalizingTwiceIsOnce(w: Wires)
    ensures Normalized(Normalized(w)) == Normalized(w)
  {
    if !HasExplicitChoice(w) {
      var n := Normalized(w);
      assert forall id :: Gatewayed(n, id) <==> Gatewayed(w, id);
      assert Normalized(n).networks == n.networks;
    }
  }

  /** The walk upward from here ends at a gateway nobody placed on a network. */
  ghost predicate EndsUnplaced(w: Wires, id: string) {
    exists steps: nat :: Ancestor(w, id, steps).Some? && AtUnplacedGateway(w, Ancestor(w, id, steps).value)
  }

  ghost predicate AtUnplacedGateway(w: Wires, id: string) {
    var gateway := FindGateway(w.ecus, id);
    gateway.Some? && w.ecus[gateway.value].networkId.None?
  }

  lemma EndsUnplacedAbove(w: Wires, id: string)
    requires Upstream(w, id).Some?
    ensures EndsUnplaced(w, id) <==> EndsUnplaced(w, Upstream(w, id).value)
  {
    var up := Upstream(w, id).value;
    if EndsUnplaced(w, id) {
      var steps: nat :| Ancestor(w, id, steps).Some? && AtUnplacedGateway(w, Ancestor(w, id, steps).value);
      assert steps > 0;
      assert Ancestor(w, up, steps - 1) == Ancestor(w, id, steps);
    }
    if EndsUnplaced(w, up) {
      var steps: nat :| Ancestor(w, up, steps).Some? && AtUnplacedGateway(w, Ancestor(w, up, steps).value);
      assert Ancestor(w, id, steps + 1) == Ancestor(w, up, steps);
    }
  }

  /** Acyclic declared wiring: a walk upward ends within as many steps as there are networks. */
  lemma WalksAreShort(w: Wires, id: string)
    requires ReferencesDeclared(w) && Acyclic(w) && Declared(w, id)
    ensures Ancestor(w, id, |w.networks|).None?
  {
    if Ancestor(w, id, |w.networks|).Some? {
      var met := AncestorsMet(w, id, |w.networks|);
      forall i, j | 0 <= i < j < |met| ensures met[i] != met[j] {
        AncestorSplits(w, id, i, j - i);
      }
      var ids := seq(|w.networks|, i requires 0 <= i < |w.networks| => w.networks[i].id);
      forall i | 0 <= i < |met| ensures met[i] in Elements(ids) {
        assert Declared(w, met[i]);
        var k :| 0 <= k < |w.networks| && w.networks[k].id == met[i];
        assert ids[k] == met[i];
      }
      DistinctFits(met, Elements(ids));
      ElementsFit(ids);
      assert false;
    }
  }

  lemma {:induction false} AncestorsMet(w: Wires, id: string, steps: nat) returns (met: seq<string>)
    requires ReferencesDeclared(w) && Declared(w, id) && Ancestor(w, id, steps).Some?
    ensures |met| == steps + 1
    ensures forall i :: 0 <= i < |met| ==> Declared(w, met[i]) && Ancestor(w, id, i) == Some(met[i])
    decreases steps
  {
    if steps == 0 {
      met := [id];
    } else {
      var up := Upstream(w, id).value;
      UpstreamDeclared(w, id, up);
      var rest := AncestorsMet(w, up, steps - 1);
      met := [id] + rest;
    }
  }

  lemma NormalizedStops(w: Wires, id: string)
    requires !HasExplicitChoice(w) && Declared(w, id)
    ensures StopsAt(Normalized(w), id) <==> FindGateway(w.ecus, id).None?
  {
    var n := Normalized(w);
    var found := FindNetwork(n.networks, id);
    assert Declared(n, id) by {
      var i :| 0 <= i < |w.networks| && w.networks[i].id == id;
      assert n.networks[i].id == id;
    }
    assert found.Some?;
    var k :| 0 <= k < |n.networks| && n.networks[k] == found.value;
    assert n.networks[k].isEntryPoint <==> !Gatewayed(w, w.networks[k].id);
  }

  lemma {:induction false} NormalizedClimb(w: Wires, id: string, steps: nat, limit: nat)
    requires Sound(w) && !HasExplicitChoice(w) && Declared(w, id)
    requires 0 < steps <= limit && Ancestor(w, id, steps).None?
    ensures ClimbFrom(Normalized(w), id, limit).arrived <==> !EndsUnplaced(w, id)
    decreases steps
  {
    hide Normalized, Sound, Declared, EndsUnplaced, HasExplicitChoice, ClimbFrom, StopsAt, Ancestor, Upstream;
    match Upstream(w, id)
    case Some(up) =>
      NormalizedStep(w, id, up, steps, limit);
      NormalizedClimb(w, up, steps - 1, limit - 1);
    case None =>
      NormalizedTop(w, id, limit);
  }

  lemma NormalizedStep(w: Wires, id: string, up: string, steps: nat, limit: nat)
    requires Sound(w) && !HasExplicitChoice(w) && Declared(w, id) && Upstream(w, id) == Some(up)
    requires 0 < steps <= limit && Ancestor(w, id, steps).None?
    ensures Declared(w, up) && steps > 1 && Ancestor(w, up, steps - 1).None?
    ensures ClimbFrom(Normalized(w), id, limit).arrived == ClimbFrom(Normalized(w), up, limit - 1).arrived
    ensures EndsUnplaced(w, id) == EndsUnplaced(w, up)
  {
    NormalizedStops(w, id);
    ClimbCounts(Normalized(w), id, limit);
    NormalizedKeepsUpstream(w, id);
    UpstreamHasGateway(w, id);
    UpstreamDeclared(w, id, up);
    EndsUnplacedAbove(w, id);
    hide Normalized, Declared, EndsUnplaced, HasExplicitChoice, ClimbFrom, StopsAt, Upstream, FindGateway;
  }

  lemma NormalizedTop(w: Wires, id: string, limit: nat)
    requires !HasExplicitChoice(w) && Declared(w, id) && Upstream(w, id).None? && limit > 0
    ensures ClimbFrom(Normalized(w), id, limit).arrived <==> !EndsUnplaced(w, id)
  {
    NormalizedStops(w, id);
    ClimbCounts(Normalized(w), id, limit);
    NormalizedKeepsUpstream(w, id);
    NowhereUp(w, id);
    hide Normalized, Declared, EndsUnplaced, HasExplicitChoice, ClimbFrom, StopsAt, FindGateway;
  }

  lemma NormalizedKeepsUpstream(w: Wires, id: string)
    ensures Upstream(Normalized(w), id) == Upstream(w, id)
  {
    hide Normalized, FindGateway;
  }

  lemma UpstreamHasGateway(w: Wires, id: string)
    requires Upstream(w, id).Some?
    ensures FindGateway(w.ecus, id).Some?
  {
    hide FindGateway;
  }

  lemma NowhereUp(w: Wires, id: string)
    requires Upstream(w, id).None?
    ensures EndsUnplaced(w, id) <==> AtUnplacedGateway(w, id)
  {
    assert Ancestor(w, id, 0) == Some(id);
    if !AtUnplacedGateway(w, id) {
      forall s: nat | Ancestor(w, id, s).Some? ensures !AtUnplacedGateway(w, Ancestor(w, id, s).value) {
        assert s == 0;
      }
    }
  }

  /** After normalising an accepted, unmarked vehicle, an ECU is cut off exactly by an unplaced gateway above it. */
  lemma ReachableUnlessUnplaced(w: Wires, ecu: Ecu)
    requires Sound(w) && !HasExplicitChoice(w) && ecu in w.ecus
    ensures Reachable(Normalized(w), ecu) <==> (ecu.networkId.None? || !EndsUnplaced(w, ecu.networkId.value))
  {
    if ecu.networkId.Some? {
      var i :| 0 <= i < |w.ecus| && w.ecus[i] == ecu;
      assert EcuReferencesDeclared(w, w.ecus[i]);
      WalksAreShort(w, ecu.networkId.value);
      NormalizedClimb(w, ecu.networkId.value, |w.networks|, HopLimit(w));
    }
  }

  /** So when every gateway sits on a network, every ECU is reachable. */
  lemma NormalizingReachesAll(w: Wires)
    requires Sound(w) && !HasExplicitChoice(w)
    requires forall i :: 0 <= i < |w.ecus| && w.ecus[i].gatewayFor != [] ==> w.ecus[i].networkId.Some?
    ensures forall ecu :: ecu in w.ecus ==> PathTo(Normalized(w), ecu).isReachable
  {
    forall ecu | ecu in w.ecus ensures PathTo(Normalized(w), ecu).isReachable {
      ReachableUnlessUnplaced(w, ecu);
    }
  }

  // ---------------------------------------------------------------- power

  /** The same vehicle up to which ECUs are switched on. */
  ghost predicate SameWiring(v: Wires, w: Wires) {
    && v.networks == w.networks && |v.ecus| == |w.ecus|
    && forall i :: 0 <= i < |v.ecus| ==> v.ecus[i] == w.ecus[i].(isEnabled := v.ecus[i].isEnabled)
  }

  lemma {:induction false} GatewayIgnoresPower(v: seq<Ecu>, w: seq<Ecu>, id: string)
    requires |v| == |w| && forall i :: 0 <= i < |v| ==> v[i] == w[i].(isEnabled := v[i].isEnabled)
    ensures FindGateway(v, id) == FindGateway(w, id)
  {
    if v != [] {
      assert v[0] == w[0].(isEnabled := v[0].isEnabled);
      GatewayIgnoresPower(v[1..], w[1..], id);
    }
  }

  lemma {:induction false} ClimbIgnoresPower(v: Wires, w: Wires, id: string, limit: nat)
    requires SameWiring(v, w)
    ensures ClimbFrom(v, id, limit) == ClimbFrom(w, id, limit)
    decreases limit
  {
    hide SameWiring, FindGateway, StopsAt, ClimbFrom, Upstream;
    StepIgnoresPower(v, w, id);
    if limit > 0 {
      ClimbStep(v, id, limit);
      ClimbStep(w, id, limit);
    } else {
      ClimbStopsAtOnce(v, id);
      ClimbStopsAtOnce(w, id);
    }
    if limit > 0 && !StopsAt(v, id) {
      var g := FindGateway(v.ecus, id);
      if g.Some? && v.ecus[g.value].networkId.Some? {
        ClimbIgnoresPower(v, w, v.ecus[g.value].networkId.value, limit - 1);
      }
    }
  }

  lemma StepIgnoresPower(v: Wires, w: Wires, id: string)
    requires SameWiring(v, w)
    ensures StopsAt(v, id) == StopsAt(w, id) && FindGateway(v.ecus, id) == FindGateway(w.ecus, id) && Upstream(v, id) == Upstream(w, id)
    ensures FindGateway(v.ecus, id).Some? ==>
              v.ecus[FindGateway(v.ecus, id).value].networkId == w.ecus[FindGateway(v.ecus, id).value].networkId
  {
    GatewayIgnoresPower(v.ecus, w.ecus, id);
    var g := FindGateway(v.ecus, id);
    assert g.Some? ==> v.ecus[g.value] == w.ecus[g.value].(isEnabled := v.ecus[g.value].isEnabled);
  }

  lemma AncestorStep(w: Wires, id: string, steps: nat)
    ensures Ancestor(w, id, steps)
            == if steps == 0 then Some(id)
               else if Upstream(w, id).None? then None
               else Ancestor(w, Upstream(w, id).value, steps - 1)
  {
    hide Upstream;
  }

  lemma {:induction false} AncestryIgnoresPower(v: Wires, w: Wires, id: string, steps: nat)
    requires SameWiring(v, w)
    ensures Ancestor(v, id, steps) == Ancestor(w, id, steps)
    decreases steps
  {
    hide SameWiring, Upstream, FindGateway, StopsAt, Ancestor;
    AncestorStep(v, id, steps);
    AncestorStep(w, id, steps);
    if steps > 0 {
      StepIgnoresPower(v, w, id);
      if Upstream(v, id).Some? { AncestryIgnoresPower(v, w, Upstream(v, id).value, steps - 1); }
    }
  }

  /** Switching ECUs on or off changes no verdict, no depth and no path but for who blocks it. */
  lemma PowerChangesNoWiring(v: Wires, w: Wires, ecu: Ecu, depths: map<string, nat>)
    requires SameWiring(v, w)
    ensures Sound(v) ==> Sound(w)
    ensures ShortestDepths(v, depths) ==> ShortestDepths(w, depths)
    ensures GatewaysTo(v, ecu) == GatewaysTo(w, ecu)
    ensures PathTo(v, ecu).(disabledGateway := None) == PathTo(w, ecu).(disabledGateway := None)
  {
    if Sound(v) { PowerKeepsSoundness(v, w); }
    PowerKeepsChains(v, w);
    PowerKeepsChains(w, v);
    if ecu.networkId.Some? {
      ClimbIgnoresPower(v, w, ecu.networkId.value, HopLimit(w));
    }
  }

  lemma PowerKeepsSoundness(v: Wires, w: Wires)
    requires SameWiring(v, w) && Sound(v)
    ensures Sound(w)
  {
    forall i | 0 <= i < |w.ecus| ensures EcuReferencesDeclared(w, w.ecus[i]) && !OntoOwnNetwork(w.ecus[i]) {
      assert EcuReferencesDeclared(v, v.ecus[i]) && !OntoOwnNetwork(v.ecus[i]);
      assert forall id :: Declared(v, id) <==> Declared(w, id);
    }
    assert ClaimedOnce(w) by {
      assert forall i :: 0 <= i < |w.ecus| ==> v.ecus[i].gatewayFor == w.ecus[i].gatewayFor;
    }
    forall id, steps: nat | steps > 0 && Declared(w, id) ensures Ancestor(w, id, steps) != Some(id) {
      assert Declared(v, id);
      AncestryIgnoresPower(v, w, id, steps);
    }
  }

  lemma PowerKeepsChains(v: Wires, w: Wires)
    requires SameWiring(v, w)
    ensures forall id, chain :: ChainTo(v, chain, id) ==> ChainTo(w, chain, id)
  {
    forall above, below | Forwards(v, above, below) ensures Forwards(w, above, below) {
      var i :| 0 <= i < |v.ecus| && v.ecus[i].networkId == Some(above) && below in v.ecus[i].gatewayFor;
      assert w.ecus[i].networkId == Some(above) && below in w.ecus[i].gatewayFor;
    }
    assert forall id :: TakesTester(v, id) ==> TakesTester(w, id);
  }

  /** An ECU is reported blocked exactly when a gateway on its path is off, and by the one nearest the tester. */
  lemma BlockedByNearestToTester(w: Wires, ecu: Ecu)
    ensures var path := PathTo(w, ecu);
            var gateways := GatewaysTo(w, ecu);
            && (path.disabledGateway.Some? <==> exists k :: 0 <= k < |gateways| && !w.ecus[gateways[k]].isEnabled)
            && (path.disabledGateway.Some? ==>
                  exists k :: 0 <= k < |gateways| && !w.ecus[gateways[k]].isEnabled && path.gatewayNames[k] == path.disabledGateway.value
                              && forall j :: 0 <= j < k ==> w.ecus[gateways[j]].isEnabled)
  {
    var path, gateways := PathTo(w, ecu), GatewaysTo(w, ecu);
    var off := FirstOff(w.ecus, gateways);
    if off.Some? {
      var k :| 0 <= k < |gateways| && gateways[k] == off.value && !w.ecus[off.value].isEnabled
               && forall j :: 0 <= j < k ==> w.ecus[gateways[j]].isEnabled;
      assert path.gatewayNames[k] == w.ecus[off.value].name;
    }
  }

  ghost function SwitchedOff(w: Wires, g: nat): Wires
    requires g < |w.ecus|
  {
    w.(ecus := w.ecus[g := w.ecus[g].(isEnabled := false)])
  }

  /** Switching one gateway off newly blocks exactly the unblocked ECUs with it on their path. */
  lemma OneGatewayOff(w: Wires, g: nat, ecu: Ecu)
    requires g < |w.ecus|
    ensures var before := PathTo(w, ecu).disabledGateway;
            var now := PathTo(SwitchedOff(w, g), ecu).disabledGateway;
            && (before.Some? ==> now.Some?)
            && (before.None? ==> (now.Some? <==> g in GatewaysTo(w, ecu)))
            && (before.None? && now.Some? ==> now.value == w.ecus[g].name)
  {
    hide PathTo, GatewaysTo, Names, SameWiring, Sound, ShortestDepths, SwitchedOff;
    var v := SwitchedOff(w, g);
    OffKeepsWiring(w, g);
    PowerChangesNoWiring(w, v, ecu, map[]);
    BlockedByNearestToTester(w, ecu);
    BlockedByNearestToTester(v, ecu);
    OnlyOneIsOff(w, g, GatewaysTo(w, ecu));
    if PathTo(w, ecu).disabledGateway.None? && PathTo(v, ecu).disabledGateway.Some? {
      NamesTheOneOff(w, g, ecu);
    }
  }

  lemma OffKeepsWiring(w: Wires, g: nat)
    requires g < |w.ecus|
    ensures SameWiring(w, SwitchedOff(w, g))
  {
  }

  ghost predicate SomeOff(ecus: seq<Ecu>, gateways: seq<nat>)
    requires forall k :: 0 <= k < |gateways| ==> gateways[k] < |ecus|
  {
    exists k :: 0 <= k < |gateways| && !ecus[gateways[k]].isEnabled
  }

  /** Off afterwards are the gateways that were off, and the one switched off. */
  lemma OnlyOneIsOff(w: Wires, g: nat, gateways: seq<nat>)
    requires g < |w.ecus| && forall k :: 0 <= k < |gateways| ==> gateways[k] < |w.ecus|
    ensures |SwitchedOff(w, g).ecus| == |w.ecus|
    ensures SomeOff(SwitchedOff(w, g).ecus, gateways) <==> SomeOff(w.ecus, gateways) || g in gateways
  {
    var off := SwitchedOff(w, g).ecus;
    assert forall k :: 0 <= k < |gateways| ==> off[gateways[k]].isEnabled == (w.ecus[gateways[k]].isEnabled && gateways[k] != g);
    if SomeOff(w.ecus, gateways) {
      var k :| 0 <= k < |gateways| && !w.ecus[gateways[k]].isEnabled;
      assert !off[gateways[k]].isEnabled;
    }
    if g in gateways {
      var k :| 0 <= k < |gateways| && gateways[k] == g;
      assert !off[gateways[k]].isEnabled;
    }
  }

  lemma NamesTheOneOff(w: Wires, g: nat, ecu: Ecu)
    requires g < |w.ecus| && !SomeOff(w.ecus, GatewaysTo(w, ecu)) && SameWiring(w, SwitchedOff(w, g))
    requires PathTo(SwitchedOff(w, g), ecu).disabledGateway.Some?
    ensures PathTo(SwitchedOff(w, g), ecu).disabledGateway.value == w.ecus[g].name
  {
    hide PathTo, GatewaysTo, SameWiring, Sound, ShortestDepths;
    var v := SwitchedOff(w, g);
    PowerChangesNoWiring(w, v, ecu, map[]);
    PathNames(v, ecu);
    BlockedByNearestToTester(v, ecu);
    var gateways := GatewaysTo(v, ecu);
    var k :| 0 <= k < |gateways| && !v.ecus[gateways[k]].isEnabled
             && PathTo(v, ecu).gatewayNames[k] == PathTo(v, ecu).disabledGateway.value;
    assert w.ecus[gateways[k]].isEnabled;
  }

  lemma PathNames(w: Wires, ecu: Ecu)
    requires PathTo(w, ecu).disabledGateway.Some?
    ensures PathTo(w, ecu).gatewayNames == Names(w.ecus, GatewaysTo(w, ecu))
  {
    hide ClimbFrom, Names, FirstOff;
  }
}
