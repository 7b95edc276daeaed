/** The vehicle itself, with the four wiring algorithms in the shape the engine runs them. */
module Vehicles {
  import opened Basics
  import opened Wiring
  import opened WiringSearch
  import opened WiringSteps

  class Vehicle {
    var networks: seq<Network>
    var ecus: seq<Ecu>

    constructor (networks: seq<Network>, ecus: seq<Ecu>)
      ensures Wiring() == Wires(networks, ecus)
    {
      this.networks, this.ecus := networks, ecus;
    }

    function Wiring(): Wires
      reads this
    {
      Wires(networks, ecus)
    }

    /** Accept the wiring, or name what is wrong with it. */
    method ValidateTopology() returns (verdict: Result<(), TopologyError>)
      ensures verdict.Ok? <==> Sound(Wiring())
      ensures verdict.Err? ==> Explains(Wiring(), verdict.error)
    {
      for i := 0 to |ecus|
        invariant forall j :: 0 <= j < i ==> EcuReferencesDeclared(Wiring(), ecus[j]) && !OntoOwnNetwork(ecus[j])
      {
        var ecu := ecus[i];
        if ecu.networkId.Some? && FindNetwork(networks, ecu.networkId.value).None? {
          Undeclared(Wiring(), ecu.networkId.value);
          return Err(UnknownNetwork(ecu.name, ecu.networkId.value));
        }
        if ecu.networkId.Some? { IsDeclared(Wiring(), ecu.networkId.value); }

        for k := 0 to |ecu.gatewayFor|
          invariant forall j :: 0 <= j < k ==> Declared(Wiring(), ecu.gatewayFor[j]) && ecu.networkId != Some(ecu.gatewayFor[j])
        {
          var behind := ecu.gatewayFor[k];
          if FindNetwork(networks, behind).None? {
            Undeclared(Wiring(), behind);
            return Err(UnknownNetwork(ecu.name, behind));
          }
          IsDeclared(Wiring(), behind);
          if ecu.networkId == Some(behind) {
            return Err(GatewayOntoOwnNetwork(ecu.name, behind));
          }
        }
      }

      verdict := RejectSharedGateways();
      if verdict.Err? { return; }
      verdict := RejectGatewayCycles();
      if verdict.Ok? {
        EndingWalksAreAcyclic(Wiring());
      } else {
        LoopReportRefutes(Wiring(), verdict.error.walked);
      }
    }

    /** Accept when no network is claimed twice; otherwise name both claimants, the earlier first. */
    method RejectSharedGateways() returns (verdict: Result<(), TopologyError>)
      ensures verdict.Ok? <==> ClaimedOnce(Wiring())
      ensures verdict.Err? ==> verdict.error.NetworkHasTwoGateways? && Explains(Wiring(), verdict.error)
    {
      hide ClaimsUpTo, ClaimedOnce, Explains;
      ghost var w := Wiring();
      var claims: map<string, string> := map[];
      ghost var places: map<string, (nat, nat)> := map[];
      NothingClaimed(ecus);
      for i := 0 to |ecus|
        invariant ClaimsUpTo(ecus, i, 0, claims, places)
      {
        for k := 0 to |ecus[i].gatewayFor|
          invariant ClaimsUpTo(ecus, i, k, claims, places)
        {
          var behind := ecus[i].gatewayFor[k];
          if behind in claims {
            ClaimRepeats(w, i, k, claims, places);
            return Err(NetworkHasTwoGateways(behind, claims[behind], ecus[i].name));
          }
          ClaimIsNew(ecus, i, k, claims, places);
          claims := claims[behind := ecus[i].name];
          places := places[behind := (i, k)];
        }
        EcuIsThrough(ecus, i, claims, places);
      }
      NoClaimRepeats(w, claims, places);
      return Ok(());
    }

    /** Refuse wiring where walking upward from some network meets a network twice. */
    method RejectGatewayCycles() returns (verdict: Result<(), TopologyError>)
      ensures verdict.Ok? ==> forall i :: 0 <= i < |networks| ==> WalkEnds(Wiring(), networks[i].id)
      ensures verdict.Err? ==> verdict.error.GatewayCycle? && IsLoopReport(Wiring(), verdict.error.walked)
    {
      ghost var w := Wiring();
      hide WalkEnds, IsLoopReport;
      for i := 0 to |networks|
        invariant forall j :: 0 <= j < i ==> WalkEnds(w, networks[j].id)
      {
        var walked := [networks[i].id];
        var current := networks[i].id;
        assert Declared(w, current);
        assert WalkingUp(w, current, walked);
        var gateway := FindGateway(ecus, current);
        while gateway.Some?
          invariant WalkingUp(w, networks[i].id, walked) && current == walked[|walked| - 1]
          invariant gateway == FindGateway(ecus, current)
          decreases |SatOn(w)| + 1 - |walked|
        {
          if ecus[gateway.value].networkId.None? { break; }
          var upstream := ecus[gateway.value].networkId.value;
          if upstream in walked {
            WalkMeetsItself(w, networks[i].id, walked, upstream);
            return Err(GatewayCycle(walked + [upstream]));
          }
          WalkGoesOn(w, networks[i].id, walked, upstream);
          walked := walked + [upstream];
          current := upstream;
          gateway := FindGateway(ecus, current);
        }
        WalkIsOver(w, networks[i].id, walked);
      }
      return Ok(());
    }

    /** Mark every network nothing forwards onto as an entry point, unless somebody chose one. */
    method NormalizeEntryPoints()
      modifies this
      ensures ecus == old(ecus)
      ensures networks == Normalized(old(Wiring())).networks
    {
      var hasChoice := false;
      for i := 0 to |networks|
        invariant hasChoice <==> exists j :: 0 <= j < i && networks[j].isEntryPoint
      {
        hasChoice := hasChoice || networks[i].isEntryPoint;
      }
      if hasChoice { return; }

      var gatewayed: set<string> := {};
      for i := 0 to |ecus|
        invariant forall id :: id in gatewayed <==> exists j :: 0 <= j < i && id in ecus[j].gatewayFor
      {
        for k := 0 to |ecus[i].gatewayFor|
          invariant forall id :: id in gatewayed <==>
                                 (exists j :: 0 <= j < i && id in ecus[j].gatewayFor) || id in ecus[i].gatewayFor[..k]
        {
          gatewayed := gatewayed + {ecus[i].gatewayFor[k]};
          assert ecus[i].gatewayFor[..k + 1] == ecus[i].gatewayFor[..k] + [ecus[i].gatewayFor[k]];
        }
        assert ecus[i].gatewayFor[..|ecus[i].gatewayFor|] == ecus[i].gatewayFor;
      }

      var entryPoints: seq<string> := [];
      for i := 0 to |networks|
        invariant forall id :: id in entryPoints <==> id !in gatewayed && exists j :: 0 <= j < i && networks[j].id == id
      {
        if networks[i].id !in gatewayed {
          entryPoints := entryPoints + [networks[i].id];
        }
      }

      ghost var before := networks;
      for i := 0 to |networks|
        invariant |networks| == |before| && ecus == old(ecus)
        invariant forall j :: i <= j < |networks| ==> networks[j] == before[j]
        invariant forall j :: 0 <= j < i ==> networks[j] == before[j].(isEntryPoint := before[j].id in entryPoints)
      {
        networks := networks[i := networks[i].(isEntryPoint := networks[i].id in entryPoints)];
      }
    }

    /** The depth map, filled level by level from the networks that take a tester. */
    method NetworkDepths() returns (depths: map<string, nat>)
      ensures ShortestDepths(Wiring(), depths)
    {
      ghost var w := Wiring();
      var frontier: seq<Visit>;
      ghost var chains: map<string, seq<string>>;
      depths, frontier, chains := AttachTesters(Wiring());
      hide Layered, AllExpandedBut, Witnessed, ShortestDepths, TestersAtZero, Forwards, Meetable;
      while frontier != []
        invariant Witnessed(w, depths, chains) && TestersAtZero(w, depths)
        invariant frontier != [] ==> Layered(depths, frontier, frontier[0].depth)
        invariant AllExpandedBut(w, depths, frontier, {})
        decreases Meetable(w) - depths.Keys, |frontier|
      {
        TakeHead(w, depths, frontier);
        var visit := frontier[0];
        frontier := frontier[1..];
        ghost var known, waiting := depths, frontier;

        for i := 0 to |ecus|
          invariant Expanding(w, depths, chains, frontier, visit)
          invariant forall j, b :: 0 <= j < i && ecus[j].networkId == Some(visit.id) && b in ecus[j].gatewayFor ==> b in depths
          invariant Progressed(w, known, waiting, depths, frontier)
        {
          if ecus[i].networkId == Some(visit.id) {
            depths, frontier, chains := ForwardFrom(w, ecus[i], i, visit, depths, frontier, chains);
          }
        }
        VisitDone(w, depths, chains, frontier, visit);
      }
      SearchIsExact(w, depths, chains);
    }

    /** Walk up from an ECU's network, collecting gateways, until a tester can attach. */
    method DiagnosticPathTo(ecu: Ecu) returns (path: DiagnosticPath)
      ensures path == PathTo(Wiring(), ecu)
    {
      if ecu.networkId.None? {
        return DiagnosticPath([], 0, true, None);
      }
      hide Walked, PathTo, FindNetwork, FindGateway, Reversed;
      ghost var w := Wiring();
      var gatewayNames: seq<string> := [];
      var disabledNames: seq<string> := [];
      ghost var crossed: seq<nat> := [];
      var current := ecu.networkId.value;
      var limit := |networks| + 1;
      WalkBegins(w, ecu);
      for round := 0 to limit
        invariant Walked(w, ecu, crossed, current, round, gatewayNames, disabledNames)
      {
        var network := FindNetwork(networks, current);
        if network.Some? && network.value.isEntryPoint {
          TesterMet(w, ecu, crossed, current, round, gatewayNames, disabledNames);
          return DiagnosticPath(Reversed(gatewayNames), |gatewayNames|, true,
                                if disabledNames == [] then None else Some(Reversed(disabledNames)[0]));
        }
        var gateway := FindGateway(ecus, current);
        if gateway.None? {
          NoGateway(w, ecu, crossed, current, round, gatewayNames, disabledNames);
          return DiagnosticPath([], |gatewayNames|, false, None);
        }
        CrossGateway(w, ecu, crossed, current, round, gatewayNames, disabledNames);
        if !ecus[gateway.value].isEnabled {
          disabledNames := disabledNames + [ecus[gateway.value].name];
        }
        gatewayNames := gatewayNames + [ecus[gateway.value].name];
        crossed := crossed + [gateway.value];
        if ecus[gateway.value].networkId.None? {
          return DiagnosticPath([], |gatewayNames|, false, None);
        }
        current := ecus[gateway.value].networkId.value;
      }
      OutOfRounds(w, ecu, crossed, current, gatewayNames, disabledNames);
      return DiagnosticPath([], |gatewayNames|, false, None);
    }
  }
}
