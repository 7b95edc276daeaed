/**
 * The bookkeeping of the breadth-first search behind `NetworkDepths`: what holds of the depth
 * map and the frontier between two steps, and why an exhausted frontier leaves shortest depths.
 */
module WiringSearch {
  import opened Basics
  import opened Wiring

  datatype Visit = Visit(id: string, depth: nat)

  /** Every id the search can ever meet: the declared ones and the forwarded-onto ones. */
  ghost function Meetable(w: Wires): set<string> {
    (set i | 0 <= i < |w.networks| :: w.networks[i].id)
    + (set i, k | 0 <= i < |w.ecus| && 0 <= k < |w.ecus[i].gatewayFor| :: w.ecus[i].gatewayFor[k])
  }

  /** Every recorded depth is the length of a recorded chain. */
  ghost predicate Witnessed(w: Wires, depths: map<string, nat>, chains: map<string, seq<string>>) {
    && depths.Keys == chains.Keys
    && depths.Keys <= Meetable(w)
    && forall id :: id in depths ==> ChainTo(w, chains[id], id) && |chains[id]| - 1 == depths[id]
  }

  /** The frontier is in depth order, starts no shallower than `level`, and nothing is deeper than one past it. */
  ghost predicate Layered(depths: map<string, nat>, frontier: seq<Visit>, level: nat) {
    && (forall k :: 0 <= k < |frontier| ==> frontier[k].id in depths && depths[frontier[k].id] == frontier[k].depth)
    && (forall k :: 0 <= k < |frontier| ==> level <= frontier[k].depth)
    && (forall j, k :: 0 <= j < k < |frontier| ==> frontier[j].depth <= frontier[k].depth)
    && (forall id :: id in depths ==> depths[id] <= level + 1)
  }

  ghost predicate Waiting(frontier: seq<Visit>, id: string) {
    exists k :: 0 <= k < |frontier| && frontier[k].id == id
  }

  /** Everything `id` forwards onto is recorded, at most one deeper. */
  ghost predicate Expanded(w: Wires, depths: map<string, nat>, id: string)
    requires id in depths
  {
    forall below :: Forwards(w, id, below) ==> below in depths && depths[below] <= depths[id] + 1
  }

  ghost predicate AllExpandedBut(w: Wires, depths: map<string, nat>, frontier: seq<Visit>, exempt: set<string>) {
    forall id :: id in depths && id !in exempt && !Waiting(frontier, id) ==> Expanded(w, depths, id)
  }

  ghost predicate TestersAtZero(w: Wires, depths: map<string, nat>) {
    forall id :: TakesTester(w, id) ==> id in depths && depths[id] == 0
  }

  /** What holds while the network `visit.id`, taken off the frontier, is being expanded. */
  ghost predicate Expanding(w: Wires, depths: map<string, nat>, chains: map<string, seq<string>>,
                            frontier: seq<Visit>, visit: Visit) {
    && Witnessed(w, depths, chains)
    && TestersAtZero(w, depths)
    && visit.id in depths && depths[visit.id] == visit.depth
    && Layered(depths, frontier, visit.depth)
    && AllExpandedBut(w, depths, frontier, {visit.id})
  }

  lemma StaysExpanded(w: Wires, depths: map<string, nat>, frontier: seq<Visit>, exempt: set<string>, visit: Visit)
    requires AllExpandedBut(w, depths, frontier, exempt) && visit.id !in depths
    ensures AllExpandedBut(w, depths[visit.id := visit.depth], frontier + [visit], exempt)
  {
    var longer := frontier + [visit];
    assert longer[|frontier|].id == visit.id;
    forall id | id in depths[visit.id := visit.depth] && id !in exempt && !Waiting(longer, id)
      ensures Expanded(w, depths[visit.id := visit.depth], id)
    {
      assert !Waiting(frontier, id) by {
        forall j | 0 <= j < |frontier| ensures frontier[j].id != id {
          assert longer[j] == frontier[j];
        }
      }
      assert Expanded(w, depths, id);
    }
  }

  lemma StaysWitnessed(w: Wires, depths: map<string, nat>, chains: map<string, seq<string>>, visit: Visit, chain: seq<string>)
    requires Witnessed(w, depths, chains)
    requires visit.id in Meetable(w) && ChainTo(w, chain, visit.id) && |chain| - 1 == visit.depth
    ensures Witnessed(w, depths[visit.id := visit.depth], chains[visit.id := chain])
  {
  }

  lemma StaysLayered(depths: map<string, nat>, frontier: seq<Visit>, level: nat, below: Visit)
    requires Layered(depths, frontier, level) && below.id !in depths && below.depth == level + 1
    ensures Layered(depths[below.id := below.depth], frontier + [below], level)
  {
    var longer := frontier + [below];
    var deeper := depths[below.id := below.depth];
    forall k | 0 <= k < |longer|
      ensures longer[k].id in deeper && deeper[longer[k].id] == longer[k].depth && level <= longer[k].depth <= level + 1
    {
      if k < |frontier| {
        assert longer[k] == frontier[k];
      }
    }
    forall j, k | 0 <= j < k < |longer| ensures longer[j].depth <= longer[k].depth {
      if k < |frontier| {
        assert longer[j] == frontier[j] && longer[k] == frontier[k];
      }
    }
  }

  /** One discovery: ECU `i` sits on the visited network and forwards onto one not recorded yet. */
  lemma Discover(w: Wires, depths: map<string, nat>, chains: map<string, seq<string>>,
                 frontier: seq<Visit>, visit: Visit, i: nat, k: nat)
    requires Expanding(w, depths, chains, frontier, visit)
    requires i < |w.ecus| && w.ecus[i].networkId == Some(visit.id) && k < |w.ecus[i].gatewayFor|
    requires w.ecus[i].gatewayFor[k] !in depths
    ensures var below := Visit(w.ecus[i].gatewayFor[k], visit.depth + 1);
            && Expanding(w, depths[below.id := below.depth], chains[below.id := chains[visit.id] + [below.id]],
                         frontier + [below], visit)
            && below.id in Meetable(w)
  {
    hide Layered, AllExpandedBut, Witnessed, TestersAtZero, Meetable, ChainTo, Forwards;
    var below := Visit(w.ecus[i].gatewayFor[k], visit.depth + 1);
    IsMeetable(w, i, k);
    DiscoveredChain(w, depths, chains, visit, i, k);
    StaysExpanded(w, depths, frontier, {visit.id}, below);
    StaysWitnessed(w, depths, chains, below, chains[visit.id] + [below.id]);
    StaysLayered(depths, frontier, visit.depth, below);
    TestersStayAtZero(w, depths, below);
  }

  lemma IsMeetable(w: Wires, i: nat, k: nat)
    requires i < |w.ecus| && k < |w.ecus[i].gatewayFor|
    ensures w.ecus[i].gatewayFor[k] in Meetable(w)
  {
  }

  lemma TestersStayAtZero(w: Wires, depths: map<string, nat>, below: Visit)
    requires TestersAtZero(w, depths) && below.id !in depths
    ensures TestersAtZero(w, depths[below.id := below.depth])
  {
  }

  lemma DiscoveredChain(w: Wires, depths: map<string, nat>, chains: map<string, seq<string>>, visit: Visit, i: nat, k: nat)
    requires Witnessed(w, depths, chains) && visit.id in depths && depths[visit.id] == visit.depth
    requires i < |w.ecus| && w.ecus[i].networkId == Some(visit.id) && k < |w.ecus[i].gatewayFor|
    ensures visit.id in chains
    ensures var below := w.ecus[i].gatewayFor[k];
            ChainTo(w, chains[visit.id] + [below], below) && |chains[visit.id] + [below]| - 1 == visit.depth + 1
  {
    hide Meetable;
    assert ChainTo(w, chains[visit.id], visit.id);
    hide ChainTo;
    assert Forwards(w, visit.id, w.ecus[i].gatewayFor[k]);
    var _ := ExtendChain(w, chains[visit.id], visit.id, w.ecus[i].gatewayFor[k]);
  }

  /** Once every ECU on the visited network is dealt with, nothing is exempt any more. */
  lemma VisitDone(w: Wires, depths: map<string, nat>, chains: map<string, seq<string>>, frontier: seq<Visit>, visit: Visit)
    requires Expanding(w, depths, chains, frontier, visit)
    requires forall j, b :: 0 <= j < |w.ecus| && w.ecus[j].networkId == Some(visit.id) && b in w.ecus[j].gatewayFor ==> b in depths
    ensures AllExpandedBut(w, depths, frontier, {})
    ensures frontier != [] ==> Layered(depths, frontier, frontier[0].depth)
  {
    hide Layered, AllExpandedBut, Expanded, Witnessed, TestersAtZero, Waiting, Forwards;
    LayeredBounds(depths, frontier, visit.depth);
    AllForwarded(w, depths, visit);
    NoneExempt(w, depths, frontier, visit.id);
    if frontier != [] { LayeredFromHead(depths, frontier, visit.depth); }
  }

  lemma AllForwarded(w: Wires, depths: map<string, nat>, visit: Visit)
    requires visit.id in depths && forall id :: id in depths ==> depths[id] <= depths[visit.id] + 1
    requires forall j, b :: 0 <= j < |w.ecus| && w.ecus[j].networkId == Some(visit.id) && b in w.ecus[j].gatewayFor ==> b in depths
    ensures Expanded(w, depths, visit.id)
  {
  }

  lemma NoneExempt(w: Wires, depths: map<string, nat>, frontier: seq<Visit>, id: string)
    requires AllExpandedBut(w, depths, frontier, {id}) && id in depths && Expanded(w, depths, id)
    ensures AllExpandedBut(w, depths, frontier, {})
  {
    hide Expanded, Waiting;
  }

  lemma LayeredBounds(depths: map<string, nat>, frontier: seq<Visit>, level: nat)
    requires Layered(depths, frontier, level)
    ensures forall id :: id in depths ==> depths[id] <= level + 1
  {
  }

  lemma LayeredFromHead(depths: map<string, nat>, frontier: seq<Visit>, level: nat)
    requires frontier != [] && Layered(depths, frontier, level)
    ensures Layered(depths, frontier, frontier[0].depth)
  {
  }

  /** Taking the head off the frontier leaves exactly its network to expand. */
  lemma TakeHead(w: Wires, depths: map<string, nat>, frontier: seq<Visit>)
    requires frontier != [] && Layered(depths, frontier, frontier[0].depth)
    requires AllExpandedBut(w, depths, frontier, {})
    ensures frontier[0].id in depths && depths[frontier[0].id] == frontier[0].depth
    ensures Layered(depths, frontier[1..], frontier[0].depth)
    ensures AllExpandedBut(w, depths, frontier[1..], {frontier[0].id})
  {
    forall id | id in depths && id !in {frontier[0].id} && !Waiting(frontier[1..], id)
      ensures Expanded(w, depths, id)
    {
      assert !Waiting(frontier, id) by {
        forall j | 0 <= j < |frontier| ensures frontier[j].id != id {
          if j > 0 { assert frontier[1..][j - 1] == frontier[j]; }
        }
      }
    }
  }

  /** Either nothing was discovered, or fewer networks are left to discover. */
  ghost predicate Progressed(w: Wires, known: map<string, nat>, waiting: seq<Visit>, depths: map<string, nat>, frontier: seq<Visit>) {
    (depths == known && frontier == waiting)
    || (known.Keys <= depths.Keys && Meetable(w) - depths.Keys < Meetable(w) - known.Keys)
  }

  lemma DiscoveryProgresses(w: Wires, known: map<string, nat>, waiting: seq<Visit>,
                            depths: map<string, nat>, frontier: seq<Visit>, below: Visit)
    requires Progressed(w, known, waiting, depths, frontier) && below.id in Meetable(w) && below.id !in depths
    ensures Progressed(w, known, waiting, depths[below.id := below.depth], frontier + [below])
  {
    var longer := depths[below.id := below.depth];
    assert longer.Keys == depths.Keys + {below.id};
    assert below.id in Meetable(w) - known.Keys && below.id !in Meetable(w) - longer.Keys;
  }

  /** The opening loop: every network that takes a tester is at depth zero and waits to be expanded. */
  method AttachTesters(w: Wires) returns (depths: map<string, nat>, frontier: seq<Visit>, ghost chains: map<string, seq<string>>)
    ensures Witnessed(w, depths, chains) && TestersAtZero(w, depths)
    ensures Layered(depths, frontier, 0) && forall k :: 0 <= k < |frontier| ==> frontier[k].depth == 0
    ensures AllExpandedBut(w, depths, frontier, {})
  {
    depths, frontier, chains := map[], [], map[];
    assert Witnessed(w, depths, chains);
    hide Witnessed, Waiting, AllExpandedBut;
    for i := 0 to |w.networks|
      invariant Witnessed(w, depths, chains)
      invariant forall k :: 0 <= k < |frontier| ==> frontier[k].depth == 0 && frontier[k].id in depths
      invariant forall id :: id in depths ==> depths[id] == 0 && Waiting(frontier, id)
      invariant forall j :: 0 <= j < i && w.networks[j].isEntryPoint ==> w.networks[j].id in depths
    {
      if w.networks[i].isEntryPoint {
        var visit := Visit(w.networks[i].id, 0);
        TesterIsWitnessed(w, depths, chains, i);
        WaitingGrows(frontier, visit);
        depths := depths[visit.id := 0];
        chains := chains[visit.id := [visit.id]];
        frontier := frontier + [visit];
      }
    }
    assert AllExpandedBut(w, depths, frontier, {}) by { AllWaiting(w, depths, frontier); }
  }

  lemma TesterIsWitnessed(w: Wires, depths: map<string, nat>, chains: map<string, seq<string>>, i: nat)
    requires Witnessed(w, depths, chains) && i < |w.networks| && w.networks[i].isEntryPoint
    ensures Witnessed(w, depths[w.networks[i].id := 0], chains[w.networks[i].id := [w.networks[i].id]])
  {
    assert TakesTester(w, w.networks[i].id);
    StaysWitnessed(w, depths, chains, Visit(w.networks[i].id, 0), [w.networks[i].id]);
  }

  lemma AllWaiting(w: Wires, depths: map<string, nat>, frontier: seq<Visit>)
    requires forall id :: id in depths ==> Waiting(frontier, id)
    ensures AllExpandedBut(w, depths, frontier, {})
  {
  }

  lemma WaitingGrows(frontier: seq<Visit>, visit: Visit)
    ensures Waiting(frontier + [visit], visit.id)
    ensures forall id :: Waiting(frontier, id) ==> Waiting(frontier + [visit], id)
  {
    var longer := frontier + [visit];
    assert longer[|frontier|].id == visit.id;
    forall id | Waiting(frontier, id) ensures Waiting(longer, id) {
      var k :| 0 <= k < |frontier| && frontier[k].id == id;
      assert longer[k].id == id;
    }
  }

  /** The innermost loop: everything one ECU on the visited network forwards onto is one deeper. */
  method ForwardFrom(ghost w: Wires, ecu: Ecu, ghost i: nat, visit: Visit, known: map<string, nat>, waiting: seq<Visit>,
                     ghost reached: map<string, seq<string>>)
    returns (depths: map<string, nat>, frontier: seq<Visit>, ghost chains: map<string, seq<string>>)
    requires i < |w.ecus| && w.ecus[i] == ecu && ecu.networkId == Some(visit.id)
    requires Expanding(w, known, reached, waiting, visit)
    ensures Expanding(w, depths, chains, frontier, visit)
    ensures forall b :: b in ecu.gatewayFor ==> b in depths
    ensures Progressed(w, known, waiting, depths, frontier)
  {
    hide Layered, AllExpandedBut, TestersAtZero, ChainTo;
    depths, frontier, chains := known, waiting, reached;
    for k := 0 to |ecu.gatewayFor|
      invariant Expanding(w, depths, chains, frontier, visit)
      invariant forall j :: 0 <= j < k ==> ecu.gatewayFor[j] in depths
      invariant Progressed(w, known, waiting, depths, frontier)
    {
      if ecu.gatewayFor[k] !in depths {
        var below := Visit(ecu.gatewayFor[k], visit.depth + 1);
        Discover(w, depths, chains, frontier, visit, i, k);
        DiscoveryProgresses(w, known, waiting, depths, frontier, below);
        chains := chains[below.id := chains[visit.id] + [below.id]];
        depths := depths[below.id := below.depth];
        frontier := frontier + [below];
      }
    }
  }

  /** With nothing left on the frontier, no chain is shorter than the recorded depth. */
  lemma {:induction false} NoChainIsShorter(w: Wires, depths: map<string, nat>, chain: seq<string>, id: string)
    requires AllExpandedBut(w, depths, [], {}) && TestersAtZero(w, depths)
    requires ChainTo(w, chain, id)
    ensures id in depths && depths[id] <= |chain| - 1
    decreases |chain|
  {
    if |chain| > 1 {
      ChainAbove(w, chain, id);
      var above := chain[..|chain| - 1];
      NoChainIsShorter(w, depths, above, above[|above| - 1]);
      assert Expanded(w, depths, above[|above| - 1]);
    }
  }

  lemma SearchIsExact(w: Wires, depths: map<string, nat>, chains: map<string, seq<string>>)
    requires Witnessed(w, depths, chains)
    requires AllExpandedBut(w, depths, [], {}) && TestersAtZero(w, depths)
    ensures ShortestDepths(w, depths)
  {
    forall id, chain | ChainTo(w, chain, id) ensures id in depths && depths[id] <= |chain| - 1 {
      NoChainIsShorter(w, depths, chain, id);
    }
    forall id | id in depths ensures exists chain :: ChainTo(w, chain, id) && |chain| - 1 == depths[id] {
      assert ChainTo(w, chains[id], id);
    }
  }
}
