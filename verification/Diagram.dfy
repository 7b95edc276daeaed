/** The diagram of a vehicle: what the engine tells the drawing, and how often each network is then drawn. */
module Diagrams {
  import opened Basics
  import opened Wiring
  import opened WiringSteps
  import opened WiringTheorems
  import opened Layout
  import opened Plans

  /** One link per declared network, with its depth where some chain of gateways reaches it; none at all without ECUs. */
  function LinksOf(w: Wires, depths: map<string, nat>): (links: seq<Link>)
    ensures |links| == if w.ecus == [] then 0 else |w.networks|
  {
    if w.ecus == [] then []
    else
      seq(|w.networks|, i requires 0 <= i < |w.networks| =>
        var network := w.networks[i];
        Link(network.id, network.name, network.isEntryPoint,
             if network.id in depths then Some(depths[network.id]) else None))
  }

  /** One node per ECU. */
  function NodesOf(w: Wires): (nodes: seq<Node>)
    ensures |nodes| == |w.ecus|
    ensures forall i :: 0 <= i < |nodes| ==>
              nodes[i] == Node(w.ecus[i].name, "ecu", w.ecus[i].networkId, w.ecus[i].gatewayFor, w.ecus[i].isEnabled)
  {
    seq(|w.ecus|, i requires 0 <= i < |w.ecus| =>
      Node(w.ecus[i].name, "ecu", w.ecus[i].networkId, w.ecus[i].gatewayFor, w.ecus[i].isEnabled))
  }

  /** What the drawing is given: the tester, on no link, and the ECUs; nothing without ECUs. */
  function DiagramNodes(w: Wires): seq<Node> {
    if w.ecus == [] then [] else [Node("tester", "tester", None, [], true)] + NodesOf(w)
  }

  lemma EcusOfDiagram(w: Wires)
    ensures EcuNodes(DiagramNodes(w)) == NodesOf(w)
  {
    AllEcus(NodesOf(w));
    if w.ecus != [] { assert DiagramNodes(w)[1..] == NodesOf(w); }
  }

  lemma {:induction false} AllEcus(nodes: seq<Node>)
    requires forall i :: 0 <= i < |nodes| ==> nodes[i].kind == "ecu"
    ensures EcuNodes(nodes) == nodes
  {
    if nodes != [] { AllEcus(nodes[1..]); }
  }

  /** How often a network is drawn: once per root its link is reachable from. */
  ghost function TimesDrawn(w: Wires, depths: map<string, nat>, id: string): nat {
    var links := LinksOf(w, depths);
    RootsReaching(links, NodesOf(w), Roots(links), id)
  }

  // ---------------------------------------------------------------- the drawing's edges are the wiring's

  lemma ListedIsDeclared(w: Wires, depths: map<string, nat>, id: string)
    ensures id in LinkIds(LinksOf(w, depths)) <==> w.ecus != [] && Declared(w, id)
  {
    var links := LinksOf(w, depths);
    if id in LinkIds(links) {
      var l :| l in links && l.id == id;
      var i :| 0 <= i < |links| && links[i] == l;
      assert w.networks[i].id == id;
    }
    if w.ecus != [] && Declared(w, id) {
      var i :| 0 <= i < |w.networks| && w.networks[i].id == id;
      assert links[i] in links && links[i].id == id;
    }
  }

  /** Some ECU on one network forwards onto the other, which is declared. */
  ghost predicate HangsBelow(w: Wires, above: string, below: string) {
    Forwards(w, above, below) && Declared(w, below)
  }

  /** On any wiring the drawing goes down exactly where an ECU forwards onto a declared network. */
  lemma LeadsIsForwards(w: Wires, depths: map<string, nat>, above: string, below: string)
    ensures Leads(LinksOf(w, depths), NodesOf(w), above, below) <==> HangsBelow(w, above, below)
  {
    var nodes := NodesOf(w);
    ListedIsDeclared(w, depths, below);
    hide LinksOf, LinkIds, Declared;
    if Leads(LinksOf(w, depths), nodes, above, below) {
      var n :| n in nodes && n.linkId == Some(above) && below in n.gatewayForLinkIds;
      var i :| 0 <= i < |nodes| && nodes[i] == n;
      assert w.ecus[i].networkId == Some(above) && below in w.ecus[i].gatewayFor;
    }
    if Forwards(w, above, below) && Declared(w, below) {
      var i :| 0 <= i < |w.ecus| && w.ecus[i].networkId == Some(above) && below in w.ecus[i].gatewayFor;
      assert nodes[i] in nodes && nodes[i].linkId == Some(above) && below in nodes[i].gatewayForLinkIds;
    }
  }

  lemma ForwardsOntoDeclared(w: Wires, above: string, below: string)
    requires ReferencesDeclared(w) && Forwards(w, above, below)
    ensures Declared(w, below)
  {
    var i :| 0 <= i < |w.ecus| && w.ecus[i].networkId == Some(above) && below in w.ecus[i].gatewayFor;
    assert EcuReferencesDeclared(w, w.ecus[i]);
  }

  /** A link reaches another exactly when the walk upward from the other passes it. */
  lemma ReachesIsAncestry(w: Wires, depths: map<string, nat>, above: string, id: string)
    requires ReferencesDeclared(w) && ClaimedOnce(w)
    ensures Reaches(LinksOf(w, depths), NodesOf(w), above, id) <==> exists n: nat :: Ancestor(w, id, n) == Some(above)
  {
    var links, nodes := LinksOf(w, depths), NodesOf(w);
    hide LinksOf, NodesOf, Leads;
    if Reaches(links, nodes, above, id) {
      var route :| Route(links, nodes, route, above, id);
      RouteIsAncestry(w, depths, route, |route| - 1);
    }
    if n: nat :| Ancestor(w, id, n) == Some(above) {
      AncestryIsRoute(w, depths, above, id, n);
    }
  }

  lemma {:induction false} RouteIsAncestry(w: Wires, depths: map<string, nat>, route: seq<string>, k: nat)
    requires ReferencesDeclared(w) && ClaimedOnce(w) && k < |route|
    requires forall i :: 0 <= i < |route| - 1 ==> Leads(LinksOf(w, depths), NodesOf(w), route[i], route[i + 1])
    ensures Ancestor(w, route[k], k) == Some(route[0])
    decreases k
  {
    hide LinksOf, NodesOf, Leads, ReferencesDeclared, ClaimedOnce;
    if k > 0 {
      RouteIsAncestry(w, depths, route, k - 1);
      assert Leads(LinksOf(w, depths), NodesOf(w), route[k - 1], route[k - 1 + 1]);
      LeadsIsForwards(w, depths, route[k - 1], route[k]);
      ForwardsIsUpstream(w, route[k - 1], route[k]);
    }
  }

  lemma {:induction false} AncestryIsRoute(w: Wires, depths: map<string, nat>, above: string, id: string, n: nat)
    requires ReferencesDeclared(w) && Ancestor(w, id, n) == Some(above)
    ensures Reaches(LinksOf(w, depths), NodesOf(w), above, id)
    decreases n
  {
    hide LinksOf, NodesOf, Leads, ReferencesDeclared, Reaches;
    if n == 0 {
      ReachesItself(LinksOf(w, depths), NodesOf(w), id);
    } else {
      var up := Upstream(w, id).value;
      AncestryIsRoute(w, depths, above, up, n - 1);
      UpstreamForwards(w, up, id);
      ForwardsOntoDeclared(w, up, id);
      LeadsIsForwards(w, depths, up, id);
      ReachesOn(LinksOf(w, depths), NodesOf(w), above, up, id);
    }
  }

  lemma ReachesOn(links: seq<Link>, nodes: seq<Node>, start: string, via: string, goal: string)
    requires Reaches(links, nodes, start, via) && Leads(links, nodes, via, goal)
    ensures Reaches(links, nodes, start, goal)
  {
    var route :| Route(links, nodes, route, start, via);
    var longer := route + [goal];
    forall i | 0 <= i < |longer| - 1 ensures Leads(links, nodes, longer[i], longer[i + 1]) {
      if i < |route| - 1 { assert Leads(links, nodes, route[i], route[i + 1]); }
    }
    assert Route(links, nodes, longer, start, goal);
  }

  // ---------------------------------------------------------------- roots

  /** Drawn from the top: on a vehicle with ECUs, where a tester attaches or nothing reaches. */
  ghost predicate IsRoot(w: Wires, depths: map<string, nat>, id: string) {
    w.ecus != [] && (TakesTester(w, id) || (Declared(w, id) && id !in depths))
  }

  ghost predicate HasRoot(roots: seq<Link>, id: string) {
    exists k :: 0 <= k < |roots| && roots[k].id == id
  }

  lemma RootsAreListed(w: Wires, depths: map<string, nat>, id: string)
    ensures HasRoot(Roots(LinksOf(w, depths)), id) <==> IsRoot(w, depths, id)
  {
    var links := LinksOf(w, depths);
    var roots := Roots(links);
    if HasRoot(roots, id) {
      var k :| 0 <= k < |roots| && roots[k].id == id;
      assert roots[k] in links && roots[k] in roots;
      var i :| 0 <= i < |links| && links[i] == roots[k];
      assert w.networks[i].id == id;
    }
    if IsRoot(w, depths, id) {
      var i :| 0 <= i < |w.networks| && w.networks[i].id == id && (w.networks[i].isEntryPoint || id !in depths);
      assert links[i] in links && links[i] in roots;
      var k :| 0 <= k < |roots| && roots[k] == links[i];
    }
  }

  lemma {:induction false} CountsRoot(links: seq<Link>, nodes: seq<Node>, roots: seq<Link>, k: nat, id: string)
    requires k < |roots| && Reaches(links, nodes, roots[k].id, id)
    ensures RootsReaching(links, nodes, roots, id) >= 1
    decreases |roots|
  {
    hide Reaches;
    if k < |roots| - 1 { CountsRoot(links, nodes, roots[..|roots| - 1], k, id); }
  }

  lemma {:induction false} CountsBoth(links: seq<Link>, nodes: seq<Node>, roots: seq<Link>, j: nat, k: nat, id: string)
    requires j < k < |roots| && Reaches(links, nodes, roots[j].id, id) && Reaches(links, nodes, roots[k].id, id)
    ensures RootsReaching(links, nodes, roots, id) >= 2
    decreases |roots|
  {
    hide Reaches;
    if k < |roots| - 1 {
      CountsBoth(links, nodes, roots[..|roots| - 1], j, k, id);
    } else {
      CountsRoot(links, nodes, roots[..k], j, id);
    }
  }

  lemma {:induction false} CountedRoots(links: seq<Link>, nodes: seq<Node>, roots: seq<Link>, id: string) returns (j: nat, k: nat)
    requires RootsReaching(links, nodes, roots, id) >= 1
    ensures j < |roots| && Reaches(links, nodes, roots[j].id, id)
    ensures RootsReaching(links, nodes, roots, id) >= 2 ==> k < j && Reaches(links, nodes, roots[k].id, id)
    decreases |roots|
  {
    hide Reaches;
    var n := |roots| - 1;
    if Reaches(links, nodes, roots[n].id, id) {
      j, k := n, 0;
      if RootsReaching(links, nodes, roots[..n], id) >= 1 {
        var i, _ := CountedRoots(links, nodes, roots[..n], id);
        k := i;
      }
    } else {
      j, k := CountedRoots(links, nodes, roots[..n], id);
    }
  }

  ghost predicate DistinctIds(links: seq<Link>) {
    forall a, b :: 0 <= a < b < |links| ==> links[a].id != links[b].id
  }

  lemma {:induction false} RootsStayDistinct(links: seq<Link>)
    requires DistinctIds(links)
    ensures DistinctIds(Roots(links))
  {
    if links != [] {
      var first, rest := links[0], links[1..];
      TailIsDistinct(links);
      RootsStayDistinct(rest);
      var roots := Roots(rest);
      assert Roots(links) == (if first.isEntryPoint || first.depth.None? then [first] else []) + roots;
      assert forall k :: 0 <= k < |roots| ==> roots[k] in rest;
      hide Roots;
      FirstIsDistinct(first, rest, roots);
      assert [] + roots == roots;
    }
  }

  lemma TailIsDistinct(links: seq<Link>)
    requires DistinctIds(links) && links != []
    ensures DistinctIds(links[1..]) && forall l :: l in links[1..] ==> l.id != links[0].id
  {
  }

  lemma FirstIsDistinct(first: Link, rest: seq<Link>, roots: seq<Link>)
    requires DistinctIds(roots) && (forall l :: l in rest ==> l.id != first.id) && forall k :: 0 <= k < |roots| ==> roots[k] in rest
    ensures DistinctIds([first] + roots)
  {
  }

  lemma LinksAreDistinct(w: Wires, depths: map<string, nat>)
    requires UniqueIds(w)
    ensures DistinctIds(LinksOf(w, depths))
  {
  }

  // ---------------------------------------------------------------- how often

  /** A chain of gateways from a root of the diagram down to a network, through declared networks alone. */
  ghost predicate HangsBy(w: Wires, depths: map<string, nat>, chain: seq<string>, id: string) {
    && |chain| > 0 && IsRoot(w, depths, chain[0]) && chain[|chain| - 1] == id
    && forall i :: 0 <= i < |chain| - 1 ==> HangsBelow(w, chain[i], chain[i + 1])
  }

  lemma RoutesHang(w: Wires, depths: map<string, nat>, chain: seq<string>, id: string)
    requires |chain| > 0
    ensures HangsBy(w, depths, chain, id)
            <==> IsRoot(w, depths, chain[0]) && Route(LinksOf(w, depths), NodesOf(w), chain, chain[0], id)
  {
    var links, nodes := LinksOf(w, depths), NodesOf(w);
    hide LinksOf, NodesOf, Leads, Forwards, Declared, IsRoot;
    forall i | 0 <= i < |chain| - 1
      ensures Leads(links, nodes, chain[i], chain[i + 1]) <==> HangsBelow(w, chain[i], chain[i + 1])
    {
      LeadsIsForwards(w, depths, chain[i], chain[i + 1]);
    }
  }

  /** On any wiring, validated or not, a network is drawn exactly if it hangs from a root by declared networks. */
  lemma DrawnExactly(w: Wires, depths: map<string, nat>, id: string)
    ensures TimesDrawn(w, depths, id) >= 1 <==> exists chain :: HangsBy(w, depths, chain, id)
  {
    var links, nodes := LinksOf(w, depths), NodesOf(w);
    var roots := Roots(links);
    hide LinksOf, NodesOf, Roots, RootsReaching, Route, IsRoot, HasRoot, HangsBy;
    if TimesDrawn(w, depths, id) >= 1 {
      var j, _ := CountedRoots(links, nodes, roots, id);
      var chain :| Route(links, nodes, chain, roots[j].id, id);
      HasRootAt(roots, j);
      RouteStarts(links, nodes, chain, roots[j].id, id);
      RootsAreListed(w, depths, chain[0]);
      RoutesHang(w, depths, chain, id);
    }
    if chain :| HangsBy(w, depths, chain, id) {
      HangingStarts(w, depths, chain, id);
      RoutesHang(w, depths, chain, id);
      RootsAreListed(w, depths, chain[0]);
      var k := RootFound(roots, chain[0]);
      CountsRoot(links, nodes, roots, k, id);
    }
  }

  lemma HasRootAt(roots: seq<Link>, k: nat)
    requires k < |roots|
    ensures HasRoot(roots, roots[k].id)
  {
  }

  lemma RootFound(roots: seq<Link>, id: string) returns (k: nat)
    requires HasRoot(roots, id)
    ensures k < |roots| && roots[k].id == id
  {
    k :| 0 <= k < |roots| && roots[k].id == id;
  }

  lemma RouteStarts(links: seq<Link>, nodes: seq<Node>, route: seq<string>, start: string, goal: string)
    requires Route(links, nodes, route, start, goal)
    ensures |route| > 0 && route[0] == start
  {
  }

  lemma HangingStarts(w: Wires, depths: map<string, nat>, chain: seq<string>, id: string)
    requires HangsBy(w, depths, chain, id)
    ensures |chain| > 0
  {
  }

  /** Every declared network is drawn if and only if there are ECUs to draw and each one with a depth hangs from a root. */
  lemma AllDrawnExactly(w: Wires, depths: map<string, nat>)
    ensures (forall id :: Declared(w, id) ==> TimesDrawn(w, depths, id) >= 1)
            <==> (w.ecus != [] || w.networks == [])
                 && forall id :: Declared(w, id) && id in depths && w.ecus != [] ==> exists chain :: HangsBy(w, depths, chain, id)
  {
    hide TimesDrawn;
    forall id ensures TimesDrawn(w, depths, id) >= 1 <==> exists chain :: HangsBy(w, depths, chain, id) {
      DrawnExactly(w, depths, id);
    }
    forall id | w.ecus != [] && Declared(w, id) && id !in depths ensures HangsBy(w, depths, [id], id) {
    }
    if w.ecus == [] && w.networks != [] {
      assert Declared(w, w.networks[0].id);
      assert !exists chain :: HangsBy(w, depths, chain, w.networks[0].id);
    }
  }

  /** With the engine's depths every network of a vehicle that refers to nothing undeclared is drawn, given any ECU. */
  lemma DrawnAtLeastOnce(w: Wires, depths: map<string, nat>, id: string)
    requires ReferencesDeclared(w) && ShortestDepths(w, depths) && Declared(w, id)
    ensures TimesDrawn(w, depths, id) >= 1 <==> w.ecus != []
  {
    hide TimesDrawn;
    DrawnExactly(w, depths, id);
    if w.ecus != [] {
      if id in depths {
        var chain :| ChainTo(w, chain, id) && |chain| - 1 == depths[id];
        ChainHangs(w, depths, chain, id);
      } else {
        assert HangsBy(w, depths, [id], id);
      }
    }
  }

  lemma ChainHangs(w: Wires, depths: map<string, nat>, chain: seq<string>, id: string)
    requires ReferencesDeclared(w) && ChainTo(w, chain, id) && w.ecus != []
    ensures HangsBy(w, depths, chain, id)
  {
    hide Forwards, Declared, ReferencesDeclared, TakesTester;
    forall i | 0 <= i < |chain| - 1 ensures HangsBelow(w, chain[i], chain[i + 1]) {
      assert Forwards(w, chain[i], chain[i + 1]);
      ForwardsOntoDeclared(w, chain[i], chain[i + 1]);
    }
  }

  ghost const GAPPED := Wires([Network("a", "a", true), Network("c", "c", false)],
                              [Ecu("g", Some("a"), ["b"], true), Ecu("h", Some("b"), ["c"], true)])

  /** Through an undeclared network a chain still counts in the depth map, and what lies behind it is then drawn nowhere. */
  lemma UndeclaredHidesNetworks()
    ensures var depths: map<string, nat> := map["a" := 0, "b" := 1, "c" := 2];
            ShortestDepths(GAPPED, depths) && Declared(GAPPED, "c") && TimesDrawn(GAPPED, depths, "c") == 0
  {
    var depths: map<string, nat> := map["a" := 0, "b" := 1, "c" := 2];
    assert GAPPED.networks[1].id == "c";
    GappedDepths(depths);
    DrawnExactly(GAPPED, depths, "c");
    forall chain ensures !HangsBy(GAPPED, depths, chain, "c") {
      GappedHangs(depths, chain);
    }
  }

  lemma GappedHangs(depths: map<string, nat>, chain: seq<string>)
    requires depths.Keys == {"a", "b", "c"}
    ensures !HangsBy(GAPPED, depths, chain, "c")
  {
    GappedRoots(depths);
    hide IsRoot, HangsBy;
    if HangsBy(GAPPED, depths, chain, "c") {
      HangsFromAbove(GAPPED, depths, chain, "c");
      GappedForwards(chain[|chain| - 2], "c");
      HangsFromAbove(GAPPED, depths, chain[..|chain| - 1], "b");
      assert false;
    }
  }

  lemma HangsFromAbove(w: Wires, depths: map<string, nat>, chain: seq<string>, id: string)
    requires HangsBy(w, depths, chain, id) && !IsRoot(w, depths, id)
    ensures |chain| > 1 && HangsBelow(w, chain[|chain| - 2], id)
    ensures HangsBy(w, depths, chain[..|chain| - 1], chain[|chain| - 2])
  {
    hide IsRoot, HangsBelow;
    assert HangsBelow(w, chain[|chain| - 2], chain[|chain| - 2 + 1]);
    var above := chain[..|chain| - 1];
    forall i | 0 <= i < |above| - 1 ensures HangsBelow(w, above[i], above[i + 1]) {
      assert HangsBelow(w, chain[i], chain[i + 1]);
    }
  }

  lemma GappedForwards(above: string, below: string)
    ensures Forwards(GAPPED, above, below) <==> (above == "a" && below == "b") || (above == "b" && below == "c")
    ensures TakesTester(GAPPED, above) <==> above == "a"
    ensures !Declared(GAPPED, "b")
  {
    assert GAPPED.ecus[0].gatewayFor == ["b"] && GAPPED.ecus[1].gatewayFor == ["c"];
    assert GAPPED.networks[0].id == "a";
  }

  lemma GappedRoots(depths: map<string, nat>)
    requires depths.Keys == {"a", "b", "c"}
    ensures forall id :: IsRoot(GAPPED, depths, id) ==> id == "a"
  {
  }

  lemma {:induction false} GappedChain(chain: seq<string>, id: string)
    requires ChainTo(GAPPED, chain, id)
    ensures chain in {["a"], ["a", "b"], ["a", "b", "c"]}
    decreases |chain|
  {
    GappedForwards(chain[0], id);
    if |chain| > 1 {
      ChainAbove(GAPPED, chain, id);
      var above := chain[..|chain| - 1];
      var last := above[|above| - 1];
      GappedChain(above, last);
      GappedForwards(last, id);
      assert chain == above + [id];
      if last == "a" {
        assert above == ["a"];
        assert chain == ["a", "b"];
      } else {
        assert above == ["a", "b"];
        assert chain == ["a", "b", "c"];
      }
    } else {
      assert chain == ["a"];
    }
  }

  lemma GappedDepths(depths: map<string, nat>)
    requires depths == map["a" := 0, "b" := 1, "c" := 2]
    ensures ShortestDepths(GAPPED, depths)
  {
    GappedForwards("a", "b");
    GappedForwards("b", "c");
    forall id, chain | ChainTo(GAPPED, chain, id) ensures id in depths && depths[id] <= |chain| - 1 {
      GappedChain(chain, id);
    }
    assert ChainTo(GAPPED, ["a"], "a") && ChainTo(GAPPED, ["a", "b"], "b") && ChainTo(GAPPED, ["a", "b", "c"], "c");
  }

  /** A root so many steps up from a network. */
  ghost predicate RootAbove(w: Wires, depths: map<string, nat>, id: string, n: nat) {
    Ancestor(w, id, n).Some? && IsRoot(w, depths, Ancestor(w, id, n).value)
  }

  /** On an accepted vehicle with unique ids and any ECU a network is drawn exactly once if and only if the walk upward from it passes a single root. */
  lemma DrawnOnceExactly(w: Wires, depths: map<string, nat>, id: string)
    requires Sound(w) && UniqueIds(w) && ShortestDepths(w, depths) && Declared(w, id)
    ensures TimesDrawn(w, depths, id) == 1 <==>
            w.ecus != [] && forall m: nat, n: nat :: RootAbove(w, depths, id, m) && RootAbove(w, depths, id, n) ==> m == n
  {
    DrawnAtLeastOnce(w, depths, id);
    if TimesDrawn(w, depths, id) == 1 {
      forall m: nat, n: nat | RootAbove(w, depths, id, m) && RootAbove(w, depths, id, n) ensures m == n {
        if m < n { TwoRootsDrawTwice(w, depths, id, m, n); }
        if n < m { TwoRootsDrawTwice(w, depths, id, n, m); }
      }
    } else if w.ecus != [] {
      var m, n := DrawnTwiceHasTwoRoots(w, depths, id);
    }
  }

  lemma TwoRootsDrawTwice(w: Wires, depths: map<string, nat>, id: string, m: nat, n: nat)
    requires Sound(w) && Declared(w, id) && m < n && RootAbove(w, depths, id, m) && RootAbove(w, depths, id, n)
    ensures TimesDrawn(w, depths, id) >= 2
  {
    hide LinksOf, NodesOf, Roots, Reaches, IsRoot, Sound, HasRoot, Acyclic, RootsReaching;
    var a, b := Ancestor(w, id, m).value, Ancestor(w, id, n).value;
    RootsAreListed(w, depths, a);
    RootsAreListed(w, depths, b);
    DifferentAncestors(w, depths, id, m, n);
    SoundParts(w);
    ReachesIsAncestry(w, depths, a, id);
    ReachesIsAncestry(w, depths, b, id);
    TwoRootsCount(LinksOf(w, depths), NodesOf(w), Roots(LinksOf(w, depths)), a, b, id);
  }

  lemma SoundParts(w: Wires)
    requires Sound(w)
    ensures ReferencesDeclared(w) && ClaimedOnce(w) && Acyclic(w)
  {
  }

  lemma DifferentAncestors(w: Wires, depths: map<string, nat>, id: string, m: nat, n: nat)
    requires Sound(w) && m < n && RootAbove(w, depths, id, m) && RootAbove(w, depths, id, n)
    ensures Ancestor(w, id, m) != Ancestor(w, id, n)
  {
    hide IsRoot, ReferencesDeclared, NoneOntoOwnNetwork, ClaimedOnce;
    AncestorSplits(w, id, m, n - m);
    RootIsDeclared(w, depths, Ancestor(w, id, m).value);
  }

  lemma TwoRootsCount(links: seq<Link>, nodes: seq<Node>, roots: seq<Link>, a: string, b: string, id: string)
    requires HasRoot(roots, a) && HasRoot(roots, b) && a != b && Reaches(links, nodes, a, id) && Reaches(links, nodes, b, id)
    ensures RootsReaching(links, nodes, roots, id) >= 2
  {
    hide Reaches, RootsReaching;
    var j :| 0 <= j < |roots| && roots[j].id == a;
    var k :| 0 <= k < |roots| && roots[k].id == b;
    if j < k { CountsBoth(links, nodes, roots, j, k, id); } else { CountsBoth(links, nodes, roots, k, j, id); }
  }

  lemma RootIsDeclared(w: Wires, depths: map<string, nat>, id: string)
    requires IsRoot(w, depths, id)
    ensures Declared(w, id)
  {
  }

  lemma DrawnTwiceHasTwoRoots(w: Wires, depths: map<string, nat>, id: string) returns (m: nat, n: nat)
    requires ReferencesDeclared(w) && ClaimedOnce(w) && UniqueIds(w) && TimesDrawn(w, depths, id) >= 2
    ensures m != n && RootAbove(w, depths, id, m) && RootAbove(w, depths, id, n)
  {
    var links, nodes := LinksOf(w, depths), NodesOf(w);
    var roots := Roots(links);
    var j, k := CountedRoots(links, nodes, roots, id);
    LinksAreDistinct(w, depths);
    RootsStayDistinct(links);
    assert roots[k].id != roots[j].id;
    hide LinksOf, NodesOf, Reaches, IsRoot, DistinctIds;
    RootsAreListed(w, depths, roots[j].id);
    RootsAreListed(w, depths, roots[k].id);
    ReachesIsAncestry(w, depths, roots[j].id, id);
    ReachesIsAncestry(w, depths, roots[k].id, id);
    m :| Ancestor(w, id, m) == Some(roots[j].id);
    n :| Ancestor(w, id, n) == Some(roots[k].id);
  }

  // ---------------------------------------------------------------- testers over boxes

  /** The plan of a vehicle's diagram. */
  function PlanFor(w: Wires, depths: map<string, nat>): Forest {
    PlanOf(LinksOf(w, depths), EcuNodes(DiagramNodes(w)))
  }

  /** Where the engine chose the entry points itself, no tester overlaps a box: nothing forwards onto any of them. */
  lemma NormalizedNeverClashes(w: Wires, depths: map<string, nat>)
    requires !HasExplicitChoice(w)
    ensures !Clashes(PlanFor(Normalized(w), depths))
  {
    var n := Normalized(w);
    EcusOfDiagram(n);
    NothingOntoEntryPoints(w, depths);
    hide LinksOf, NodesOf, DiagramNodes, NoEntryPointBelow, Normalized;
    NoEntryPointBelowNoClash(LinksOf(n, depths), NodesOf(n));
  }

  lemma NothingOntoEntryPoints(w: Wires, depths: map<string, nat>)
    requires !HasExplicitChoice(w)
    ensures NoEntryPointBelow(LinksOf(Normalized(w), depths), NodesOf(Normalized(w)))
  {
    var links, nodes := LinksOf(Normalized(w), depths), NodesOf(Normalized(w));
    hide LinkIds;
    forall node, link | node in nodes && link in links && link.isEntryPoint ensures link.id !in node.gatewayForLinkIds {
      var i :| 0 <= i < |nodes| && nodes[i] == node;
      var j :| 0 <= j < |links| && links[j] == link;
      assert !Gatewayed(w, w.networks[j].id);
    }
  }

  /** An accepted vehicle whose owner marked two networks, one behind the other: a tester covers the gateway between them. */
  lemma MarkedBehindMarkedClashes()
    ensures var w := Wires([Network("a", "a", true), Network("b", "b", true)], [Ecu("g", Some("a"), ["b"], true)]);
            var depths: map<string, nat> := map["a" := 0, "b" := 0];
            Sound(w) && ShortestDepths(w, depths) && Clashes(PlanFor(w, depths))
  {
    var w := Wires([Network("a", "a", true), Network("b", "b", true)], [Ecu("g", Some("a"), ["b"], true)]);
    var depths: map<string, nat> := map["a" := 0, "b" := 0];
    TwoMarkedAreSound(w);
    TwoMarkedDepths(w, depths);
    EcusOfDiagram(w);
    assert LinksOf(w, depths) == [Link("a", "a", true, Some(0)), Link("b", "b", true, Some(0))];
    assert NodesOf(w) == [Node("g", "ecu", Some("a"), ["b"], true)];
    hide PlanOf, LinksOf, NodesOf, Clashes, DiagramNodes, EcuNodes;
    TesterHidesGateway(LinksOf(w, depths)[0], LinksOf(w, depths)[1], NodesOf(w)[0]);
  }

  lemma TwoMarkedAreSound(w: Wires)
    requires w == Wires([Network("a", "a", true), Network("b", "b", true)], [Ecu("g", Some("a"), ["b"], true)])
    ensures Sound(w)
  {
    assert w.networks[0].id == "a" && w.networks[1].id == "b" && w.ecus[0].gatewayFor == ["b"];
    assert Declared(w, "a") && Declared(w, "b");
    forall id, steps: nat | steps > 0 && Declared(w, id) ensures Ancestor(w, id, steps) != Some(id) {
      assert Upstream(w, "a").None?;
      assert id == "b" ==> Upstream(w, id) == Some("a");
      assert steps > 1 ==> Ancestor(w, "a", steps - 1).None?;
    }
  }

  lemma TwoMarkedDepths(w: Wires, depths: map<string, nat>)
    requires w == Wires([Network("a", "a", true), Network("b", "b", true)], [Ecu("g", Some("a"), ["b"], true)])
    requires depths == map["a" := 0, "b" := 0]
    ensures ShortestDepths(w, depths)
  {
    assert w.networks[0].id == "a" && w.networks[1].id == "b";
    forall id, chain | ChainTo(w, chain, id) ensures id in depths && depths[id] <= |chain| - 1 {
      if |chain| > 1 { assert Forwards(w, chain[|chain| - 2], chain[|chain| - 2 + 1]); }
    }
    assert ChainTo(w, ["a"], "a") && ChainTo(w, ["b"], "b");
  }
}
