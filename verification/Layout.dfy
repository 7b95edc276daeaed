/**
 * The topology diagram's vocabulary: links, nodes, what gets drawn, and what it means for a
 * drawing to be complete, to stay inside its span and to keep things apart.
 */
module Layout {
  import opened Basics

  const ECU_WIDTH := 146
  const ECU_HEIGHT := 46
  const ECU_GAP := 18
  const BRANCH_GAP := 34
  const STEM_ABOVE := 30
  const STEM_BELOW := 40
  const ROW_HEIGHT := STEM_ABOVE + ECU_HEIGHT + STEM_BELOW
  const MARGIN_X := 28
  const TESTER_WIDTH := 76
  const TESTER_HEIGHT := 44

  datatype Link = Link(id: string, caption: string, isEntryPoint: bool, depth: Option<nat>)

  datatype Node = Node(id: string, kind: string, linkId: Option<string>, gatewayForLinkIds: seq<string>, isEnabled: bool)

  datatype PlacedEcu = PlacedEcu(node: Node, x: int, y: int)

  datatype PlacedBus = PlacedBus(link: Link, x0: int, x1: int, y: int)

  datatype PlacedTester = PlacedTester(x: int, y: int)

  datatype Segment = Segment(x0: int, y0: int, x1: int, y1: int, isDead: bool)

  datatype Span = Span(link: Link, x0: int, width: int)

  datatype Figure = Figure(buses: seq<PlacedBus>, ecus: seq<PlacedEcu>, testers: seq<PlacedTester>, segments: seq<Segment>)

  const BLANK := Figure([], [], [], [])

  function Join(f: Figure, g: Figure): Figure {
    Figure(f.buses + g.buses, f.ecus + g.ecus, f.testers + g.testers, f.segments + g.segments)
  }

  lemma JoinAssociates(f: Figure, g: Figure, h: Figure)
    ensures Join(Join(f, g), h) == Join(f, Join(g, h))
    ensures Join(f, BLANK) == f && Join(BLANK, f) == f
  {
  }

  function BusY(depth: nat): int {
    MARGIN_X + TESTER_HEIGHT + depth * ROW_HEIGHT
  }

  function EcuY(depth: nat): int {
    BusY(depth) + STEM_ABOVE
  }

  // ---------------------------------------------------------------- the wiring being drawn

  /** The ECUs hanging off one link, in list order. */
  function OnBus(nodes: seq<Node>, linkId: string): (on: seq<Node>)
    ensures forall k :: 0 <= k < |on| ==> on[k] in nodes && on[k].linkId == Some(linkId)
    ensures forall n :: n in nodes && n.linkId == Some(linkId) ==> n in on
  {
    if nodes == [] then []
    else (if nodes[0].linkId == Some(linkId) then [nodes[0]] else []) + OnBus(nodes[1..], linkId)
  }

  /** The links one node forwards onto, in the order links are listed. */
  function SubLinks(links: seq<Link>, node: Node): (subs: seq<Link>)
    ensures forall k :: 0 <= k < |subs| ==> subs[k] in links && subs[k].id in node.gatewayForLinkIds
    ensures forall l :: l in links && l.id in node.gatewayForLinkIds ==> l in subs
  {
    if links == [] then []
    else (if links[0].id in node.gatewayForLinkIds then [links[0]] else []) + SubLinks(links[1..], node)
  }

  /** Roots: where a tester attaches, and whatever nothing reaches. */
  function Roots(links: seq<Link>): (roots: seq<Link>)
    ensures forall k :: 0 <= k < |roots| ==> roots[k] in links
    ensures forall l :: l in links ==> (l in roots <==> l.isEntryPoint || l.depth.None?)
  {
    if links == [] then []
    else (if links[0].isEntryPoint || links[0].depth.None? then [links[0]] else []) + Roots(links[1..])
  }

  function EcuNodes(nodes: seq<Node>): (ecus: seq<Node>)
    ensures forall n :: n in ecus <==> n in nodes && n.kind == "ecu"
  {
    if nodes == [] then []
    else (if nodes[0].kind == "ecu" then [nodes[0]] else []) + EcuNodes(nodes[1..])
  }

  ghost function LinkIds(links: seq<Link>): set<string> {
    set l | l in links :: l.id
  }

  /** An ECU on `above` forwards onto the listed link `below`. */
  ghost predicate Leads(links: seq<Link>, nodes: seq<Node>, above: string, below: string) {
    below in LinkIds(links)
    && exists n :: n in nodes && n.linkId == Some(above) && below in n.gatewayForLinkIds
  }

  /** Every listed link this node forwards onto has been entered. */
  ghost predicate AllEntered(links: seq<Link>, node: Node, visited: set<string>) {
    forall b :: b in LinkIds(links) && b in node.gatewayForLinkIds ==> b in visited
  }

  lemma SubLinksEntered(links: seq<Link>, node: Node, visited: set<string>)
    requires forall j :: 0 <= j < |SubLinks(links, node)| ==> SubLinks(links, node)[j].id in visited
    ensures AllEntered(links, node, visited)
  {
    forall b | b in LinkIds(links) && b in node.gatewayForLinkIds ensures b in visited {
      var l :| l in links && l.id == b;
      assert l in SubLinks(links, node);
    }
  }

  ghost predicate Route(links: seq<Link>, nodes: seq<Node>, route: seq<string>, start: string, goal: string) {
    && |route| > 0 && route[0] == start && route[|route| - 1] == goal
    && forall i :: 0 <= i < |route| - 1 ==> Leads(links, nodes, route[i], route[i + 1])
  }

  ghost predicate Reaches(links: seq<Link>, nodes: seq<Node>, start: string, goal: string) {
    exists route :: Route(links, nodes, route, start, goal)
  }

  lemma ReachesItself(links: seq<Link>, nodes: seq<Node>, start: string)
    ensures Reaches(links, nodes, start, start)
  {
    assert Route(links, nodes, [start], start, start);
  }

  lemma LeadsOn(links: seq<Link>, nodes: seq<Node>, start: string, via: string, goal: string)
    requires Leads(links, nodes, start, via) && Reaches(links, nodes, via, goal)
    ensures Reaches(links, nodes, start, goal)
  {
    var route :| Route(links, nodes, route, via, goal);
    var longer := [start] + route;
    forall i | 0 <= i < |longer| - 1 ensures Leads(links, nodes, longer[i], longer[i + 1]) {
      if i > 0 { assert Leads(links, nodes, route[i - 1], route[i]); }
    }
    assert Route(links, nodes, longer, start, goal);
  }

  // ---------------------------------------------------------------- which links get visited

  /** The visited set grew only by links reachable from `start`, and took their successors along. */
  ghost predicate Grew(links: seq<Link>, nodes: seq<Node>, start: string, before: set<string>, after: set<string>) {
    && before <= after
    && after - before <= LinkIds(links)
    && forall a :: a in after && a !in before ==>
         Reaches(links, nodes, start, a) && forall b :: Leads(links, nodes, a, b) ==> b in after
  }

  lemma GrewTwice(links: seq<Link>, nodes: seq<Node>, start: string, a: set<string>, b: set<string>, c: set<string>)
    requires Grew(links, nodes, start, a, b) && Grew(links, nodes, start, b, c)
    ensures Grew(links, nodes, start, a, c)
  {
  }

  lemma GrewBelow(links: seq<Link>, nodes: seq<Node>, start: string, via: string, a: set<string>, b: set<string>)
    requires Leads(links, nodes, start, via) && Grew(links, nodes, via, a, b)
    ensures Grew(links, nodes, start, a, b)
  {
    forall x | x in b && x !in a ensures Reaches(links, nodes, start, x) {
      LeadsOn(links, nodes, start, via, x);
    }
  }

  /** Entering a link and then dealing with everything it leads to. */
  lemma GrewByEntering(links: seq<Link>, nodes: seq<Node>, start: string, before: set<string>, after: set<string>)
    requires start in LinkIds(links) && Grew(links, nodes, start, before + {start}, after)
    requires forall b :: Leads(links, nodes, start, b) ==> b in after
    ensures Grew(links, nodes, start, before, after)
  {
    ReachesItself(links, nodes, start);
  }

  /** A walk that starts with nothing visited ends having visited exactly what its root reaches. */
  lemma WalkVisitsReachable(links: seq<Link>, nodes: seq<Node>, start: string, after: set<string>)
    requires start in after && Grew(links, nodes, start, {}, after)
    ensures forall id :: id in after <==> Reaches(links, nodes, start, id)
  {
    forall id | Reaches(links, nodes, start, id) ensures id in after {
      var route :| Route(links, nodes, route, start, id);
      RouteStaysInside(links, nodes, route, start, id, after);
    }
  }

  lemma {:induction false} RouteStaysInside(links: seq<Link>, nodes: seq<Node>, route: seq<string>,
                                            start: string, goal: string, inside: set<string>)
    requires Route(links, nodes, route, start, goal) && start in inside
    requires forall a, b :: a in inside && Leads(links, nodes, a, b) ==> b in inside
    ensures goal in inside
    decreases |route|
  {
    if |route| > 1 {
      assert Leads(links, nodes, route[0], route[1]);
      var rest := route[1..];
      forall i | 0 <= i < |rest| - 1 ensures Leads(links, nodes, rest[i], rest[i + 1]) {
        assert Leads(links, nodes, route[i + 1], route[i + 2]);
      }
      RouteStaysInside(links, nodes, rest, rest[0], goal, inside);
    }
  }

  lemma EnteringShrinks(links: seq<Link>, link: Link, visited: set<string>)
    requires link in links && link.id !in visited
    ensures |LinkIds(links) - (visited + {link.id})| < |LinkIds(links) - visited|
  {
    assert LinkIds(links) - visited == (LinkIds(links) - (visited + {link.id})) + {link.id};
  }

  lemma FewerLeft(links: seq<Link>, before: set<string>, after: set<string>)
    requires before <= after
    ensures |LinkIds(links) - after| <= |LinkIds(links) - before|
  {
    SubsetIsSmaller(LinkIds(links) - after, LinkIds(links) - before);
  }

  // ---------------------------------------------------------------- what gets drawn

  /** The nodes whose boxes were drawn for one link, in drawing order. */
  function NodesOn(boxes: seq<PlacedEcu>, linkId: string): seq<Node> {
    if boxes == [] then []
    else (if boxes[0].node.linkId == Some(linkId) then [boxes[0].node] else []) + NodesOn(boxes[1..], linkId)
  }

  /** How many bus lines were drawn for one link. */
  function BusLines(buses: seq<PlacedBus>, linkId: string): nat {
    if buses == [] then 0
    else (if buses[0].link.id == linkId then 1 else 0) + BusLines(buses[1..], linkId)
  }

  lemma NodesOnStep(boxes: seq<PlacedEcu>, linkId: string)
    requires boxes != []
    ensures NodesOn(boxes, linkId)
            == (if boxes[0].node.linkId == Some(linkId) then [boxes[0].node] else []) + NodesOn(boxes[1..], linkId)
  {
  }

  lemma {:induction false} NodesOnJoin(a: seq<PlacedEcu>, b: seq<PlacedEcu>, linkId: string)
    ensures NodesOn(a + b, linkId) == NodesOn(a, linkId) + NodesOn(b, linkId)
  {
    hide NodesOn;
    if a == [] {
      assert a + b == b;
      NodesOnNone(linkId);
    } else {
      var both := a + b;
      var first := if a[0].node.linkId == Some(linkId) then [a[0].node] else [];
      NodesOnJoin(a[1..], b, linkId);
      assert both[1..] == a[1..] + b && both[0] == a[0];
      NodesOnStep(both, linkId);
      NodesOnStep(a, linkId);
      assert first + (NodesOn(a[1..], linkId) + NodesOn(b, linkId)) == (first + NodesOn(a[1..], linkId)) + NodesOn(b, linkId);
    }
  }

  lemma NodesOnNone(linkId: string)
    ensures NodesOn([], linkId) == []
  {
  }

  lemma {:induction false} BusLinesJoin(a: seq<PlacedBus>, b: seq<PlacedBus>, linkId: string)
    ensures BusLines(a + b, linkId) == BusLines(a, linkId) + BusLines(b, linkId)
  {
    if a == [] {
      assert a + b == b;
    } else {
      assert (a + b)[1..] == a[1..] + b;
      BusLinesJoin(a[1..], b, linkId);
    }
  }

  /**
   * The figure shows each newly visited link once, with one box per ECU on it in list order, and
   * besides that only boxes for `ownNodes` on the link `own`.
   */
  ghost predicate Shows(nodes: seq<Node>, f: Figure, before: set<string>, after: set<string>, own: string, ownNodes: seq<Node>) {
    forall id :: ShowsLink(nodes, f, before, after, id, own, ownNodes)
  }

  ghost predicate ShowsLink(nodes: seq<Node>, f: Figure, before: set<string>, after: set<string>, id: string,
                            own: string, ownNodes: seq<Node>) {
    var isNew := id in after && id !in before;
    && NodesOn(f.ecus, id) == (if isNew then OnBus(nodes, id) else []) + (if id == own then ownNodes else [])
    && BusLines(f.buses, id) == (if isNew then 1 else 0)
  }

  lemma ShowsNothing(nodes: seq<Node>, visited: set<string>, own: string)
    ensures Shows(nodes, BLANK, visited, visited, own, [])
  {
  }

  lemma ShowsBoth(nodes: seq<Node>, f: Figure, g: Figure, a: set<string>, b: set<string>, c: set<string>,
                  own: string, first: seq<Node>, second: seq<Node>)
    requires a <= b <= c && own in a
    requires Shows(nodes, f, a, b, own, first) && Shows(nodes, g, b, c, own, second)
    ensures Shows(nodes, Join(f, g), a, c, own, first + second)
  {
    hide NodesOn, BusLines, OnBus;
    forall id ensures ShowsLink(nodes, Join(f, g), a, c, id, own, first + second) {
      assert ShowsLink(nodes, f, a, b, id, own, first);
      assert ShowsLink(nodes, g, b, c, id, own, second);
      NodesOnJoin(f.ecus, g.ecus, id);
      BusLinesJoin(f.buses, g.buses, id);
    }
  }

  /** A figure in which `own` was not entered owes nothing to any particular link. */
  lemma ShowsElsewhere(nodes: seq<Node>, f: Figure, a: set<string>, b: set<string>, x: string, y: string)
    requires Shows(nodes, f, a, b, x, [])
    ensures Shows(nodes, f, a, b, y, [])
  {
    forall id ensures ShowsLink(nodes, f, a, b, id, y, []) {
      assert ShowsLink(nodes, f, a, b, id, x, []);
    }
  }

  // ---------------------------------------------------------------- where it gets drawn

  ghost predicate BoxFits(box: PlacedEcu, lo: int, hi: int, depth: nat) {
    lo <= box.x && box.x + ECU_WIDTH <= hi && EcuY(depth) <= box.y
  }

  ghost predicate BusFits(bus: PlacedBus, lo: int, hi: int, depth: nat) {
    lo <= bus.x0 <= bus.x1 <= hi && BusY(depth) <= bus.y
  }

  ghost predicate SegmentFits(s: Segment, lo: int, hi: int, depth: nat) {
    lo <= s.x0 <= hi && lo <= s.x1 <= hi && BusY(depth) - 4 <= s.y0 && BusY(depth) - 4 <= s.y1
  }

  ghost predicate TesterFits(t: PlacedTester, lo: int, hi: int, depth: nat) {
    lo <= t.x && t.x + TESTER_WIDTH <= hi && BusY(depth) - TESTER_HEIGHT - 4 <= t.y
  }

  /** Everything drawn lies between `lo` and `hi` and no higher than its depth allows. */
  ghost predicate Fits(f: Figure, lo: int, hi: int, depth: nat) {
    && (forall k :: 0 <= k < |f.ecus| ==> BoxFits(f.ecus[k], lo, hi, depth))
    && (forall k :: 0 <= k < |f.buses| ==> BusFits(f.buses[k], lo, hi, depth))
    && (forall k :: 0 <= k < |f.segments| ==> SegmentFits(f.segments[k], lo, hi, depth))
    && (forall k :: 0 <= k < |f.testers| ==> TesterFits(f.testers[k], lo, hi, depth))
  }

  ghost predicate BoxesApart(a: PlacedEcu, b: PlacedEcu) {
    a.y == b.y ==> a.x + ECU_WIDTH + ECU_GAP <= b.x || b.x + ECU_WIDTH + ECU_GAP <= a.x
  }

  ghost predicate BusesApart(a: PlacedBus, b: PlacedBus) {
    a.y == b.y ==> a.x1 + ECU_GAP <= b.x0 || b.x1 + ECU_GAP <= a.x0
  }

  /** Two boxes in one row, or two bus lines at one depth, keep at least the ECU gap. */
  ghost predicate Apart(f: Figure) {
    && (forall i, j :: 0 <= i < j < |f.ecus| ==> BoxesApart(f.ecus[i], f.ecus[j]))
    && (forall i, j :: 0 <= i < j < |f.buses| ==> BusesApart(f.buses[i], f.buses[j]))
  }

  lemma FitsWider(f: Figure, lo: int, hi: int, depth: nat, lo': int, hi': int, depth': nat)
    requires Fits(f, lo, hi, depth) && lo' <= lo && hi <= hi' && depth' <= depth
    ensures Fits(f, lo', hi', depth')
  {
    assert BusY(depth') <= BusY(depth);
  }

  lemma FitsBoth(f: Figure, g: Figure, lo: int, hi: int, depth: nat)
    requires Fits(f, lo, hi, depth) && Fits(g, lo, hi, depth)
    ensures Fits(Join(f, g), lo, hi, depth)
  {
    var j := Join(f, g);
    forall k | 0 <= k < |j.ecus| ensures BoxFits(j.ecus[k], lo, hi, depth) {
      assert j.ecus[k] == if k < |f.ecus| then f.ecus[k] else g.ecus[k - |f.ecus|];
    }
    forall k | 0 <= k < |j.buses| ensures BusFits(j.buses[k], lo, hi, depth) {
      assert j.buses[k] == if k < |f.buses| then f.buses[k] else g.buses[k - |f.buses|];
    }
    forall k | 0 <= k < |j.segments| ensures SegmentFits(j.segments[k], lo, hi, depth) {
      assert j.segments[k] == if k < |f.segments| then f.segments[k] else g.segments[k - |f.segments|];
    }
    forall k | 0 <= k < |j.testers| ensures TesterFits(j.testers[k], lo, hi, depth) {
      assert j.testers[k] == if k < |f.testers| then f.testers[k] else g.testers[k - |f.testers|];
    }
  }

  lemma ApartBoth(f: Figure, g: Figure)
    requires Apart(f) && Apart(g)
    requires forall i, j :: 0 <= i < |f.ecus| && 0 <= j < |g.ecus| ==> BoxesApart(f.ecus[i], g.ecus[j])
    requires forall i, j :: 0 <= i < |f.buses| && 0 <= j < |g.buses| ==> BusesApart(f.buses[i], g.buses[j])
    ensures Apart(Join(f, g))
  {
    var h := Join(f, g);
    forall i, j | 0 <= i < j < |h.ecus| ensures BoxesApart(h.ecus[i], h.ecus[j]) {
      assert h.ecus[i] == if i < |f.ecus| then f.ecus[i] else g.ecus[i - |f.ecus|];
      assert h.ecus[j] == if j < |f.ecus| then f.ecus[j] else g.ecus[j - |f.ecus|];
    }
    forall i, j | 0 <= i < j < |h.buses| ensures BusesApart(h.buses[i], h.buses[j]) {
      assert h.buses[i] == if i < |f.buses| then f.buses[i] else g.buses[i - |f.buses|];
      assert h.buses[j] == if j < |f.buses| then f.buses[j] else g.buses[j - |f.buses|];
    }
  }

  /** Figures side by side with a gap between their spans. */
  lemma SideBySide(f: Figure, g: Figure, lo: int, mid: int, next: int, hi: int, depth: nat)
    requires Fits(f, lo, mid, depth) && Fits(g, next, hi, depth) && Apart(f) && Apart(g)
    requires mid + ECU_GAP <= next && lo <= next && mid <= hi
    ensures Fits(Join(f, g), lo, hi, depth) && Apart(Join(f, g))
  {
    FitsWider(f, lo, mid, depth, lo, hi, depth);
    FitsWider(g, next, hi, depth, lo, hi, depth);
    FitsBoth(f, g, lo, hi, depth);
    forall i, j | 0 <= i < |f.ecus| && 0 <= j < |g.ecus| ensures BoxesApart(f.ecus[i], g.ecus[j]) {
      assert BoxFits(f.ecus[i], lo, mid, depth) && BoxFits(g.ecus[j], next, hi, depth);
    }
    forall i, j | 0 <= i < |f.buses| && 0 <= j < |g.buses| ensures BusesApart(f.buses[i], g.buses[j]) {
      assert BusFits(f.buses[i], lo, mid, depth) && BusFits(g.buses[j], next, hi, depth);
    }
    ApartBoth(f, g);
  }

  // ---------------------------------------------------------------- how deep it gets drawn

  /** No lower than the top bus line, or at most one branch drop below some drawn box. */
  ghost predicate Held(f: Figure, depth: nat, y: int) {
    y <= BusY(depth) || exists k :: 0 <= k < |f.ecus| && y <= f.ecus[k].y + ECU_HEIGHT + STEM_BELOW
  }

  ghost predicate AllHeld(f: Figure, depth: nat) {
    && (forall k :: 0 <= k < |f.buses| ==> Held(f, depth, f.buses[k].y))
    && (forall k :: 0 <= k < |f.segments| ==> Held(f, depth, f.segments[k].y0) && Held(f, depth, f.segments[k].y1))
    && (forall k :: 0 <= k < |f.testers| ==> Held(f, depth, f.testers[k].y + TESTER_HEIGHT))
  }

  lemma HeldInJoin(f: Figure, g: Figure, depth: nat, y: int)
    ensures Held(f, depth, y) ==> Held(Join(f, g), depth, y)
    ensures Held(g, depth, y) ==> Held(Join(f, g), depth, y)
  {
    var h := Join(f, g);
    if y > BusY(depth) {
      if Held(f, depth, y) {
        var k :| 0 <= k < |f.ecus| && y <= f.ecus[k].y + ECU_HEIGHT + STEM_BELOW;
        assert h.ecus[k] == f.ecus[k];
      }
      if Held(g, depth, y) {
        var k :| 0 <= k < |g.ecus| && y <= g.ecus[k].y + ECU_HEIGHT + STEM_BELOW;
        assert h.ecus[|f.ecus| + k] == g.ecus[k];
      }
    }
  }

  lemma AllHeldBoth(f: Figure, g: Figure, depth: nat)
    requires AllHeld(f, depth) && AllHeld(g, depth)
    ensures AllHeld(Join(f, g), depth)
  {
    var h := Join(f, g);
    forall k | 0 <= k < |h.buses| ensures Held(h, depth, h.buses[k].y) {
      HeldInJoin(f, g, depth, h.buses[k].y);
      assert h.buses[k] == if k < |f.buses| then f.buses[k] else g.buses[k - |f.buses|];
    }
    forall k | 0 <= k < |h.segments| ensures Held(h, depth, h.segments[k].y0) && Held(h, depth, h.segments[k].y1) {
      HeldInJoin(f, g, depth, h.segments[k].y0);
      HeldInJoin(f, g, depth, h.segments[k].y1);
      assert h.segments[k] == if k < |f.segments| then f.segments[k] else g.segments[k - |f.segments|];
    }
    forall k | 0 <= k < |h.testers| ensures Held(h, depth, h.testers[k].y + TESTER_HEIGHT) {
      HeldInJoin(f, g, depth, h.testers[k].y + TESTER_HEIGHT);
      assert h.testers[k] == if k < |f.testers| then f.testers[k] else g.testers[k - |f.testers|];
    }
  }

  // ---------------------------------------------------------------- testers and strokes

  /** The tester over a bus ending at `end` in row `depth`. */
  function TesterOver(end: int, depth: nat): PlacedTester {
    PlacedTester(end - TESTER_WIDTH, BusY(depth) - TESTER_HEIGHT - 4)
  }

  /** The testers these buses call for: one over the right end of each entry point's bus. */
  function TestersOf(buses: seq<PlacedBus>): seq<PlacedTester> {
    if buses == [] then []
    else
      var last := buses[|buses| - 1];
      TestersOf(buses[..|buses| - 1])
      + (if last.link.isEntryPoint then [PlacedTester(last.x1 - TESTER_WIDTH, last.y - TESTER_HEIGHT - 4)] else [])
  }

  /** Every drawn bus of an entry point has its tester, in drawing order, and there is no other tester. */
  ghost predicate TestersStand(f: Figure) {
    f.testers == TestersOf(f.buses)
  }

  lemma {:induction false} TestersOfJoin(a: seq<PlacedBus>, b: seq<PlacedBus>)
    ensures TestersOf(a + b) == TestersOf(a) + TestersOf(b)
  {
    if b == [] {
      assert a + b == a;
    } else {
      var n := |b| - 1;
      TestersOfJoin(a, b[..n]);
      assert (a + b)[..|a| + n] == a + b[..n];
    }
  }

  lemma TestersStandBoth(f: Figure, g: Figure)
    requires TestersStand(f) && TestersStand(g)
    ensures TestersStand(Join(f, g))
  {
    TestersOfJoin(f.buses, g.buses);
  }

  /** A stem from the bus to the box, then for each span three joined strokes from the box to the middle of its bus; dead together. */
  ghost predicate Connects(strokes: seq<Segment>, box: PlacedEcu, spans: seq<Span>, depth: nat) {
    && |strokes| == 1 + 3 * |spans|
    && strokes[0] == Segment(box.x + ECU_WIDTH / 2, BusY(depth), box.x + ECU_WIDTH / 2, box.y, !box.node.isEnabled)
    && forall k :: 0 <= k < |spans| ==> Drops(strokes[1 + 3 * k], strokes[2 + 3 * k], strokes[3 + 3 * k], box, spans[k], depth)
  }

  ghost predicate Drops(down: Segment, across: Segment, onto: Segment, box: PlacedEcu, span: Span, depth: nat) {
    && (down.x0, down.y0) == (box.x + ECU_WIDTH / 2, box.y + ECU_HEIGHT) && down.x1 == down.x0
    && (across.x0, across.y0) == (down.x1, down.y1) && across.y1 == across.y0
    && (onto.x0, onto.y0) == (across.x1, across.y1) && onto.x1 == onto.x0
    && 2 * onto.x1 == 2 * span.x0 + span.width && onto.y1 == BusY(depth + 1)
    && down.isDead == across.isDead == onto.isDead == !box.node.isEnabled
  }

  /** Each span is a bus line drawn at this depth. */
  ghost predicate SpansDrawn(spans: seq<Span>, f: Figure, depth: nat) {
    forall k :: 0 <= k < |spans| ==> PlacedBus(spans[k].link, spans[k].x0, spans[k].x0 + spans[k].width, BusY(depth)) in f.buses
  }

  lemma SpansStayDrawn(spans: seq<Span>, f: Figure, g: Figure, depth: nat)
    requires SpansDrawn(spans, f, depth)
    ensures SpansDrawn(spans, Join(f, g), depth)
  {
  }

  /** The box's strokes start at this place: to the bus above, and to buses drawn below of links it forwards onto. */
  ghost predicate StrokesAt(links: seq<Link>, f: Figure, box: PlacedEcu, at: nat, spans: seq<Span>, depth: nat) {
    && box.y == EcuY(depth)
    && at + 1 + 3 * |spans| <= |f.segments|
    && Connects(f.segments[at..at + 1 + 3 * |spans|], box, spans, depth)
    && SpansDrawn(spans, f, depth + 1) && SpansListed(links, spans, box.node, |links|)
  }

  /**
   * The spans are those of some of the links listed before this place that the node forwards onto, left
   * to right in list order with a branch gap between any two.
   */
  ghost predicate SpansListed(links: seq<Link>, spans: seq<Span>, node: Node, upto: nat)
    requires upto <= |links|
  {
    && (exists places :: Rising(places, upto) && AreSpansOf(spans, links, node, places))
    && (forall j, k :: 0 <= j < k < |spans| ==> spans[j].x0 + spans[j].width + BRANCH_GAP <= spans[k].x0)
  }

  ghost predicate AreSpansOf(spans: seq<Span>, links: seq<Link>, node: Node, places: seq<nat>) {
    && |places| == |spans|
    && forall k :: 0 <= k < |spans| ==>
         places[k] < |links| && spans[k].link == links[places[k]] && spans[k].link.id in node.gatewayForLinkIds
  }

  lemma NoSpansListed(links: seq<Link>, node: Node)
    ensures SpansListed(links, [], node, 0)
  {
    assert Rising([], 0) && AreSpansOf([], links, node, []);
  }

  lemma SpansListedFurther(links: seq<Link>, spans: seq<Span>, node: Node, upto: nat, further: nat)
    requires upto <= further <= |links| && SpansListed(links, spans, node, upto)
    ensures SpansListed(links, spans, node, further)
  {
    var places :| Rising(places, upto) && AreSpansOf(spans, links, node, places);
    hide AreSpansOf;
    assert Rising(places, further);
  }

  lemma SpanListedToo(links: seq<Link>, spans: seq<Span>, span: Span, node: Node, place: nat, lo: int)
    requires place < |links| && SpansListed(links, spans, node, place) && SpansFit(spans, lo, span.x0 - BRANCH_GAP)
    requires span.link == links[place] && span.link.id in node.gatewayForLinkIds
    ensures SpansListed(links, spans + [span], node, place + 1)
  {
    var places :| Rising(places, place) && AreSpansOf(spans, links, node, places);
    assert Rising(places + [place], place + 1) && AreSpansOf(spans + [span], links, node, places + [place]);
    hide AreSpansOf, Rising;
    var more := spans + [span];
    forall j, k | 0 <= j < k < |more| ensures more[j].x0 + more[j].width + BRANCH_GAP <= more[k].x0 {
      assert more[j] == spans[j];
      if k < |spans| { assert more[k] == spans[k]; }
    }
  }

  ghost predicate HasStrokes(links: seq<Link>, f: Figure, box: PlacedEcu) {
    exists at: nat, spans: seq<Span>, depth: nat :: StrokesAt(links, f, box, at, spans, depth)
  }

  ghost predicate Stroked(links: seq<Link>, f: Figure) {
    forall k :: 0 <= k < |f.ecus| ==> HasStrokes(links, f, f.ecus[k])
  }

  lemma StrokesInJoin(links: seq<Link>, f: Figure, g: Figure, box: PlacedEcu)
    ensures HasStrokes(links, f, box) ==> HasStrokes(links, Join(f, g), box)
    ensures HasStrokes(links, g, box) ==> HasStrokes(links, Join(f, g), box)
  {
    var h := Join(f, g);
    hide Connects, SpansListed;
    if HasStrokes(links, f, box) {
      var at: nat, spans: seq<Span>, depth: nat :| StrokesAt(links, f, box, at, spans, depth);
      assert h.segments[at..at + 1 + 3 * |spans|] == f.segments[at..at + 1 + 3 * |spans|];
      assert StrokesAt(links, h, box, at, spans, depth);
    }
    if HasStrokes(links, g, box) {
      var at: nat, spans: seq<Span>, depth: nat :| StrokesAt(links, g, box, at, spans, depth);
      var n := |f.segments|;
      assert h.segments[n + at..n + at + 1 + 3 * |spans|] == g.segments[at..at + 1 + 3 * |spans|];
      assert StrokesAt(links, h, box, n + at, spans, depth);
    }
  }

  lemma StrokedBoth(links: seq<Link>, f: Figure, g: Figure)
    requires Stroked(links, f) && Stroked(links, g)
    ensures Stroked(links, Join(f, g))
  {
    hide HasStrokes;
    var h := Join(f, g);
    forall k | 0 <= k < |h.ecus| ensures HasStrokes(links, h, h.ecus[k]) {
      StrokesInJoin(links, f, g, h.ecus[k]);
      assert h.ecus[k] == if k < |f.ecus| then f.ecus[k] else g.ecus[k - |f.ecus|];
    }
  }

  /** A box over its sub-trees: its own strokes end on buses drawn among these. */
  lemma StrokedUnderBox(links: seq<Link>, f: Figure, g: Figure, node: Node, lo: int, hi: int, depth: nat, spans: seq<Span>)
    requires Stroked(links, f) && OwnBox(g, node, lo, hi, depth)
    requires Connects(g.segments, g.ecus[0], spans, depth) && SpansDrawn(spans, f, depth + 1) && SpansListed(links, spans, node, |links|)
    ensures Stroked(links, Join(f, g))
  {
    var h, box := Join(f, g), g.ecus[0];
    SpansStayDrawn(spans, f, g, depth + 1);
    assert |g.segments| == 1 + 3 * |spans|;
    assert h.segments[|f.segments|..|f.segments| + 1 + 3 * |spans|] == g.segments;
    hide Connects, SpansListed, SpansDrawn;
    assert StrokesAt(links, h, box, |f.segments|, spans, depth);
    assert HasStrokes(links, h, box);
    hide HasStrokes;
    forall k | 0 <= k < |h.ecus| ensures HasStrokes(links, h, h.ecus[k]) {
      StrokesInJoin(links, f, g, h.ecus[k]);
      assert h.ecus[k] == if k < |f.ecus| then f.ecus[k] else box;
    }
  }

  // ---------------------------------------------------------------- a placed part of the drawing

  /** All that holds of the figure drawn for part of a link's row and everything beneath it. */
  ghost predicate Placed(links: seq<Link>, nodes: seq<Node>, f: Figure, lo: int, hi: int, depth: nat,
                         before: set<string>, after: set<string>, own: string, ownNodes: seq<Node>) {
    && Fits(f, lo, hi, depth) && Apart(f) && AllHeld(f, depth)
    && TestersStand(f) && Stroked(links, f)
    && Shows(nodes, f, before, after, own, ownNodes)
    && Grew(links, nodes, own, before, after)
  }

  lemma PlacedNothing(links: seq<Link>, nodes: seq<Node>, lo: int, hi: int, depth: nat, visited: set<string>, own: string)
    ensures Placed(links, nodes, BLANK, lo, hi, depth, visited, visited, own, [])
    ensures BusesBelow(BLANK, depth)
  {
    ShowsNothing(nodes, visited, own);
  }

  /** The next part of the same row, a gap further right. */
  lemma PlacedBeside(links: seq<Link>, nodes: seq<Node>, f: Figure, g: Figure, lo: int, mid: int, next: int, hi: int, depth: nat,
                     a: set<string>, b: set<string>, c: set<string>, own: string, first: seq<Node>, second: seq<Node>)
    requires Placed(links, nodes, f, lo, mid, depth, a, b, own, first)
    requires Placed(links, nodes, g, next, hi, depth, b, c, own, second)
    requires own in a && mid + ECU_GAP <= next && lo <= next && mid <= hi
    ensures Placed(links, nodes, Join(f, g), lo, hi, depth, a, c, own, first + second)
  {
    assert a <= b <= c && Shows(nodes, f, a, b, own, first) && Shows(nodes, g, b, c, own, second);
    assert Fits(f, lo, mid, depth) && Fits(g, next, hi, depth) && AllHeld(f, depth) && AllHeld(g, depth) && Apart(f) && Apart(g);
    assert Grew(links, nodes, own, a, b) && Grew(links, nodes, own, b, c);
    assert TestersStand(f) && TestersStand(g) && Stroked(links, f) && Stroked(links, g);
    hide Fits, Apart, AllHeld, Shows, Grew, Join, TestersStand, Stroked;
    TestersStandBoth(f, g);
    StrokedBoth(links, f, g);
    SideBySide(f, g, lo, mid, next, hi, depth);
    AllHeldBoth(f, g, depth);
    ShowsBoth(nodes, f, g, a, b, c, own, first, second);
    GrewTwice(links, nodes, own, a, b, c);
  }

  /** What was drawn for a link one row down, seen from the link that leads to it. */
  lemma PlacedBelow(links: seq<Link>, nodes: seq<Node>, f: Figure, lo: int, hi: int, depth: nat,
                    a: set<string>, b: set<string>, own: string, via: string)
    requires Placed(links, nodes, f, lo, hi, depth, a, b, via, []) && Leads(links, nodes, own, via)
    ensures Placed(links, nodes, f, lo, hi, depth, a, b, own, [])
  {
    ShowsElsewhere(nodes, f, a, b, via, own);
    GrewBelow(links, nodes, own, via, a, b);
  }

  /** A gateway's box, centred over its sub-trees, and the strokes drawn for the ECU itself. */
  ghost predicate OwnBox(g: Figure, node: Node, lo: int, hi: int, depth: nat) {
    && g.buses == [] && g.testers == []
    && |g.ecus| == 1 && g.ecus[0].node == node && g.ecus[0].y == EcuY(depth)
    && 2 * g.ecus[0].x + ECU_WIDTH == lo + hi
    && Fits(g, lo, hi, depth)
    && forall k :: 0 <= k < |g.segments| ==> g.segments[k].y0 <= BusY(depth + 1) && g.segments[k].y1 <= BusY(depth + 1)
  }

  ghost predicate SpansFit(spans: seq<Span>, lo: int, hi: int) {
    forall k :: 0 <= k < |spans| ==>
      lo <= spans[k].x0 && 0 <= spans[k].width && spans[k].width % 2 == 0 && spans[k].x0 + spans[k].width <= hi
  }

  lemma SpanFitsToo(spans: seq<Span>, span: Span, lo: int, mid: int, hi: int)
    requires SpansFit(spans, lo, mid) && mid <= hi
    requires lo <= span.x0 && 0 <= span.width && span.width % 2 == 0 && span.x0 + span.width <= hi
    ensures SpansFit(spans + [span], lo, hi)
  {
  }

  lemma SpanDrawnToo(spans: seq<Span>, span: Span, f: Figure, g: Figure, depth: nat)
    requires SpansDrawn(spans, f, depth)
    requires PlacedBus(span.link, span.x0, span.x0 + span.width, BusY(depth)) in g.buses
    ensures SpansDrawn(spans + [span], Join(f, g), depth)
  {
    SpansStayDrawn(spans, f, g, depth);
    var more := spans + [span];
    forall k | 0 <= k < |more|
      ensures PlacedBus(more[k].link, more[k].x0, more[k].x0 + more[k].width, BusY(depth)) in Join(f, g).buses
    {
      if k < |spans| { assert more[k] == spans[k]; }
    }
  }

  lemma OwnBusIsDrawn(f: Figure, own: Figure, link: Link, lo: int, hi: int, depth: nat)
    requires OwnBus(own, link, lo, hi, depth)
    ensures PlacedBus(link, lo, hi, BusY(depth)) in Join(f, own).buses
  {
    assert own.buses[0] == PlacedBus(link, lo, hi, BusY(depth));
  }

  // ---------------------------------------------------------------- testers and boxes

  ghost predicate Overlaps(t: PlacedTester, b: PlacedEcu) {
    && t.x < b.x + ECU_WIDTH && b.x < t.x + TESTER_WIDTH
    && t.y < b.y + ECU_HEIGHT && b.y < t.y + TESTER_HEIGHT
  }

  /** A tester reaches into the row of boxes right above its bus, and into no other row. */
  lemma TesterOverlapsExactly(end: int, depth: nat, b: PlacedEcu, row: nat)
    requires b.y == EcuY(row)
    ensures Overlaps(TesterOver(end, depth), b) <==> depth == row + 1 && b.x < end && end < b.x + ECU_WIDTH + TESTER_WIDTH
  {
    if depth > row + 1 {
      assert BusY(depth) >= BusY(row + 2);
    }
    if depth <= row {
      assert BusY(depth) <= BusY(row);
    }
  }

  /**
   * So the tester of an entry point one gateway below another bus overlaps that gateway's box exactly
   * when it ends within 149 of the middle of the gateway's slot on the right and 73 on the left; when
   * the bus fills the slot alone, exactly when it is less than 298 wide. Boxes of other slots are clear.
   */
  lemma BranchTesterOverlapsExactly(g: Figure, node: Node, lo: int, hi: int, row: nat, end: int)
    requires OwnBox(g, node, lo, hi, row)
    ensures Overlaps(TesterOver(end, row + 1), g.ecus[0]) <==> lo + hi - ECU_WIDTH < 2 * end < lo + hi + ECU_WIDTH + 2 * TESTER_WIDTH
    ensures end == hi ==> (Overlaps(TesterOver(end, row + 1), g.ecus[0]) <==> hi - lo < 298)
    ensures forall b: PlacedEcu, other: nat ::
              b.y == EcuY(other) && lo + TESTER_WIDTH <= end <= hi && (b.x + ECU_WIDTH + ECU_GAP <= lo || hi + ECU_GAP <= b.x)
              ==> !Overlaps(TesterOver(end, row + 1), b)
  {
    TesterOverlapsExactly(end, row + 1, g.ecus[0], row);
  }

  ghost predicate BusesBelow(f: Figure, depth: nat) {
    forall k :: 0 <= k < |f.buses| ==> BusY(depth) < f.buses[k].y
  }

  lemma PlacedUnderBox(links: seq<Link>, nodes: seq<Node>, f: Figure, g: Figure, lo: int, mid: int, hi: int, depth: nat,
                       a: set<string>, b: set<string>, own: string, node: Node, spans: seq<Span>)
    requires Placed(links, nodes, f, lo, mid, depth + 1, a, b, own, []) && mid <= hi
    requires OwnBox(g, node, lo, hi, depth) && node.linkId == Some(own) && own in a
    requires Connects(g.segments, g.ecus[0], spans, depth) && SpansDrawn(spans, f, depth + 1) && SpansListed(links, spans, node, |links|)
    ensures Placed(links, nodes, Join(f, g), lo, hi, depth, a, b, own, [node])
    ensures BusesBelow(Join(f, g), depth)
  {
    hide Connects, SpansDrawn, SpansListed, Stroked, Fits, Apart, AllHeld, Shows, TestersStand, BusesBelow;
    TestersStandUnderBox(f, g, node, lo, hi, depth);
    StrokedUnderBox(links, f, g, node, lo, hi, depth, spans);
    UnderBoxFits(f, g, lo, mid, hi, depth, node);
    UnderBoxHeld(f, g, lo, hi, depth, node);
    UnderBoxShows(nodes, f, g, lo, hi, depth, a, b, own, node);
  }

  lemma TestersStandUnderBox(f: Figure, g: Figure, node: Node, lo: int, hi: int, depth: nat)
    requires TestersStand(f) && OwnBox(g, node, lo, hi, depth)
    ensures TestersStand(Join(f, g))
  {
    assert f.buses + [] == f.buses && f.testers + [] == f.testers;
  }

  lemma UnderBoxFits(f: Figure, g: Figure, lo: int, mid: int, hi: int, depth: nat, node: Node)
    requires Fits(f, lo, mid, depth + 1) && Apart(f) && mid <= hi && OwnBox(g, node, lo, hi, depth)
    ensures Fits(Join(f, g), lo, hi, depth) && Apart(Join(f, g)) && BusesBelow(Join(f, g), depth)
  {
    FitsWider(f, lo, mid, depth + 1, lo, hi, depth);
    FitsBoth(f, g, lo, hi, depth);
    forall i, j | 0 <= i < |f.ecus| && 0 <= j < |g.ecus| ensures BoxesApart(f.ecus[i], g.ecus[j]) {
      assert BoxFits(f.ecus[i], lo, mid, depth + 1);
    }
    ApartBoth(f, g);
    forall k | 0 <= k < |Join(f, g).buses| ensures BusY(depth) < Join(f, g).buses[k].y {
      assert Join(f, g).buses == f.buses;
      assert BusFits(f.buses[k], lo, mid, depth + 1);
    }
  }

  lemma UnderBoxHeld(f: Figure, g: Figure, lo: int, hi: int, depth: nat, node: Node)
    requires AllHeld(f, depth + 1) && OwnBox(g, node, lo, hi, depth)
    ensures AllHeld(Join(f, g), depth)
  {
    var h := Join(f, g);
    assert h.ecus[|f.ecus|] == g.ecus[0];
    assert BusY(depth + 1) == g.ecus[0].y + ECU_HEIGHT + STEM_BELOW;
    assert forall y :: y <= BusY(depth + 1) ==> Held(h, depth, y);
    assert forall y :: Held(f, depth + 1, y) ==> Held(h, depth, y) by {
      forall y | Held(f, depth + 1, y) ensures Held(h, depth, y) {
        if y > BusY(depth + 1) { HeldInJoin(f, g, depth + 1, y); }
      }
    }
    forall k | 0 <= k < |h.segments| ensures Held(h, depth, h.segments[k].y0) && Held(h, depth, h.segments[k].y1) {
      assert h.segments[k] == if k < |f.segments| then f.segments[k] else g.segments[k - |f.segments|];
    }
    assert h.buses == f.buses && h.testers == f.testers;
  }

  lemma UnderBoxShows(nodes: seq<Node>, f: Figure, g: Figure, lo: int, hi: int, depth: nat,
                      a: set<string>, b: set<string>, own: string, node: Node)
    requires Shows(nodes, f, a, b, own, []) && a <= b && own in a
    requires OwnBox(g, node, lo, hi, depth) && node.linkId == Some(own)
    ensures Shows(nodes, Join(f, g), a, b, own, [node])
  {
    forall id ensures ShowsLink(nodes, g, b, b, id, own, [node]) {
      assert g.ecus[1..] == [];
    }
    ShowsBoth(nodes, f, g, a, b, b, own, [], [node]);
    assert [] + [node] == [node];
  }

  /** The bus line and, on an entry point, the tester over it. */
  ghost predicate OwnBus(g: Figure, link: Link, lo: int, hi: int, depth: nat) {
    && g.ecus == []
    && |g.buses| == 1 && g.buses[0] == PlacedBus(link, lo, hi, BusY(depth))
    && g.testers == (if link.isEntryPoint then [TesterOver(hi, depth)] else [])
    && Fits(g, lo, hi, depth)
    && AllHeld(g, depth)
  }

  lemma OwnTesterStands(links: seq<Link>, g: Figure, link: Link, lo: int, hi: int, depth: nat)
    requires OwnBus(g, link, lo, hi, depth)
    ensures TestersStand(g) && Stroked(links, g)
  {
    assert g.buses[..0] == [];
  }

  lemma PlacedOnBus(links: seq<Link>, nodes: seq<Node>, f: Figure, g: Figure, lo: int, mid: int, hi: int, depth: nat,
                    a: set<string>, b: set<string>, link: Link)
    requires link in links && link.id !in a
    requires Placed(links, nodes, f, lo, mid, depth, a + {link.id}, b, link.id, OnBus(nodes, link.id)) && mid <= hi
    requires forall x :: Leads(links, nodes, link.id, x) ==> x in b
    requires BusesBelow(f, depth) && OwnBus(g, link, lo, hi, depth)
    ensures Placed(links, nodes, Join(f, g), lo, hi, depth, a, b, link.id, [])
    ensures link.id in b
  {
    FitsWider(f, lo, mid, depth, lo, hi, depth);
    FitsBoth(f, g, lo, hi, depth);
    AllHeldBoth(f, g, depth);
    ApartBoth(f, g);
    OwnTesterStands(links, g, link, lo, hi, depth);
    TestersStandBoth(f, g);
    StrokedBoth(links, f, g);
    GrewByEntering(links, nodes, link.id, a, b);
    OnBusShows(nodes, f, g, lo, hi, depth, a, b, link);
  }

  lemma OnBusShows(nodes: seq<Node>, f: Figure, g: Figure, lo: int, hi: int, depth: nat, a: set<string>, b: set<string>, link: Link)
    requires Shows(nodes, f, a + {link.id}, b, link.id, OnBus(nodes, link.id)) && a + {link.id} <= b && link.id !in a
    requires OwnBus(g, link, lo, hi, depth)
    ensures Shows(nodes, Join(f, g), a, b, link.id, [])
  {
    hide NodesOn, OnBus, Fits, AllHeld;
    forall id ensures ShowsLink(nodes, Join(f, g), a, b, id, link.id, []) {
      assert ShowsLink(nodes, f, a + {link.id}, b, id, link.id, OnBus(nodes, link.id));
      NodesOnNone(id);
      NodesOnJoin(f.ecus, g.ecus, id);
      BusLinesJoin(f.buses, g.buses, id);
      assert g.buses[1..] == [];
    }
  }

  // ---------------------------------------------------------------- the whole drawing

  /** How many of these roots reach a link: each of them draws it afresh. */
  ghost function RootsReaching(links: seq<Link>, nodes: seq<Node>, roots: seq<Link>, id: string): nat {
    if roots == [] then 0
    else
      var last := roots[|roots| - 1];
      RootsReaching(links, nodes, roots[..|roots| - 1], id) + (if Reaches(links, nodes, last.id, id) then 1 else 0)
  }

  function Repeated<T>(s: seq<T>, times: nat): seq<T> {
    if times == 0 then [] else Repeated(s, times - 1) + s
  }

  /**
   * Every link is drawn once per root that reaches it, each time with exactly its ECUs, in order; every
   * entry point drawn has its tester and every box its strokes.
   */
  ghost predicate Complete(links: seq<Link>, nodes: seq<Node>, f: Figure, roots: seq<Link>) {
    && TestersStand(f) && Stroked(links, f)
    && forall id :: CompleteFor(links, nodes, f, roots, id)
  }

  ghost predicate CompleteFor(links: seq<Link>, nodes: seq<Node>, f: Figure, roots: seq<Link>, id: string) {
    var times := RootsReaching(links, nodes, roots, id);
    BusLines(f.buses, id) == times && NodesOn(f.ecus, id) == Repeated(OnBus(nodes, id), times)
  }

  lemma CompleteWithRoot(links: seq<Link>, nodes: seq<Node>, f: Figure, roots: seq<Link>, k: nat, g: Figure, visited: set<string>)
    requires k < |roots| && Complete(links, nodes, f, roots[..k]) && TestersStand(g) && Stroked(links, g)
    requires Shows(nodes, g, {}, visited, roots[k].id, []) && Grew(links, nodes, roots[k].id, {}, visited) && roots[k].id in visited
    ensures Complete(links, nodes, Join(f, g), roots[..k + 1])
  {
    hide TestersStand, Stroked, Reaches, CompleteFor, ShowsLink, Grew, Join;
    TestersStandBoth(f, g);
    StrokedBoth(links, f, g);
    WalkVisitsReachable(links, nodes, roots[k].id, visited);
    var both, more := Join(f, g), roots[..k + 1];
    forall id ensures CompleteFor(links, nodes, both, more, id) {
      assert ShowsLink(nodes, g, {}, visited, id, roots[k].id, []);
      OneMoreDrawing(links, nodes, f, roots, k, g, visited, id);
    }
  }

  lemma OneMoreDrawing(links: seq<Link>, nodes: seq<Node>, f: Figure, roots: seq<Link>, k: nat, g: Figure, visited: set<string>, id: string)
    requires k < |roots| && CompleteFor(links, nodes, f, roots[..k], id)
    requires ShowsLink(nodes, g, {}, visited, id, roots[k].id, [])
    requires id in visited <==> Reaches(links, nodes, roots[k].id, id)
    ensures CompleteFor(links, nodes, Join(f, g), roots[..k + 1], id)
  {
    hide Reaches, NodesOn, BusLines, OnBus;
    assert roots[..k + 1][..k] == roots[..k];
    NodesOnJoin(f.ecus, g.ecus, id);
    BusLinesJoin(f.buses, g.buses, id);
  }

  /** The lowest box, as the fold over the boxes computes it. */
  function MaxY(boxes: seq<PlacedEcu>): (m: int)
    ensures m >= 0 && forall k :: 0 <= k < |boxes| ==> boxes[k].y <= m
    ensures m == 0 || exists k :: 0 <= k < |boxes| && boxes[k].y == m
  {
    if boxes == [] then 0
    else
      var last := boxes[|boxes| - 1].y;
      var m := MaxY(boxes[..|boxes| - 1]);
      if last > m then last else m
  }

  /** Every box, line, segment and tester lies on the canvas. */
  ghost predicate OnCanvas(f: Figure, width: int, height: int) {
    && (forall k :: 0 <= k < |f.ecus| ==> 0 <= f.ecus[k].x && f.ecus[k].x + ECU_WIDTH <= width
                                          && 0 <= f.ecus[k].y && f.ecus[k].y + ECU_HEIGHT <= height)
    && (forall k :: 0 <= k < |f.buses| ==> 0 <= f.buses[k].x0 <= f.buses[k].x1 <= width && 0 <= f.buses[k].y <= height)
    && (forall k :: 0 <= k < |f.segments| ==> 0 <= f.segments[k].x0 <= width && 0 <= f.segments[k].x1 <= width
                                               && 0 <= f.segments[k].y0 <= height && 0 <= f.segments[k].y1 <= height)
    && (forall k :: 0 <= k < |f.testers| ==> 0 <= f.testers[k].x && f.testers[k].x + TESTER_WIDTH <= width
                                             && 0 <= f.testers[k].y && f.testers[k].y + TESTER_HEIGHT <= height)
  }

  lemma HeldIsOnCanvas(f: Figure, lo: int, hi: int, width: int, height: int)
    requires Fits(f, lo, hi, 0) && AllHeld(f, 0) && 0 <= lo && hi <= width
    requires height == MaxY(f.ecus) + ECU_HEIGHT + MARGIN_X + TESTER_HEIGHT
    ensures OnCanvas(f, width, height)
  {
    assert forall y :: Held(f, 0, y) ==> y <= height;
    assert forall k :: 0 <= k < |f.ecus| ==> BoxFits(f.ecus[k], lo, hi, 0);
    assert forall k :: 0 <= k < |f.buses| ==> BusFits(f.buses[k], lo, hi, 0);
    assert forall k :: 0 <= k < |f.segments| ==> SegmentFits(f.segments[k], lo, hi, 0);
    assert forall k :: 0 <= k < |f.testers| ==> TesterFits(f.testers[k], lo, hi, 0);
  }

  /** As small as it may be: 28 beyond the end of the rightmost bus and at least 320 wide, 118 below the top of the lowest box. */
  ghost predicate Snug(f: Figure, width: int, height: int) {
    && width >= 320 && (width == 320 || exists k :: 0 <= k < |f.buses| && f.buses[k].x1 + 28 == width)
    && (forall k :: 0 <= k < |f.buses| ==> f.buses[k].x1 + 28 <= width)
    && height >= 118 && (height == 118 || exists k :: 0 <= k < |f.ecus| && f.ecus[k].y + 118 == height)
    && (forall k :: 0 <= k < |f.ecus| ==> f.ecus[k].y + 118 <= height)
  }

  /** Some bus ends where the drawing does. */
  ghost predicate EndsAt(f: Figure, hi: int) {
    exists k :: 0 <= k < |f.buses| && f.buses[k].x1 == hi
  }

  lemma EndsWithNext(f: Figure, g: Figure, bus: PlacedBus)
    requires bus in g.buses
    ensures EndsAt(Join(f, g), bus.x1)
  {
    var k :| 0 <= k < |g.buses| && g.buses[k] == bus;
    assert (f.buses + g.buses)[|f.buses| + k] == bus;
  }

  lemma HeldIsSnug(f: Figure, hi: int, width: int, height: int)
    requires Fits(f, MARGIN_X, hi, 0)
    requires hi < MARGIN_X || EndsAt(f, hi)
    requires width == if hi + MARGIN_X > 320 then hi + MARGIN_X else 320
    requires height == MaxY(f.ecus) + ECU_HEIGHT + MARGIN_X + TESTER_HEIGHT
    ensures Snug(f, width, height)
  {
    assert forall k :: 0 <= k < |f.buses| ==> BusFits(f.buses[k], MARGIN_X, hi, 0);
  }
}
