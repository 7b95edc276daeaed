/** That a drawing keeps the order of the lists it is made from: boxes on a bus, buses of the roots, buses below a box. */
module Orders {
  import opened Basics
  import opened Layout
  import opened Plans

  // ---------------------------------------------------------------- what a reader sees

  /** The box stands right below the bus line and within its ends. */
  ghost predicate HangsOn(box: PlacedEcu, bus: PlacedBus) {
    box.y == bus.y + STEM_ABOVE && bus.x0 <= box.x && box.x + ECU_WIDTH <= bus.x1
  }

  /** Exactly where the list has ECUs on this link. */
  ghost predicate AreEcusOn(nodes: seq<Node>, id: string, places: seq<nat>) {
    && Rising(places, |nodes|)
    && forall p :: 0 <= p < |nodes| ==> (p in places <==> nodes[p].kind == "ecu" && nodes[p].linkId == Some(id))
  }

  /** One box for each of these places, each ending a gap left of the next. */
  ghost predicate StandFor(boxes: seq<PlacedEcu>, nodes: seq<Node>, places: seq<nat>) {
    && |boxes| == |places|
    && (forall k :: 0 <= k < |boxes| ==> places[k] < |nodes| && boxes[k].node == nodes[places[k]])
    && (forall j, k :: 0 <= j < k < |boxes| ==> boxes[j].x + ECU_WIDTH + ECU_GAP <= boxes[k].x)
  }

  /** The boxes hanging on a bus are one for each ECU listed on its link, left to right in list order. */
  ghost predicate ShowsItsEcus(nodes: seq<Node>, f: Figure, bus: PlacedBus) {
    exists places, boxes ::
      && AreEcusOn(nodes, bus.link.id, places) && StandFor(boxes, nodes, places)
      && forall e :: e in boxes <==> e in f.ecus && HangsOn(e, bus)
  }

  ghost predicate HangsSomewhere(f: Figure, box: PlacedEcu) {
    exists bus :: bus in f.buses && HangsOn(box, bus)
  }

  /** Every bus drawn shows the ECUs of its link in list order, no box is drawn twice and every box hangs on a bus. */
  ghost predicate BoxesInOrder(nodes: seq<Node>, f: Figure) {
    && (forall bus :: bus in f.buses ==> ShowsItsEcus(nodes, f, bus))
    && (forall box :: box in f.ecus ==> HangsSomewhere(f, box))
    && (forall i, j :: 0 <= i < j < |f.ecus| ==> f.ecus[i] != f.ecus[j])
  }

  /** Exactly where the list has roots: entry points, and links nothing reaches. */
  ghost predicate AreRoots(links: seq<Link>, places: seq<nat>) {
    && Rising(places, |links|)
    && forall p :: 0 <= p < |links| ==> (p in places <==> links[p].isEntryPoint || links[p].depth.None?)
  }

  /** One bus for each of these places, each ending two branch gaps left of the next. */
  ghost predicate StandForRoots(buses: seq<PlacedBus>, links: seq<Link>, places: seq<nat>) {
    && |buses| == |places|
    && (forall k :: 0 <= k < |buses| ==> places[k] < |links| && buses[k].link == links[places[k]])
    && (forall j, k :: 0 <= j < k < |buses| ==> buses[j].x1 + 2 * BRANCH_GAP <= buses[k].x0)
  }

  /** The buses of the top row are one for each root listed, left to right in list order. */
  ghost predicate RootsInOrder(links: seq<Link>, f: Figure) {
    exists places, buses ::
      && AreRoots(links, places) && StandForRoots(buses, links, places)
      && forall bus :: bus in buses <==> bus in f.buses && bus.y == MARGIN_X + TESTER_HEIGHT
  }

  // ---------------------------------------------------------------- picking from a list keeps its order

  /** What was picked stands at these places. */
  ghost predicate PickedAt<T>(all: seq<T>, picked: seq<T>, places: seq<nat>) {
    |picked| == |places| && Rising(places, |all|) && forall k :: 0 <= k < |picked| ==> picked[k] == all[places[k]]
  }

  function OneOn(places: seq<nat>): (later: seq<nat>)
    ensures |later| == |places| && forall k :: 0 <= k < |later| ==> later[k] == places[k] + 1
  {
    seq(|places|, k requires 0 <= k < |places| => places[k] + 1)
  }

  lemma OneOnHolds(places: seq<nat>, p: nat)
    ensures p in OneOn(places) <==> p > 0 && p - 1 in places
  {
    if p > 0 && p - 1 in places {
      var k :| 0 <= k < |places| && places[k] == p - 1;
      assert OneOn(places)[k] == p;
    }
  }

  lemma PickedLater<T>(all: seq<T>, rest: seq<T>, places: seq<nat>)
    requires all != [] && PickedAt(all[1..], rest, places)
    ensures PickedAt(all, rest, OneOn(places))
  {
    forall k | 0 <= k < |rest| ensures rest[k] == all[OneOn(places)[k]] {
      assert rest[k] == all[1..][places[k]];
    }
  }

  lemma PickedFirst<T>(all: seq<T>, rest: seq<T>, later: seq<nat>)
    requires all != [] && PickedAt(all, rest, later) && 0 !in later
    ensures PickedAt(all, [all[0]] + rest, [0] + later)
  {
    var places := [0] + later;
    forall j, k | 0 <= j < k < |places| ensures places[j] < places[k] {
      assert places[k] == later[k - 1];
      if j > 0 { assert places[j] == later[j - 1]; }
    }
  }

  /** Going through the rest of a list, with its head picked or not. */
  lemma PickedOneMore<T>(all: seq<T>, rest: seq<T>, places: seq<nat>, isPicked: bool) returns (more: seq<nat>)
    requires all != [] && PickedAt(all[1..], rest, places)
    ensures PickedAt(all, (if isPicked then [all[0]] else []) + rest, more)
    ensures forall p :: 0 <= p < |all| ==> (p in more <==> if p == 0 then isPicked else p - 1 in places)
  {
    hide PickedAt, OneOn;
    PickedLater(all, rest, places);
    forall p: nat ensures p in OneOn(places) <==> p > 0 && p - 1 in places { OneOnHolds(places, p); }
    more := OneOn(places);
    if isPicked {
      PickedFirst(all, rest, more);
      more := [0] + more;
    } else {
      assert [] + rest == rest;
    }
  }

  lemma {:induction false} OnBusPlaces(nodes: seq<Node>, id: string) returns (places: seq<nat>)
    ensures PickedAt(nodes, OnBus(nodes, id), places)
    ensures forall p :: 0 <= p < |nodes| ==> (p in places <==> nodes[p].linkId == Some(id))
  {
    if nodes == [] {
      places := [];
    } else {
      OnBusStep(nodes, id);
      hide OnBus, PickedAt;
      var rest := OnBusPlaces(nodes[1..], id);
      places := PickedOneMore(nodes, OnBus(nodes[1..], id), rest, nodes[0].linkId == Some(id));
      assert forall p :: 0 < p < |nodes| ==> nodes[p] == nodes[1..][p - 1];
    }
  }

  lemma OnBusStep(nodes: seq<Node>, id: string)
    requires nodes != []
    ensures OnBus(nodes, id) == (if nodes[0].linkId == Some(id) then [nodes[0]] else []) + OnBus(nodes[1..], id)
  {
  }

  lemma {:induction false} EcuPlaces(nodes: seq<Node>) returns (places: seq<nat>)
    ensures PickedAt(nodes, EcuNodes(nodes), places)
    ensures forall p :: 0 <= p < |nodes| ==> (p in places <==> nodes[p].kind == "ecu")
  {
    if nodes == [] {
      places := [];
    } else {
      EcuStep(nodes);
      hide EcuNodes, PickedAt;
      var rest := EcuPlaces(nodes[1..]);
      places := PickedOneMore(nodes, EcuNodes(nodes[1..]), rest, nodes[0].kind == "ecu");
      assert forall p :: 0 < p < |nodes| ==> nodes[p] == nodes[1..][p - 1];
    }
  }

  lemma EcuStep(nodes: seq<Node>)
    requires nodes != []
    ensures EcuNodes(nodes) == (if nodes[0].kind == "ecu" then [nodes[0]] else []) + EcuNodes(nodes[1..])
  {
  }

  lemma {:induction false} RootPlaces(links: seq<Link>) returns (places: seq<nat>)
    ensures PickedAt(links, Roots(links), places)
    ensures forall p :: 0 <= p < |links| ==> (p in places <==> links[p].isEntryPoint || links[p].depth.None?)
  {
    if links == [] {
      places := [];
    } else {
      RootStep(links);
      hide Roots, PickedAt;
      var rest := RootPlaces(links[1..]);
      places := PickedOneMore(links, Roots(links[1..]), rest, links[0].isEntryPoint || links[0].depth.None?);
      assert forall p :: 0 < p < |links| ==> links[p] == links[1..][p - 1];
    }
  }

  lemma RootStep(links: seq<Link>)
    requires links != []
    ensures Roots(links) == (if links[0].isEntryPoint || links[0].depth.None? then [links[0]] else []) + Roots(links[1..])
  {
  }

  lemma {:induction false} SubLinkPlaces(links: seq<Link>, node: Node) returns (places: seq<nat>)
    ensures PickedAt(links, SubLinks(links, node), places)
    ensures forall p :: 0 <= p < |links| ==> (p in places <==> links[p].id in node.gatewayForLinkIds)
  {
    if links == [] {
      places := [];
    } else {
      SubLinkStep(links, node);
      hide SubLinks, PickedAt;
      var rest := SubLinkPlaces(links[1..], node);
      places := PickedOneMore(links, SubLinks(links[1..], node), rest, links[0].id in node.gatewayForLinkIds);
      assert forall p :: 0 < p < |links| ==> links[p] == links[1..][p - 1];
    }
  }

  lemma SubLinkStep(links: seq<Link>, node: Node)
    requires links != []
    ensures SubLinks(links, node) == (if links[0].id in node.gatewayForLinkIds then [links[0]] else []) + SubLinks(links[1..], node)
  {
  }

  /** Picking twice is picking once. */
  lemma PickedTwice<T>(all: seq<T>, some: seq<T>, few: seq<T>, outer: seq<nat>, inner: seq<nat>) returns (places: seq<nat>)
    requires PickedAt(all, some, outer) && PickedAt(some, few, inner)
    ensures PickedAt(all, few, places)
    ensures forall k :: 0 <= k < |inner| ==> inner[k] < |outer|
    ensures forall p :: p in places <==> exists k :: 0 <= k < |inner| && outer[inner[k]] == p
  {
    places := seq(|inner|, k requires 0 <= k < |inner| => outer[inner[k]]);
  }

  /** The ECUs on a link, by their places in the whole list. */
  lemma EcusOnPlaces(nodes: seq<Node>, id: string) returns (places: seq<nat>)
    ensures AreEcusOn(nodes, id, places) && PickedAt(nodes, OnBus(EcuNodes(nodes), id), places)
  {
    hide OnBus, EcuNodes, PickedAt;
    var ecus := EcuNodes(nodes);
    var outer := EcuPlaces(nodes);
    var inner := OnBusPlaces(ecus, id);
    places := PickedTwice(nodes, ecus, OnBus(ecus, id), outer, inner);
    PickedParts(nodes, ecus, outer);
    PickedParts(ecus, OnBus(ecus, id), inner);
    PickedParts(nodes, OnBus(ecus, id), places);
    forall p | 0 <= p < |nodes| ensures p in places <==> nodes[p].kind == "ecu" && nodes[p].linkId == Some(id) {
      EcuOnPlace(nodes, ecus, id, outer, inner, p);
    }
  }

  lemma EcuOnPlace(nodes: seq<Node>, ecus: seq<Node>, id: string, outer: seq<nat>, inner: seq<nat>, p: nat)
    requires p < |nodes| && |outer| == |ecus| && (p in outer <==> nodes[p].kind == "ecu")
    requires forall j :: 0 <= j < |ecus| ==> outer[j] < |nodes| && ecus[j] == nodes[outer[j]]
    requires forall k :: 0 <= k < |inner| ==> inner[k] < |outer|
    requires forall j :: 0 <= j < |ecus| ==> (j in inner <==> ecus[j].linkId == Some(id))
    ensures (exists k :: 0 <= k < |inner| && outer[inner[k]] == p) <==> nodes[p].kind == "ecu" && nodes[p].linkId == Some(id)
  {
    forall k | 0 <= k < |inner| && outer[inner[k]] == p ensures p in outer && nodes[p].linkId == Some(id) {
      assert inner[k] in inner;
    }
    if p in outer && nodes[p].linkId == Some(id) {
      var j :| 0 <= j < |outer| && outer[j] == p;
      var k :| 0 <= k < |inner| && inner[k] == j;
    }
  }

  lemma PickedParts<T>(all: seq<T>, picked: seq<T>, places: seq<nat>)
    requires PickedAt(all, picked, places)
    ensures |picked| == |places| && Rising(places, |all|) && forall k :: 0 <= k < |picked| ==> picked[k] == all[places[k]]
  {
  }

  // ---------------------------------------------------------------- the boxes of one bus

  function NodesIn(row: Row): seq<Node> {
    match row
    case NoBoxes => []
    case Boxes(left, node, _) => NodesIn(left) + [node]
  }

  /** The boxes drawn on the bus itself, not counting those beneath. */
  function OwnBoxes(row: Row, x: int, depth: nat): seq<PlacedEcu> {
    match row
    case NoBoxes => []
    case Boxes(left, node, under) =>
      OwnBoxes(left, x, depth) + [PlacedEcu(node, x + RowRoom(left) + (SlotWidth(under) - ECU_WIDTH) / 2, EcuY(depth))]
  }

  lemma {:induction false} OwnBoxesStand(row: Row, x: int, depth: nat)
    ensures var boxes := OwnBoxes(row, x, depth);
            && |boxes| == |NodesIn(row)|
            && (forall k :: 0 <= k < |boxes| ==> boxes[k].node == NodesIn(row)[k] && boxes[k].y == EcuY(depth))
            && (forall k :: 0 <= k < |boxes| ==> x <= boxes[k].x && boxes[k].x + ECU_WIDTH + ECU_GAP <= x + RowRoom(row))
            && (forall j, k :: 0 <= j < k < |boxes| ==> boxes[j].x + ECU_WIDTH + ECU_GAP <= boxes[k].x)
    decreases row
  {
    hide SlotWidth, EcuY;
    match row
    case NoBoxes =>
    case Boxes(left, _, _) => OwnBoxesStand(left, x, depth);
  }

  /** Buses and boxes lie between `lo` and `hi`, boxes from row `row` down and buses from row `busRow` down. */
  ghost predicate Lies(f: Figure, lo: int, hi: int, row: nat, busRow: nat) {
    && (forall e :: e in f.ecus ==> BoxFits(e, lo, hi, row))
    && (forall b :: b in f.buses ==> BusFits(b, lo, hi, busRow))
  }

  lemma LiesBoth(f: Figure, g: Figure, lo: int, mid: int, next: int, hi: int, row: nat, busRow: nat)
    requires Lies(f, lo, mid, row, busRow) && Lies(g, next, hi, row, busRow) && mid <= hi && lo <= next
    ensures Lies(Join(f, g), lo, hi, row, busRow)
  {
  }

  lemma LiesHigher(f: Figure, lo: int, hi: int, row: nat, busRow: nat, hi': int, row': nat, busRow': nat)
    requires Lies(f, lo, hi, row, busRow) && row' <= row && busRow' <= busRow && hi <= hi'
    ensures Lies(f, lo, hi', row', busRow')
  {
    assert BusY(row') <= BusY(row) && BusY(busRow') <= BusY(busRow);
  }

  lemma NothingLies(lo: int, hi: int, row: nat, busRow: nat)
    ensures Lies(BLANK, lo, hi, row, busRow)
  {
  }

  lemma {:induction false} RowLies(row: Row, x: int, depth: nat)
    ensures Lies(PaintRow(row, x, depth), x, x + RowRoom(row) - ECU_GAP, depth, depth + 1)
    decreases row, 0
  {
    hide Lies, Join, PaintBox;
    match row
    case NoBoxes => NothingLies(x, x - ECU_GAP, depth, depth + 1);
    case Boxes(left, node, under) =>
      var next := x + RowRoom(left);
      RowLies(left, x, depth);
      BoxLies(node, under, next, depth);
      LiesBoth(PaintRow(left, x, depth), PaintBox(node, under, next, depth), x, next - ECU_GAP, next, x + RowRoom(row) - ECU_GAP,
               depth, depth + 1);
  }

  lemma BoxLies(node: Node, under: Forest, x: int, depth: nat)
    ensures Lies(PaintBox(node, under, x, depth), x, x + SlotWidth(under), depth, depth + 1)
    decreases under, 1
  {
    hide Lies, Join, PaintForest, Strokes, Spans, BoxFigure;
    var f, g := PaintForest(under, BRANCH_GAP, x, depth + 1), BoxFigure(node, x, SlotWidth(under), Spans(under, x), depth);
    ForestLies(under, BRANCH_GAP, x, depth + 1);
    LiesHigher(f, x, x + Room(under, BRANCH_GAP) - BRANCH_GAP, depth + 1, depth + 1, x + SlotWidth(under), depth, depth + 1);
    BoxFigureLies(node, x, SlotWidth(under), Spans(under, x), depth);
    LiesBoth(f, g, x, x + SlotWidth(under), x, x + SlotWidth(under), depth, depth + 1);
  }

  lemma BoxFigureLies(node: Node, x: int, width: nat, spans: seq<Span>, depth: nat)
    requires ECU_WIDTH <= width
    ensures Lies(BoxFigure(node, x, width, spans, depth), x, x + width, depth, depth + 1)
  {
    hide Strokes;
  }

  lemma {:induction false} ForestLies(forest: Forest, gap: nat, x: int, depth: nat)
    ensures Lies(PaintForest(forest, gap, x, depth), x, x + Room(forest, gap) - gap, depth, depth)
    decreases forest, 0
  {
    hide Lies, Join, PaintTree, BusWidth;
    match forest
    case NoTrees => NothingLies(x, x - gap, depth, depth);
    case Trees(left, link, row) =>
      var next := x + Room(left, gap);
      ForestLies(left, gap, x, depth);
      TreeLies(link, row, next, depth);
      LiesBoth(PaintForest(left, gap, x, depth), PaintTree(link, row, next, depth), x, next - gap, next, next + BusWidth(row), depth, depth);
  }

  lemma TreeLies(link: Link, row: Row, x: int, depth: nat)
    ensures Lies(PaintTree(link, row, x, depth), x, x + BusWidth(row), depth, depth)
    decreases row, 1
  {
    hide Lies, Join, PaintRow, BusFigure;
    RowLies(row, x, depth);
    LiesHigher(PaintRow(row, x, depth), x, x + RowRoom(row) - ECU_GAP, depth, depth + 1, x + BusWidth(row), depth, depth);
    BusFigureLies(link, x, BusWidth(row), depth);
    LiesBoth(PaintRow(row, x, depth), BusFigure(link, x, BusWidth(row), depth), x, x + BusWidth(row), x, x + BusWidth(row), depth, depth);
  }

  lemma BusFigureLies(link: Link, x: int, width: nat, depth: nat)
    ensures Lies(BusFigure(link, x, width, depth), x, x + width, depth, depth)
  {
  }

  // ---------------------------------------------------------------- every bus shows its ECUs

  /** These trees have on each bus the ECUs of its link, as listed. */
  ghost predicate HoldsListed(nodes: seq<Node>, forest: Forest)
    decreases forest
  {
    match forest
    case NoTrees => true
    case Trees(left, link, row) =>
      HoldsListed(nodes, left) && NodesIn(row) == OnBus(EcuNodes(nodes), link.id) && RowHoldsListed(nodes, row)
  }

  ghost predicate RowHoldsListed(nodes: seq<Node>, row: Row)
    decreases row
  {
    match row
    case NoBoxes => true
    case Boxes(left, _, under) => RowHoldsListed(nodes, left) && HoldsListed(nodes, under)
  }

  /** Every bus drawn shows its ECUs and every box hangs on a bus. */
  ghost predicate Shown(nodes: seq<Node>, f: Figure) {
    && (forall bus :: bus in f.buses ==> ShowsItsEcus(nodes, f, bus))
    && (forall box :: box in f.ecus ==> HangsSomewhere(f, box))
  }

  /** As `Shown`, but for these boxes, which still lack their bus. */
  ghost predicate ShownBut(nodes: seq<Node>, f: Figure, own: seq<PlacedEcu>, depth: nat) {
    && (forall bus :: bus in f.buses ==> ShowsItsEcus(nodes, f, bus))
    && (forall box :: box in f.ecus ==> box in own || (HangsSomewhere(f, box) && EcuY(depth + 1) <= box.y))
    && (forall box :: box in own ==> box in f.ecus)
  }

  lemma StillShows(nodes: seq<Node>, f: Figure, h: Figure, bus: PlacedBus)
    requires ShowsItsEcus(nodes, f, bus) && forall e :: HangsOn(e, bus) ==> (e in h.ecus <==> e in f.ecus)
    ensures ShowsItsEcus(nodes, h, bus)
  {
    hide AreEcusOn, StandFor, HangsOn;
    var places, boxes :| AreEcusOn(nodes, bus.link.id, places) && StandFor(boxes, nodes, places)
                         && forall e :: e in boxes <==> e in f.ecus && HangsOn(e, bus);
    assert forall e :: e in boxes <==> e in h.ecus && HangsOn(e, bus);
  }

  /** Nothing of either figure hangs on a bus of the other. */
  ghost predicate KeptFrom(f: Figure, g: Figure) {
    forall bus, e :: bus in f.buses && e in g.ecus ==> !HangsOn(e, bus)
  }

  lemma BusesStillShow(nodes: seq<Node>, f: Figure, g: Figure)
    requires forall bus :: bus in f.buses ==> ShowsItsEcus(nodes, f, bus)
    requires forall bus :: bus in g.buses ==> ShowsItsEcus(nodes, g, bus)
    requires KeptFrom(f, g) && KeptFrom(g, f)
    ensures forall bus :: bus in Join(f, g).buses ==> ShowsItsEcus(nodes, Join(f, g), bus)
  {
    hide HangsOn, ShowsItsEcus;
    forall bus | bus in Join(f, g).buses ensures ShowsItsEcus(nodes, Join(f, g), bus) {
      if bus in f.buses {
        StillShows(nodes, f, Join(f, g), bus);
      } else {
        StillShows(nodes, g, Join(f, g), bus);
      }
    }
  }

  lemma StillHangs(f: Figure, g: Figure)
    ensures forall box :: HangsSomewhere(f, box) || HangsSomewhere(g, box) ==> HangsSomewhere(Join(f, g), box)
  {
    hide HangsOn;
  }

  lemma BesideKeepsApart(f: Figure, g: Figure, lo: int, mid: int, next: int, hi: int, row: nat, busRow: nat)
    requires Lies(f, lo, mid, row, busRow) && Lies(g, next, hi, row, busRow) && mid <= next
    ensures KeptFrom(f, g) && KeptFrom(g, f)
  {
  }

  lemma {:induction false} RowShows(nodes: seq<Node>, row: Row, x: int, depth: nat)
    requires RowHoldsListed(nodes, row)
    ensures ShownBut(nodes, PaintRow(row, x, depth), OwnBoxes(row, x, depth), depth)
    decreases row, 0
  {
    hide ShowsItsEcus, PaintBox, SlotWidth, EcuY, HangsSomewhere, Lies, HoldsListed, Join;
    match row
    case NoBoxes => NothingShown(nodes, depth);
    case Boxes(left, node, under) =>
      var next := x + RowRoom(left);
      var box := PlacedEcu(node, next + (SlotWidth(under) - ECU_WIDTH) / 2, EcuY(depth));
      RowShows(nodes, left, x, depth);
      BoxShows(nodes, node, under, next, depth);
      RowLies(left, x, depth);
      BoxLies(node, under, next, depth);
      ShownButBeside(nodes, PaintRow(left, x, depth), PaintBox(node, under, next, depth), x, next - ECU_GAP, next, next + SlotWidth(under),
                     OwnBoxes(left, x, depth), [box], depth);
  }

  lemma NothingShown(nodes: seq<Node>, depth: nat)
    ensures ShownBut(nodes, BLANK, [], depth) && Shown(nodes, BLANK)
  {
  }

  lemma ShownButBeside(nodes: seq<Node>, f: Figure, g: Figure, lo: int, mid: int, next: int, hi: int,
                       own: seq<PlacedEcu>, more: seq<PlacedEcu>, depth: nat)
    requires ShownBut(nodes, f, own, depth) && ShownBut(nodes, g, more, depth)
    requires Lies(f, lo, mid, depth, depth + 1) && Lies(g, next, hi, depth, depth + 1) && mid <= next
    ensures ShownBut(nodes, Join(f, g), own + more, depth)
  {
    BesideKeepsApart(f, g, lo, mid, next, hi, depth, depth + 1);
    hide Lies, ShowsItsEcus, HangsSomewhere, KeptFrom, EcuY;
    BusesStillShow(nodes, f, g);
    StillHangs(f, g);
  }

  /** A box and what hangs beneath it: the box itself still lacks its bus. */
  lemma BoxShows(nodes: seq<Node>, node: Node, under: Forest, x: int, depth: nat)
    requires HoldsListed(nodes, under)
    ensures var box := PlacedEcu(node, x + (SlotWidth(under) - ECU_WIDTH) / 2, EcuY(depth));
            ShownBut(nodes, PaintBox(node, under, x, depth), [box], depth)
    decreases under, 2
  {
    hide ShowsItsEcus, PaintForest, SlotWidth, HangsSomewhere, Strokes, Spans, HoldsListed;
    var f, g := PaintForest(under, BRANCH_GAP, x, depth + 1), BoxFigure(node, x, SlotWidth(under), Spans(under, x), depth);
    ForestShows(nodes, under, BRANCH_GAP, x, depth + 1);
    ForestLies(under, BRANCH_GAP, x, depth + 1);
    BoxHangsOnNothingBelow(f, g, x, x + Room(under, BRANCH_GAP) - BRANCH_GAP, depth);
    BusesStillShow(nodes, f, g);
    StillHangs(f, g);
  }

  lemma BoxHangsOnNothingBelow(f: Figure, g: Figure, lo: int, hi: int, depth: nat)
    requires Lies(f, lo, hi, depth + 1, depth + 1)
    requires g.buses == [] && forall e :: e in g.ecus ==> e.y == EcuY(depth)
    ensures KeptFrom(f, g) && KeptFrom(g, f)
    ensures forall e :: e in f.ecus ==> EcuY(depth + 1) <= e.y
  {
  }

  lemma {:induction false} ForestShows(nodes: seq<Node>, forest: Forest, gap: nat, x: int, depth: nat)
    requires HoldsListed(nodes, forest)
    ensures Shown(nodes, PaintForest(forest, gap, x, depth))
    decreases forest, 1
  {
    hide Shown, PaintTree, BusWidth, Lies, NodesIn, OnBus, EcuNodes, RowHoldsListed, Join;
    match forest
    case NoTrees => NothingShown(nodes, depth);
    case Trees(left, link, row) =>
      var next := x + Room(left, gap);
      ForestShows(nodes, left, gap, x, depth);
      TreeShows(nodes, link, row, next, depth);
      ForestLies(left, gap, x, depth);
      TreeLies(link, row, next, depth);
      ShownBeside(nodes, PaintForest(left, gap, x, depth), PaintTree(link, row, next, depth), x, next - gap, next, next + BusWidth(row), depth);
  }

  lemma ShownBeside(nodes: seq<Node>, f: Figure, g: Figure, lo: int, mid: int, next: int, hi: int, depth: nat)
    requires Shown(nodes, f) && Shown(nodes, g)
    requires Lies(f, lo, mid, depth, depth) && Lies(g, next, hi, depth, depth) && mid <= next
    ensures Shown(nodes, Join(f, g))
  {
    BesideKeepsApart(f, g, lo, mid, next, hi, depth, depth);
    hide Lies, ShowsItsEcus, HangsSomewhere, KeptFrom;
    BusesStillShow(nodes, f, g);
    StillHangs(f, g);
  }

  /** The bus drawn last is the one the row's own boxes hang on. */
  lemma TreeShows(nodes: seq<Node>, link: Link, row: Row, x: int, depth: nat)
    requires RowHoldsListed(nodes, row) && NodesIn(row) == OnBus(EcuNodes(nodes), link.id)
    ensures Shown(nodes, PaintTree(link, row, x, depth))
    decreases row, 2
  {
    hide PaintRow, OnBus, EcuNodes, RowHoldsListed, OwnBoxes, BusFigure, ShownBut, Shown;
    var f, g := PaintRow(row, x, depth), BusFigure(link, x, BusWidth(row), depth);
    var own := OwnBoxes(row, x, depth);
    RowShows(nodes, row, x, depth);
    RowLies(row, x, depth);
    OwnBoxesStand(row, x, depth);
    var places := EcusOnPlaces(nodes, link.id);
    PickedParts(nodes, NodesIn(row), places);
    BusFigureParts(link, x, BusWidth(row), depth);
    ClosingShows(nodes, f, g, x, x + RowRoom(row) - ECU_GAP, x + BusWidth(row), depth, link, own, places);
  }

  lemma BusFigureParts(link: Link, x: int, width: nat, depth: nat)
    ensures BusFigure(link, x, width, depth).ecus == []
    ensures BusFigure(link, x, width, depth).buses == [PlacedBus(link, x, x + width, BusY(depth))]
  {
  }

  lemma ClosingShows(nodes: seq<Node>, f: Figure, g: Figure, lo: int, mid: int, hi: int, depth: nat,
                     link: Link, own: seq<PlacedEcu>, places: seq<nat>)
    requires ShownBut(nodes, f, own, depth) && Lies(f, lo, mid, depth, depth + 1) && mid <= hi
    requires g.ecus == [] && g.buses == [PlacedBus(link, lo, hi, BusY(depth))]
    requires AreEcusOn(nodes, link.id, places) && StandFor(own, nodes, places)
    requires forall e :: e in own ==> e.y == EcuY(depth)
    ensures Shown(nodes, Join(f, g))
  {
    var h, bus := Join(f, g), PlacedBus(link, lo, hi, BusY(depth));
    assert h.ecus == f.ecus;
    forall e ensures e in own <==> e in h.ecus && HangsOn(e, bus) {
      if e in f.ecus { assert BoxFits(e, lo, mid, depth); }
    }
    hide AreEcusOn, StandFor, Lies;
    assert ShowsItsEcus(nodes, h, bus);
    assert bus in h.buses;
    forall b | b in h.buses ensures ShowsItsEcus(nodes, h, b) {
      if b in f.buses { StillShows(nodes, f, h, b); }
    }
    forall box | box in h.ecus ensures HangsSomewhere(h, box) {
      StillHangs(f, g);
    }
  }

  // ---------------------------------------------------------------- the plan holds what is listed

  lemma {:induction false} RowIsListed(links: seq<Link>, nodes: seq<Node>, boxes: seq<Node>, visited: set<string>)
    ensures var row := RowOf(links, EcuNodes(nodes), boxes, visited).0; NodesIn(row) == boxes && RowHoldsListed(nodes, row)
    decreases |LinkIds(links) - visited|, 2, |boxes|
  {
    hide LinkIds, UnderOf, SubLinks, EcuNodes, HoldsListed;
    if boxes != [] {
      var last := boxes[|boxes| - 1];
      var entered := RowOf(links, EcuNodes(nodes), boxes[..|boxes| - 1], visited).1;
      RowIsListed(links, nodes, boxes[..|boxes| - 1], visited);
      FewerLeft(links, visited, entered);
      UnderIsListed(links, nodes, SubLinks(links, last), entered);
      assert boxes == boxes[..|boxes| - 1] + [last];
    }
  }

  lemma {:induction false} UnderIsListed(links: seq<Link>, nodes: seq<Node>, subs: seq<Link>, visited: set<string>)
    requires forall k :: 0 <= k < |subs| ==> subs[k] in links
    ensures HoldsListed(nodes, UnderOf(links, EcuNodes(nodes), subs, visited).0)
    decreases |LinkIds(links) - visited|, 1, |subs|
  {
    hide LinkIds, RowOf, OnBus, EcuNodes, RowHoldsListed, NodesIn;
    if subs != [] {
      var last := subs[|subs| - 1];
      var entered := UnderOf(links, EcuNodes(nodes), subs[..|subs| - 1], visited).1;
      UnderIsListed(links, nodes, subs[..|subs| - 1], visited);
      if last.id !in entered {
        FewerLeft(links, visited, entered);
        EnteringShrinks(links, last, entered);
        RowIsListed(links, nodes, OnBus(EcuNodes(nodes), last.id), entered + {last.id});
      }
    }
  }

  lemma {:induction false} RootsAreListed(links: seq<Link>, nodes: seq<Node>, roots: seq<Link>)
    ensures HoldsListed(nodes, RootedAt(links, EcuNodes(nodes), roots))
  {
    hide RowOf, OnBus, EcuNodes, RowHoldsListed, NodesIn;
    if roots != [] {
      var last := roots[|roots| - 1];
      RootsAreListed(links, nodes, roots[..|roots| - 1]);
      RowIsListed(links, nodes, OnBus(EcuNodes(nodes), last.id), {} + {last.id});
    }
  }

  /** Boxes kept apart are all different. */
  lemma ApartIsDifferent(f: Figure)
    requires Apart(f)
    ensures forall i, j :: 0 <= i < j < |f.ecus| ==> f.ecus[i] != f.ecus[j]
  {
    forall i, j | 0 <= i < j < |f.ecus| ensures f.ecus[i] != f.ecus[j] {
      assert BoxesApart(f.ecus[i], f.ecus[j]);
    }
  }

  /** What is drawn of a plan keeps the order the ECUs are listed in. */
  lemma PlanKeepsEcuOrder(links: seq<Link>, nodes: seq<Node>, f: Figure)
    requires f == PaintForest(PlanOf(links, EcuNodes(nodes)), 2 * BRANCH_GAP, MARGIN_X, 0) && Apart(f)
    ensures BoxesInOrder(nodes, f)
  {
    hide PaintForest, RootedAt, ShowsItsEcus, HangsSomewhere, Apart, HoldsListed, EcuNodes, Roots;
    RootsAreListed(links, nodes, Roots(links));
    ForestShows(nodes, PlanOf(links, EcuNodes(nodes)), 2 * BRANCH_GAP, MARGIN_X, 0);
    ApartIsDifferent(f);
  }

  // ---------------------------------------------------------------- the roots, left to right

  function LinksIn(forest: Forest): seq<Link> {
    match forest
    case NoTrees => []
    case Trees(left, link, _) => LinksIn(left) + [link]
  }

  /** The buses of the trees themselves. */
  function OwnBuses(forest: Forest, gap: nat, x: int, depth: nat): seq<PlacedBus> {
    match forest
    case NoTrees => []
    case Trees(left, link, row) =>
      var next := x + Room(left, gap);
      OwnBuses(left, gap, x, depth) + [PlacedBus(link, next, next + BusWidth(row), BusY(depth))]
  }

  lemma {:induction false} OwnBusesStand(forest: Forest, gap: nat, x: int, depth: nat)
    ensures var buses := OwnBuses(forest, gap, x, depth);
            && |buses| == |LinksIn(forest)|
            && (forall k :: 0 <= k < |buses| ==> buses[k].link == LinksIn(forest)[k] && buses[k].x1 + gap <= x + Room(forest, gap))
            && (forall j, k :: 0 <= j < k < |buses| ==> buses[j].x1 + gap <= buses[k].x0)
    decreases forest
  {
    hide BusWidth, BusY;
    match forest
    case NoTrees =>
    case Trees(left, _, _) => OwnBusesStand(left, gap, x, depth);
  }

  /** They are exactly the buses drawn in the top row of these trees. */
  lemma {:induction false} OwnBusesAreTop(forest: Forest, gap: nat, x: int, depth: nat)
    ensures forall bus :: bus in OwnBuses(forest, gap, x, depth)
                          <==> bus in PaintForest(forest, gap, x, depth).buses && bus.y == BusY(depth)
    decreases forest
  {
    hide PaintRow, BusWidth, RowRoom;
    match forest
    case NoTrees =>
    case Trees(left, link, row) =>
      var next := x + Room(left, gap);
      OwnBusesAreTop(left, gap, x, depth);
      RowLies(row, next, depth);
      OnlyOwnBusIsTop(link, row, next, depth);
      hide PaintTree;
  }

  lemma OnlyOwnBusIsTop(link: Link, row: Row, x: int, depth: nat)
    ensures forall bus :: bus in PaintTree(link, row, x, depth).buses && bus.y == BusY(depth)
                          <==> bus == PlacedBus(link, x, x + BusWidth(row), BusY(depth))
  {
    hide PaintRow, BusWidth, RowRoom, BusFigure;
    RowLies(row, x, depth);
    BusFigureParts(link, x, BusWidth(row), depth);
    var own := PlacedBus(link, x, x + BusWidth(row), BusY(depth));
    assert own in PaintTree(link, row, x, depth).buses;
    forall bus | bus in PaintRow(row, x, depth).buses ensures bus.y != BusY(depth) {
      assert BusFits(bus, x, x + RowRoom(row) - ECU_GAP, depth + 1);
    }
  }

  lemma {:induction false} LinksOfRoots(links: seq<Link>, nodes: seq<Node>, roots: seq<Link>)
    ensures LinksIn(RootedAt(links, nodes, roots)) == roots
  {
    hide RootedAt, LinksIn;
    LinksOfLast(links, nodes, roots);
    if roots != [] {
      LinksOfRoots(links, nodes, roots[..|roots| - 1]);
      assert roots == roots[..|roots| - 1] + [roots[|roots| - 1]];
    }
  }

  lemma LinksOfLast(links: seq<Link>, nodes: seq<Node>, roots: seq<Link>)
    ensures LinksIn(RootedAt(links, nodes, roots)) ==
            if roots == [] then [] else LinksIn(RootedAt(links, nodes, roots[..|roots| - 1])) + [roots[|roots| - 1]]
  {
    hide TreeOf;
  }

  /** What is drawn of a plan keeps the order the roots are listed in. */
  lemma PlanKeepsRootOrder(links: seq<Link>, nodes: seq<Node>, f: Figure)
    requires f == PaintForest(PlanOf(links, nodes), 2 * BRANCH_GAP, MARGIN_X, 0)
    ensures RootsInOrder(links, f)
  {
    hide PaintForest, RootedAt, Roots, OwnBuses;
    var plan := PlanOf(links, nodes);
    var places := RootPlaces(links);
    LinksOfRoots(links, nodes, Roots(links));
    OwnBusesStand(plan, 2 * BRANCH_GAP, MARGIN_X, 0);
    OwnBusesAreTop(plan, 2 * BRANCH_GAP, MARGIN_X, 0);
    var buses := OwnBuses(plan, 2 * BRANCH_GAP, MARGIN_X, 0);
    assert AreRoots(links, places) && StandForRoots(buses, links, places);
  }
}
