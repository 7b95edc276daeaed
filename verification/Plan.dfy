/**
 * What the walk of the diagram settles before a stroke is drawn: which boxes sit side by side, which
 * sub-trees hang under each, how much room every part takes, and where that puts it.
 */
module Plans {
  import opened Basics
  import opened Layout

  /** Sub-trees side by side: each a link with the boxes on its bus. */
  datatype Forest = NoTrees | Trees(left: Forest, link: Link, row: Row)

  /** The boxes on one bus, left to right, each over the sub-trees it forwards onto. */
  datatype Row = NoBoxes | Boxes(left: Row, node: Node, under: Forest)

  // ---------------------------------------------------------------- the walk

  /** The plan of these boxes and every link entered by its end. */
  function RowOf(links: seq<Link>, nodes: seq<Node>, boxes: seq<Node>, visited: set<string>): (planned: (Row, set<string>))
    ensures visited <= planned.1
    decreases |LinkIds(links) - visited|, 2, |boxes|
  {
    if boxes == [] then (NoBoxes, visited)
    else
      var last := boxes[|boxes| - 1];
      var (left, entered) := RowOf(links, nodes, boxes[..|boxes| - 1], visited);
      FewerLeft(links, visited, entered);
      var (under, after) := UnderOf(links, nodes, SubLinks(links, last), entered);
      (Boxes(left, last, under), after)
  }

  /** The plan of the sub-trees behind one box; a link entered before gets none. */
  function UnderOf(links: seq<Link>, nodes: seq<Node>, subs: seq<Link>, visited: set<string>): (planned: (Forest, set<string>))
    requires forall k :: 0 <= k < |subs| ==> subs[k] in links
    ensures visited <= planned.1
    decreases |LinkIds(links) - visited|, 1, |subs|
  {
    if subs == [] then (NoTrees, visited)
    else
      var last := subs[|subs| - 1];
      var (left, entered) := UnderOf(links, nodes, subs[..|subs| - 1], visited);
      if last.id in entered then (left, entered)
      else
        FewerLeft(links, visited, entered);
        EnteringShrinks(links, last, entered);
        var (row, after) := RowOf(links, nodes, OnBus(nodes, last.id), entered + {last.id});
        (Trees(left, last, row), after)
  }

  /** The tree of one link entered with these visited already. */
  function TreeOf(links: seq<Link>, nodes: seq<Node>, link: Link, visited: set<string>): (Row, set<string>) {
    RowOf(links, nodes, OnBus(nodes, link.id), visited + {link.id})
  }

  /** One tree per root, each from a walk of its own. */
  function RootedAt(links: seq<Link>, nodes: seq<Node>, roots: seq<Link>): Forest {
    if roots == [] then NoTrees
    else
      var last := roots[|roots| - 1];
      Trees(RootedAt(links, nodes, roots[..|roots| - 1]), last, TreeOf(links, nodes, last, {}).0)
  }

  function PlanOf(links: seq<Link>, nodes: seq<Node>): Forest {
    RootedAt(links, nodes, Roots(links))
  }

  // ---------------------------------------------------------------- room

  function Max(least: nat, n: int): nat {
    if n > least then n else least
  }

  /** How far these boxes reach, a gap after the last one included. */
  function RowRoom(row: Row): nat
    decreases row, 0
  {
    match row
    case NoBoxes => 0
    case Boxes(left, _, under) => RowRoom(left) + SlotWidth(under) + ECU_GAP
  }

  /** How far these sub-trees reach, a gap after the last one included. */
  function Room(forest: Forest, gap: nat): nat
    decreases forest, 0
  {
    match forest
    case NoTrees => 0
    case Trees(left, _, row) => Room(left, gap) + BusWidth(row) + gap
  }

  /** A box takes what its sub-trees need, and never less than its own width. */
  function SlotWidth(under: Forest): (width: nat)
    ensures width >= ECU_WIDTH
    decreases under, 1
  {
    Max(ECU_WIDTH, Room(under, BRANCH_GAP) - BRANCH_GAP)
  }

  function BusWidth(row: Row): (width: nat)
    ensures width >= ECU_WIDTH
    decreases row, 1
  {
    Max(ECU_WIDTH, RowRoom(row) - ECU_GAP)
  }

  // ---------------------------------------------------------------- the drawing planned

  function PaintRow(row: Row, x: int, depth: nat): Figure
    decreases row, 0
  {
    match row
    case NoBoxes => BLANK
    case Boxes(left, node, under) => Join(PaintRow(left, x, depth), PaintBox(node, under, x + RowRoom(left), depth))
  }

  /** A gateway's sub-trees, then its box and strokes. */
  function PaintBox(node: Node, under: Forest, x: int, depth: nat): Figure
    decreases under, 1
  {
    Join(PaintForest(under, BRANCH_GAP, x, depth + 1), BoxFigure(node, x, SlotWidth(under), Spans(under, x), depth))
  }

  function PaintForest(forest: Forest, gap: nat, x: int, depth: nat): Figure
    decreases forest, 0
  {
    match forest
    case NoTrees => BLANK
    case Trees(left, link, row) => Join(PaintForest(left, gap, x, depth), PaintTree(link, row, x + Room(left, gap), depth))
  }

  /** The boxes on one bus with all beneath them, then the bus and its tester. */
  function PaintTree(link: Link, row: Row, x: int, depth: nat): Figure
    decreases row, 1
  {
    Join(PaintRow(row, x, depth), BusFigure(link, x, BusWidth(row), depth))
  }

  /** Where the bus of each sub-tree lies. */
  function Spans(under: Forest, x: int): seq<Span> {
    match under
    case NoTrees => []
    case Trees(left, link, row) => Spans(left, x) + [Span(link, x + Room(left, BRANCH_GAP), BusWidth(row))]
  }

  function BusFigure(link: Link, x: int, width: nat, depth: nat): Figure {
    var buses := [PlacedBus(link, x, x + width, BusY(depth))];
    if link.isEntryPoint then
      var plug := x + width - TESTER_WIDTH + TESTER_WIDTH / 2;
      Figure(buses, [], [TesterOver(x + width, depth)], [Segment(plug, BusY(depth) - 4, plug, BusY(depth), false)])
    else Figure(buses, [], [], [])
  }

  function BoxFigure(node: Node, x: int, width: nat, spans: seq<Span>, depth: nat): Figure
    requires ECU_WIDTH <= width
  {
    var box := PlacedEcu(node, x + (width - ECU_WIDTH) / 2, EcuY(depth));
    Figure([], [box], [], Strokes(box, spans, depth))
  }

  /** A stem up to the bus, then an elbow down to the middle of each span. */
  function Strokes(box: PlacedEcu, spans: seq<Span>, depth: nat): seq<Segment> {
    if spans == [] then [Segment(box.x + ECU_WIDTH / 2, BusY(depth), box.x + ECU_WIDTH / 2, box.y, !box.node.isEnabled)]
    else Strokes(box, spans[..|spans| - 1], depth) + Elbow(box, spans[|spans| - 1], depth)
  }

  function Elbow(box: PlacedEcu, span: Span, depth: nat): seq<Segment> {
    var centre, bend := span.x0 + span.width / 2, box.y + ECU_HEIGHT + STEM_BELOW / 2;
    [Segment(box.x + ECU_WIDTH / 2, box.y + ECU_HEIGHT, box.x + ECU_WIDTH / 2, bend, !box.node.isEnabled),
     Segment(box.x + ECU_WIDTH / 2, bend, centre, bend, !box.node.isEnabled),
     Segment(centre, bend, centre, BusY(depth + 1), !box.node.isEnabled)]
  }

  // ---------------------------------------------------------------- one step of the drawing at a time

  /** These boxes have been drawn as planned, from `x` up to `cursor`. */
  ghost predicate RowDone(links: seq<Link>, nodes: seq<Node>, boxes: seq<Node>, before: set<string>, after: set<string>,
                          x: int, cursor: int, depth: nat, drawn: Figure) {
    var (row, entered) := RowOf(links, nodes, boxes, before);
    after == entered && cursor == x + RowRoom(row) && drawn == PaintRow(row, x, depth)
  }

  /** These sub-trees have been drawn as planned, from `x` up to `cursor`, with their buses at `spans`. */
  ghost predicate UnderDone(links: seq<Link>, nodes: seq<Node>, subs: seq<Link>, before: set<string>, after: set<string>,
                            x: int, cursor: int, depth: nat, spans: seq<Span>, drawn: Figure)
    requires forall k :: 0 <= k < |subs| ==> subs[k] in links
  {
    var (under, entered) := UnderOf(links, nodes, subs, before);
    && after == entered && cursor == x + Room(under, BRANCH_GAP)
    && spans == Spans(under, x) && drawn == PaintForest(under, BRANCH_GAP, x, depth)
  }

  /** This box and everything beneath it have been drawn as planned. */
  ghost predicate BoxDone(links: seq<Link>, nodes: seq<Node>, node: Node, before: set<string>, after: set<string>,
                          x: int, width: int, depth: nat, drawn: Figure) {
    var (under, entered) := UnderOf(links, nodes, SubLinks(links, node), before);
    after == entered && width == SlotWidth(under) && drawn == PaintBox(node, under, x, depth)
  }

  /** This link and everything beneath it have been drawn as planned. */
  ghost predicate TreeDone(links: seq<Link>, nodes: seq<Node>, link: Link, before: set<string>, after: set<string>,
                           x: int, width: int, depth: nat, drawn: Figure) {
    var (row, entered) := TreeOf(links, nodes, link, before);
    after == entered && width == BusWidth(row) && drawn == PaintTree(link, row, x, depth)
  }

  ghost predicate RootsDone(links: seq<Link>, nodes: seq<Node>, roots: seq<Link>, cursor: int, drawn: Figure) {
    var forest := RootedAt(links, nodes, roots);
    cursor == MARGIN_X + Room(forest, 2 * BRANCH_GAP) && drawn == PaintForest(forest, 2 * BRANCH_GAP, MARGIN_X, 0)
  }

  lemma NothingDone(links: seq<Link>, nodes: seq<Node>, visited: set<string>, x: int, depth: nat)
    ensures RowDone(links, nodes, [], visited, visited, x, x, depth, BLANK)
    ensures UnderDone(links, nodes, [], visited, visited, x, x, depth, [], BLANK)
    ensures RootsDone(links, nodes, [], MARGIN_X, BLANK)
  {
  }

  lemma RowGoesOn(links: seq<Link>, nodes: seq<Node>, boxes: seq<Node>, k: nat, a: set<string>, b: set<string>, c: set<string>,
                  x: int, cursor: int, depth: nat, f: Figure, width: int, g: Figure)
    requires k < |boxes| && RowDone(links, nodes, boxes[..k], a, b, x, cursor, depth, f)
    requires BoxDone(links, nodes, boxes[k], b, c, cursor, width, depth, g)
    ensures RowDone(links, nodes, boxes[..k + 1], a, c, x, cursor + width + ECU_GAP, depth, Join(f, g))
  {
    hide Join, PaintBox, SlotWidth, UnderOf, SubLinks;
    assert boxes[..k + 1][..k] == boxes[..k];
  }

  lemma SubTreeDrawn(links: seq<Link>, nodes: seq<Node>, subs: seq<Link>, k: nat, a: set<string>, b: set<string>, c: set<string>,
                     x: int, cursor: int, depth: nat, spans: seq<Span>, f: Figure, width: int, g: Figure)
    requires k < |subs| && (forall i :: 0 <= i < |subs| ==> subs[i] in links) && subs[k].id !in b
    requires UnderDone(links, nodes, subs[..k], a, b, x, cursor, depth, spans, f)
    requires TreeDone(links, nodes, subs[k], b, c, cursor, width, depth, g)
    ensures UnderDone(links, nodes, subs[..k + 1], a, c, x, cursor + width + BRANCH_GAP, depth,
                      spans + [Span(subs[k], cursor, width)], Join(f, g))
  {
    hide Join, PaintTree, BusWidth, RowOf;
    assert subs[..k + 1][..k] == subs[..k];
  }

  lemma SubTreeSkipped(links: seq<Link>, nodes: seq<Node>, subs: seq<Link>, k: nat, a: set<string>, b: set<string>,
                       x: int, cursor: int, depth: nat, spans: seq<Span>, f: Figure)
    requires k < |subs| && (forall i :: 0 <= i < |subs| ==> subs[i] in links) && subs[k].id in b
    requires UnderDone(links, nodes, subs[..k], a, b, x, cursor, depth, spans, f)
    ensures UnderDone(links, nodes, subs[..k + 1], a, b, x, cursor, depth, spans, f)
  {
    hide PaintForest, Room, Spans, RowOf;
    assert subs[..k + 1][..k] == subs[..k];
  }

  lemma BoxOverSubTrees(links: seq<Link>, nodes: seq<Node>, node: Node, a: set<string>, b: set<string>,
                        x: int, cursor: int, depth: nat, spans: seq<Span>, f: Figure, width: nat, g: Figure)
    requires UnderDone(links, nodes, SubLinks(links, node), a, b, x, cursor, depth + 1, spans, f)
    requires width == Max(ECU_WIDTH, cursor - x - BRANCH_GAP) && g == BoxFigure(node, x, width, spans, depth)
    ensures BoxDone(links, nodes, node, a, b, x, width, depth, Join(f, g))
  {
    hide Join, PaintForest, Room, Spans, UnderOf, SubLinks, BoxFigure;
  }

  lemma BusOverRow(links: seq<Link>, nodes: seq<Node>, link: Link, a: set<string>, b: set<string>,
                   x: int, cursor: int, depth: nat, f: Figure, width: nat, g: Figure)
    requires RowDone(links, nodes, OnBus(nodes, link.id), a + {link.id}, b, x, cursor, depth, f)
    requires width == Max(ECU_WIDTH, cursor - x - ECU_GAP) && g == BusFigure(link, x, width, depth)
    ensures TreeDone(links, nodes, link, a, b, x, width, depth, Join(f, g))
  {
    hide Join, PaintRow, RowRoom, RowOf, BusFigure, OnBus;
  }

  lemma OneMoreRoot(links: seq<Link>, nodes: seq<Node>, roots: seq<Link>, k: nat, after: set<string>, cursor: int, f: Figure, width: int, g: Figure)
    requires k < |roots| && RootsDone(links, nodes, roots[..k], cursor, f)
    requires TreeDone(links, nodes, roots[k], {}, after, cursor, width, 0, g)
    ensures RootsDone(links, nodes, roots[..k + 1], cursor + width + 2 * BRANCH_GAP, Join(f, g))
  {
    hide Join, PaintTree, BusWidth, TreeOf;
    assert roots[..k + 1][..k] == roots[..k];
  }

  // ---------------------------------------------------------------- when a tester overlaps a box

  /** Some tester reaches into some box. */
  ghost predicate SomeTesterOverlaps(f: Figure) {
    Hits(f.testers, f.ecus)
  }

  ghost predicate Hits(testers: seq<PlacedTester>, boxes: seq<PlacedEcu>) {
    exists t, b :: t in testers && b in boxes && Overlaps(t, b)
  }

  /** Among these sub-trees of a box whose slot is this wide, an entry point's bus ends where its tester reaches the box. */
  predicate ReachesBox(under: Forest, slot: nat)
    requires ECU_WIDTH <= slot
  {
    match under
    case NoTrees => false
    case Trees(left, link, row) =>
      var box, end := (slot - ECU_WIDTH) / 2, Room(left, BRANCH_GAP) + BusWidth(row);
      ReachesBox(left, slot) || (link.isEntryPoint && box < end < box + ECU_WIDTH + TESTER_WIDTH)
  }

  predicate RowClashes(row: Row) {
    match row
    case NoBoxes => false
    case Boxes(left, _, under) => RowClashes(left) || ReachesBox(under, SlotWidth(under)) || Clashes(under)
  }

  /** Somewhere in these trees an entry point hangs below a box its tester reaches. */
  predicate Clashes(forest: Forest) {
    match forest
    case NoTrees => false
    case Trees(left, _, row) => Clashes(left) || RowClashes(row)
  }

  lemma HitsJoin(s: seq<PlacedTester>, t: seq<PlacedTester>, a: seq<PlacedEcu>, b: seq<PlacedEcu>)
    ensures Hits(s + t, a + b) <==> Hits(s, a) || Hits(s, b) || Hits(t, a) || Hits(t, b)
  {
    hide Overlaps;
  }

  /** Boxes and testers lie between `lo` and `hi`, boxes from row `row` down and testers from that of `depth` down. */
  ghost predicate Inside(f: Figure, lo: int, hi: int, row: nat, depth: nat) {
    && (forall b :: b in f.ecus ==> BoxFits(b, lo, hi, row))
    && (forall t :: t in f.testers ==> TesterFits(t, lo, hi, depth))
  }

  lemma InsideBoth(f: Figure, g: Figure, lo: int, mid: int, next: int, hi: int, row: nat, depth: nat)
    requires Inside(f, lo, mid, row, depth) && Inside(g, next, hi, row, depth) && mid <= hi && lo <= next
    ensures Inside(Join(f, g), lo, hi, row, depth)
  {
  }

  lemma InsideHigher(f: Figure, lo: int, hi: int, row: nat, depth: nat, hi': int, row': nat, depth': nat)
    requires Inside(f, lo, hi, row, depth) && row' <= row && depth' <= depth && hi <= hi'
    ensures Inside(f, lo, hi', row', depth')
  {
    assert BusY(row') <= BusY(row) && BusY(depth') <= BusY(depth);
  }

  /** With one figure left of the other nothing of the one reaches into the other. */
  lemma NoneAcross(f: Figure, g: Figure, lo: int, mid: int, next: int, hi: int, row: nat, depth: nat)
    requires Inside(f, lo, mid, row, depth) && Inside(g, next, hi, row, depth) && mid <= next
    ensures SomeTesterOverlaps(Join(f, g)) <==> SomeTesterOverlaps(f) || SomeTesterOverlaps(g)
  {
    HitsJoin(f.testers, g.testers, f.ecus, g.ecus);
  }

  lemma {:induction false} RowInside(row: Row, x: int, depth: nat)
    ensures Inside(PaintRow(row, x, depth), x, x + RowRoom(row) - ECU_GAP, depth, depth + 1)
    decreases row, 0
  {
    hide Inside, Join, PaintBox;
    match row
    case NoBoxes => NothingInside(x, x - ECU_GAP, depth, depth + 1);
    case Boxes(left, node, under) =>
      RowInside(left, x, depth);
      BoxInside(node, under, x + RowRoom(left), depth);
      InsideBoth(PaintRow(left, x, depth), PaintBox(node, under, x + RowRoom(left), depth), x, x + RowRoom(left) - ECU_GAP,
                 x + RowRoom(left), x + RowRoom(row) - ECU_GAP, depth, depth + 1);
  }

  lemma NothingInside(lo: int, hi: int, row: nat, depth: nat)
    ensures Inside(BLANK, lo, hi, row, depth)
  {
  }

  lemma BoxInside(node: Node, under: Forest, x: int, depth: nat)
    ensures Inside(PaintBox(node, under, x, depth), x, x + SlotWidth(under), depth, depth + 1)
    decreases under, 1
  {
    hide Inside, Join, PaintForest, Strokes, Spans, BoxFigure;
    var f, g := PaintForest(under, BRANCH_GAP, x, depth + 1), BoxFigure(node, x, SlotWidth(under), Spans(under, x), depth);
    ForestInside(under, BRANCH_GAP, x, depth + 1);
    InsideHigher(f, x, x + Room(under, BRANCH_GAP) - BRANCH_GAP, depth + 1, depth + 1, x + SlotWidth(under), depth, depth + 1);
    BoxFigureInside(node, x, SlotWidth(under), Spans(under, x), depth);
    InsideBoth(f, g, x, x + SlotWidth(under), x, x + SlotWidth(under), depth, depth + 1);
  }

  lemma BoxFigureInside(node: Node, x: int, width: nat, spans: seq<Span>, depth: nat)
    requires ECU_WIDTH <= width
    ensures Inside(BoxFigure(node, x, width, spans, depth), x, x + width, depth, depth + 1)
  {
    hide Strokes;
  }

  lemma {:induction false} ForestInside(forest: Forest, gap: nat, x: int, depth: nat)
    ensures Inside(PaintForest(forest, gap, x, depth), x, x + Room(forest, gap) - gap, depth, depth)
    decreases forest, 0
  {
    hide Inside, Join, PaintTree, BusWidth;
    match forest
    case NoTrees => NothingInside(x, x - gap, depth, depth);
    case Trees(left, link, row) =>
      var next := x + Room(left, gap);
      ForestInside(left, gap, x, depth);
      TreeInside(link, row, next, depth);
      InsideBoth(PaintForest(left, gap, x, depth), PaintTree(link, row, next, depth), x, next - gap, next, next + BusWidth(row), depth, depth);
  }

  lemma TreeInside(link: Link, row: Row, x: int, depth: nat)
    ensures Inside(PaintTree(link, row, x, depth), x, x + BusWidth(row), depth, depth)
    decreases row, 1
  {
    hide Inside, Join, PaintRow, BusFigure;
    RowInside(row, x, depth);
    InsideHigher(PaintRow(row, x, depth), x, x + RowRoom(row) - ECU_GAP, depth, depth + 1, x + BusWidth(row), depth, depth);
    BusFigureInside(link, x, BusWidth(row), depth);
    InsideBoth(PaintRow(row, x, depth), BusFigure(link, x, BusWidth(row), depth), x, x + BusWidth(row), x, x + BusWidth(row), depth, depth);
  }

  lemma BusFigureInside(link: Link, x: int, width: nat, depth: nat)
    requires TESTER_WIDTH <= width
    ensures Inside(BusFigure(link, x, width, depth), x, x + width, depth, depth)
  {
  }

  /** The testers drawn for the sub-trees of a box that reach it are those of its own sub-trees' buses. */
  lemma {:induction false} HitsBoxExactly(under: Forest, slot: nat, x: int, depth: nat, box: PlacedEcu)
    requires ECU_WIDTH <= slot && box.x == x + (slot - ECU_WIDTH) / 2 && box.y == EcuY(depth)
    ensures Hits(PaintForest(under, BRANCH_GAP, x, depth + 1).testers, [box]) <==> ReachesBox(under, slot)
    decreases under
  {
    hide Overlaps, Hits, PaintTree, Room, BusWidth;
    match under
    case NoTrees => NothingHits([box]);
    case Trees(left, link, row) =>
      var next := x + Room(left, BRANCH_GAP);
      HitsBoxExactly(left, slot, x, depth, box);
      TreeHitsBoxExactly(link, row, next, depth, box);
      assert [box] + [] == [box];
      HitsJoin(PaintForest(left, BRANCH_GAP, x, depth + 1).testers, PaintTree(link, row, next, depth + 1).testers, [box], []);
      NoBoxesHit(PaintForest(left, BRANCH_GAP, x, depth + 1).testers);
      NoBoxesHit(PaintTree(link, row, next, depth + 1).testers);
  }

  lemma NothingHits(boxes: seq<PlacedEcu>)
    ensures !Hits([], boxes)
  {
  }

  lemma NoBoxesHit(testers: seq<PlacedTester>)
    ensures !Hits(testers, [])
  {
  }

  lemma TreeHitsBoxExactly(link: Link, row: Row, x: int, depth: nat, box: PlacedEcu)
    requires box.y == EcuY(depth)
    ensures Hits(PaintTree(link, row, x, depth + 1).testers, [box])
            <==> link.isEntryPoint && box.x < x + BusWidth(row) < box.x + ECU_WIDTH + TESTER_WIDTH
  {
    hide PaintRow, BusFigure, Hits, BusWidth, RowRoom, EcuY, Inside;
    var f, g := PaintRow(row, x, depth + 1), BusFigure(link, x, BusWidth(row), depth + 1);
    RowInside(row, x, depth + 1);
    DeepTestersMiss(f, x, x + RowRoom(row) - ECU_GAP, depth, box);
    OwnTesterHits(link, x, BusWidth(row), depth, box);
    assert [box] + [] == [box];
    HitsJoin(f.testers, g.testers, [box], []);
    NoBoxesHit(f.testers);
    NoBoxesHit(g.testers);
  }

  lemma DeepTestersMiss(f: Figure, lo: int, hi: int, depth: nat, box: PlacedEcu)
    requires box.y == EcuY(depth) && Inside(f, lo, hi, depth + 1, depth + 2)
    ensures !Hits(f.testers, [box])
  {
  }

  lemma OwnTesterHits(link: Link, x: int, width: nat, depth: nat, box: PlacedEcu)
    requires box.y == EcuY(depth)
    ensures Hits(BusFigure(link, x, width, depth + 1).testers, [box])
            <==> link.isEntryPoint && box.x < x + width < box.x + ECU_WIDTH + TESTER_WIDTH
  {
    var tester := TesterOver(x + width, depth + 1);
    TesterOverlapsExactly(x + width, depth + 1, box, depth);
    hide Overlaps, TesterOver;
    if link.isEntryPoint {
      assert BusFigure(link, x, width, depth + 1).testers == [tester];
      assert tester in [tester] && box in [box];
    }
  }

  lemma {:induction false} RowOverlapsExactly(row: Row, x: int, depth: nat)
    ensures SomeTesterOverlaps(PaintRow(row, x, depth)) <==> RowClashes(row)
    decreases row, 1
  {
    hide SomeTesterOverlaps, PaintBox, ReachesBox, SlotWidth;
    match row
    case NoBoxes => NoBoxesOverlap();
    case Boxes(left, node, under) =>
      var next := x + RowRoom(left);
      RowOverlapsExactly(left, x, depth);
      BoxOverlapsExactly(node, under, next, depth);
      RowInside(left, x, depth);
      BoxInside(node, under, next, depth);
      NoneAcross(PaintRow(left, x, depth), PaintBox(node, under, next, depth), x, next - ECU_GAP, next, next + SlotWidth(under), depth, depth + 1);
  }

  lemma NoBoxesOverlap()
    ensures !SomeTesterOverlaps(BLANK)
  {
  }

  lemma BoxOverlapsExactly(node: Node, under: Forest, x: int, depth: nat)
    ensures SomeTesterOverlaps(PaintBox(node, under, x, depth)) <==> ReachesBox(under, SlotWidth(under)) || Clashes(under)
    decreases under, 2
  {
    hide Hits, PaintForest, ReachesBox, Clashes, Spans, Strokes;
    var f := PaintForest(under, BRANCH_GAP, x, depth + 1);
    var box := PlacedEcu(node, x + (SlotWidth(under) - ECU_WIDTH) / 2, EcuY(depth));
    ForestOverlapsExactly(under, BRANCH_GAP, x, depth + 1);
    HitsBoxExactly(under, SlotWidth(under), x, depth, box);
    HitsJoin(f.testers, [], f.ecus, [box]);
    NothingHits(f.ecus);
    NothingHits([box]);
  }

  /** In what is drawn of these trees a tester overlaps a box exactly where the plan says so. */
  lemma {:induction false} ForestOverlapsExactly(forest: Forest, gap: nat, x: int, depth: nat)
    ensures SomeTesterOverlaps(PaintForest(forest, gap, x, depth)) <==> Clashes(forest)
    decreases forest, 1
  {
    hide SomeTesterOverlaps, PaintTree, BusWidth;
    match forest
    case NoTrees => NoBoxesOverlap();
    case Trees(left, link, row) =>
      var next := x + Room(left, gap);
      ForestOverlapsExactly(left, gap, x, depth);
      TreeOverlapsExactly(link, row, next, depth);
      ForestInside(left, gap, x, depth);
      TreeInside(link, row, next, depth);
      NoneAcross(PaintForest(left, gap, x, depth), PaintTree(link, row, next, depth), x, next - gap, next, next + BusWidth(row), depth, depth);
  }

  lemma TreeOverlapsExactly(link: Link, row: Row, x: int, depth: nat)
    ensures SomeTesterOverlaps(PaintTree(link, row, x, depth)) <==> RowClashes(row)
    decreases row, 2
  {
    hide Hits, PaintRow, RowClashes, BusWidth, RowRoom, Inside;
    var f, g := PaintRow(row, x, depth), BusFigure(link, x, BusWidth(row), depth);
    RowOverlapsExactly(row, x, depth);
    RowInside(row, x, depth);
    OwnTesterMisses(f, link, x, x + RowRoom(row) - ECU_GAP, BusWidth(row), depth);
    HitsJoin(f.testers, g.testers, f.ecus, []);
    NoBoxesHit(f.testers);
    NoBoxesHit(g.testers);
  }

  lemma OwnTesterMisses(f: Figure, link: Link, lo: int, hi: int, width: nat, depth: nat)
    requires Inside(f, lo, hi, depth, depth + 1)
    ensures !Hits(BusFigure(link, lo, width, depth).testers, f.ecus)
  {
  }

  // ---------------------------------------------------------------- what a caller can tell beforehand

  /** No ECU on a listed link forwards onto an entry point. */
  ghost predicate NoEntryPointBelow(links: seq<Link>, nodes: seq<Node>) {
    forall n, l :: n in nodes && l in links && l.isEntryPoint && n.linkId.Some? && n.linkId.value in LinkIds(links)
                   ==> l.id !in n.gatewayForLinkIds
  }

  ghost predicate Unmarked(forest: Forest) {
    match forest
    case NoTrees => true
    case Trees(left, link, _) => Unmarked(left) && !link.isEntryPoint
  }

  lemma {:induction false} UnmarkedReachesNothing(under: Forest, slot: nat)
    requires ECU_WIDTH <= slot && Unmarked(under)
    ensures !ReachesBox(under, slot)
  {
    match under
    case NoTrees =>
    case Trees(left, _, _) => UnmarkedReachesNothing(left, slot);
  }

  lemma {:induction false} RowIsQuiet(links: seq<Link>, nodes: seq<Node>, boxes: seq<Node>, visited: set<string>)
    requires NoEntryPointBelow(links, nodes)
    requires forall k :: 0 <= k < |boxes| ==> boxes[k] in nodes && boxes[k].linkId.Some? && boxes[k].linkId.value in LinkIds(links)
    ensures !RowClashes(RowOf(links, nodes, boxes, visited).0)
    decreases |LinkIds(links) - visited|, 2, |boxes|
  {
    hide NoEntryPointBelow, LinkIds, ReachesBox, UnderOf, SubLinks, SlotWidth;
    if boxes != [] {
      var last := boxes[|boxes| - 1];
      var entered := RowOf(links, nodes, boxes[..|boxes| - 1], visited).1;
      RowIsQuiet(links, nodes, boxes[..|boxes| - 1], visited);
      FewerLeft(links, visited, entered);
      NoneMarked(links, nodes, last);
      UnderIsQuiet(links, nodes, SubLinks(links, last), entered);
      var under := UnderOf(links, nodes, SubLinks(links, last), entered).0;
      UnmarkedReachesNothing(under, SlotWidth(under));
    }
  }

  lemma NoneMarked(links: seq<Link>, nodes: seq<Node>, node: Node)
    requires NoEntryPointBelow(links, nodes) && node in nodes && node.linkId.Some? && node.linkId.value in LinkIds(links)
    ensures forall k :: 0 <= k < |SubLinks(links, node)| ==> !SubLinks(links, node)[k].isEntryPoint
  {
    hide LinkIds, SubLinks;
  }

  lemma {:induction false} UnderIsQuiet(links: seq<Link>, nodes: seq<Node>, subs: seq<Link>, visited: set<string>)
    requires NoEntryPointBelow(links, nodes)
    requires forall k :: 0 <= k < |subs| ==> subs[k] in links && !subs[k].isEntryPoint
    ensures Unmarked(UnderOf(links, nodes, subs, visited).0) && !Clashes(UnderOf(links, nodes, subs, visited).0)
    decreases |LinkIds(links) - visited|, 1, |subs|
  {
    hide NoEntryPointBelow, LinkIds, RowOf, OnBus;
    if subs != [] {
      var last := subs[|subs| - 1];
      var entered := UnderOf(links, nodes, subs[..|subs| - 1], visited).1;
      UnderIsQuiet(links, nodes, subs[..|subs| - 1], visited);
      if last.id !in entered {
        FewerLeft(links, visited, entered);
        EnteringShrinks(links, last, entered);
        OnListedLink(links, nodes, last);
        RowIsQuiet(links, nodes, OnBus(nodes, last.id), entered + {last.id});
      }
    }
  }

  lemma OnListedLink(links: seq<Link>, nodes: seq<Node>, link: Link)
    requires link in links
    ensures forall k :: 0 <= k < |OnBus(nodes, link.id)| ==>
              var n := OnBus(nodes, link.id)[k]; n in nodes && n.linkId.Some? && n.linkId.value in LinkIds(links)
  {
    hide OnBus;
  }

  /** Where no ECU on a listed link forwards onto an entry point, the plan has no tester reach a box. */
  lemma NoEntryPointBelowNoClash(links: seq<Link>, nodes: seq<Node>)
    requires NoEntryPointBelow(links, nodes)
    ensures !Clashes(PlanOf(links, nodes))
  {
    hide NoEntryPointBelow, Roots, RootedAt;
    RootsAreQuiet(links, nodes, Roots(links));
  }

  lemma {:induction false} RootsAreQuiet(links: seq<Link>, nodes: seq<Node>, roots: seq<Link>)
    requires NoEntryPointBelow(links, nodes) && forall k :: 0 <= k < |roots| ==> roots[k] in links
    ensures !Clashes(RootedAt(links, nodes, roots))
  {
    hide NoEntryPointBelow, RowOf, OnBus;
    if roots != [] {
      var last := roots[|roots| - 1];
      RootsAreQuiet(links, nodes, roots[..|roots| - 1]);
      OnListedLink(links, nodes, last);
      RowIsQuiet(links, nodes, OnBus(nodes, last.id), {} + {last.id});
    }
  }

  /** Entry points a and b with one ECU on a forwarding onto b: the empty bus of b is 146 wide, and its tester covers that ECU's box. */
  lemma {:induction false} TesterHidesGateway(a: Link, b: Link, g: Node)
    requires a.id == "a" && b.id == "b" && a.isEntryPoint && b.isEntryPoint
    requires g.linkId == Some("a") && g.gatewayForLinkIds == ["b"]
    ensures PlanOf([a, b], [g]) == Trees(Trees(NoTrees, a, Boxes(NoBoxes, g, Trees(NoTrees, b, NoBoxes))), b, NoBoxes)
    ensures BusWidth(NoBoxes) == 146 && Clashes(PlanOf([a, b], [g]))
    ensures SomeTesterOverlaps(PaintForest(PlanOf([a, b], [g]), 2 * BRANCH_GAP, MARGIN_X, 0))
  {
    hide PaintForest, SomeTesterOverlaps, PlanOf, Roots, SubLinks, OnBus, RowClashes;
    TwoRoots(a, b, g);
    PlanOfTwo(a, b, g);
    LoneBoxClashes(g, b);
    ForestOverlapsExactly(PlanOf([a, b], [g]), 2 * BRANCH_GAP, MARGIN_X, 0);
  }

  lemma LoneBoxClashes(g: Node, b: Link)
    requires b.isEntryPoint
    ensures RowClashes(Boxes(NoBoxes, g, Trees(NoTrees, b, NoBoxes)))
  {
    var under := Trees(NoTrees, b, NoBoxes);
    assert ReachesBox(under, SlotWidth(under));
  }

  lemma {:induction false} TwoRoots(a: Link, b: Link, g: Node)
    requires a.id == "a" && b.id == "b" && a.isEntryPoint && b.isEntryPoint
    requires g.linkId == Some("a") && g.gatewayForLinkIds == ["b"]
    ensures Roots([a, b]) == [a, b] && SubLinks([a, b], g) == [b]
    ensures OnBus([g], "a") == [g] && OnBus([g], "b") == []
  {
    assert [a, b][1..] == [b] && [b][1..] == [] && [g][1..] == [];
    assert Roots([b]) == [b] && SubLinks([b], g) == [b];
  }

  lemma {:induction false} PlanOfTwo(a: Link, b: Link, g: Node)
    requires a.id == "a" && b.id == "b" && Roots([a, b]) == [a, b] && SubLinks([a, b], g) == [b]
    requires OnBus([g], "a") == [g] && OnBus([g], "b") == []
    ensures PlanOf([a, b], [g]) == Trees(Trees(NoTrees, a, Boxes(NoBoxes, g, Trees(NoTrees, b, NoBoxes))), b, NoBoxes)
  {
    hide Roots, SubLinks, OnBus, LinkIds;
    var links, nodes := [a, b], [g];
    assert links[..1] == [a] && [a][..0] == [] && [b][..0] == [] && nodes[..0] == [];
    assert {} + {"a"} == {"a"};
    assert UnderOf(links, nodes, [], {"a"}) == (NoTrees, {"a"});
    assert UnderOf(links, nodes, [b], {"a"}).0 == Trees(NoTrees, b, NoBoxes);
    assert RowOf(links, nodes, [], {"a"}) == (NoBoxes, {"a"});
    assert RowOf(links, nodes, nodes, {"a"}).0 == Boxes(NoBoxes, g, Trees(NoTrees, b, NoBoxes));
    assert RootedAt(links, nodes, []) == NoTrees;
    assert RootedAt(links, nodes, [a]) == Trees(NoTrees, a, Boxes(NoBoxes, g, Trees(NoTrees, b, NoBoxes)));
  }

  // ---------------------------------------------------------------- a drawing in full

  /** A gateway over two buses, and a second ECU beside it: every line and box of the drawing. */
  lemma GatewayDrawn(a: Link, b: Link, c: Link, g: Node, e: Node)
    requires a.isEntryPoint && !b.isEntryPoint && !c.isEntryPoint && !g.isEnabled && e.isEnabled
    ensures PaintForest(Trees(NoTrees, a, Boxes(Boxes(NoBoxes, g, Trees(Trees(NoTrees, b, NoBoxes), c, NoBoxes)), e, NoTrees)), 2 * BRANCH_GAP, MARGIN_X, 0)
            == Figure([PlacedBus(b, 28, 174, 188), PlacedBus(c, 208, 354, 188), PlacedBus(a, 28, 518, 72)],
                      [PlacedEcu(g, 118, 102), PlacedEcu(e, 372, 102)],
                      [PlacedTester(442, 24)],
                      [Segment(191, 72, 191, 102, true),
                       Segment(191, 148, 191, 168, true), Segment(191, 168, 101, 168, true), Segment(101, 168, 101, 188, true),
                       Segment(191, 148, 191, 168, true), Segment(191, 168, 281, 168, true), Segment(281, 168, 281, 188, true),
                       Segment(445, 72, 445, 102, false),
                       Segment(480, 68, 480, 72, false)])
  {
    var under := Trees(Trees(NoTrees, b, NoBoxes), c, NoBoxes);
    var gateway := Boxes(NoBoxes, g, under);
    var row := Boxes(gateway, e, NoTrees);
    RoomsTaken(g, e, b, c);
    GatewayBoxDrawn(g, b, c);
    LoneBoxDrawn(e);
    hide PaintBox, RowRoom, BusWidth, Room;
    assert PaintRow(gateway, 28, 0) == Join(BLANK, PaintBox(g, under, 28, 0));
    assert PaintRow(row, 28, 0) == Join(PaintRow(gateway, 28, 0), PaintBox(e, NoTrees, 372, 0));
    assert PaintTree(a, row, 28, 0) == Join(PaintRow(row, 28, 0), BusFigure(a, 28, 490, 0));
    assert PaintForest(Trees(NoTrees, a, row), 2 * BRANCH_GAP, MARGIN_X, 0) == Join(BLANK, PaintTree(a, row, 28, 0));
  }

  lemma RoomsTaken(g: Node, e: Node, b: Link, c: Link)
    ensures var gateway := Boxes(NoBoxes, g, Trees(Trees(NoTrees, b, NoBoxes), c, NoBoxes));
            && RowRoom(NoBoxes) == 0 && RowRoom(gateway) == 344 && BusWidth(Boxes(gateway, e, NoTrees)) == 490
            && Room(NoTrees, 2 * BRANCH_GAP) == 0
  {
    var first := Trees(NoTrees, b, NoBoxes);
    var under := Trees(first, c, NoBoxes);
    var gateway := Boxes(NoBoxes, g, under);
    assert BusWidth(NoBoxes) == 146 && Room(NoTrees, BRANCH_GAP) == 0 && Room(first, BRANCH_GAP) == 180 && Room(under, BRANCH_GAP) == 360;
    assert SlotWidth(under) == 326 && RowRoom(gateway) == 344;
    assert SlotWidth(NoTrees) == 146 && RowRoom(Boxes(gateway, e, NoTrees)) == 508;
  }

  lemma GatewayBoxDrawn(g: Node, b: Link, c: Link)
    requires !b.isEntryPoint && !c.isEntryPoint && !g.isEnabled
    ensures PaintBox(g, Trees(Trees(NoTrees, b, NoBoxes), c, NoBoxes), 28, 0)
            == Figure([PlacedBus(b, 28, 174, 188), PlacedBus(c, 208, 354, 188)], [PlacedEcu(g, 118, 102)], [],
                      [Segment(191, 72, 191, 102, true),
                       Segment(191, 148, 191, 168, true), Segment(191, 168, 101, 168, true), Segment(101, 168, 101, 188, true),
                       Segment(191, 148, 191, 168, true), Segment(191, 168, 281, 168, true), Segment(281, 168, 281, 188, true)])
  {
    hide PaintForest, PaintTree, PaintRow, Spans, SlotWidth, Strokes, Elbow, Room, RowRoom, BusWidth;
    BareBusesDrawn(b, c);
    TwoElbows(g, b, c);
    var spans := [Span(b, 28, 146), Span(c, 208, 146)];
    assert BoxFigure(g, 28, 326, spans, 0) == Figure([], [PlacedEcu(g, 118, 102)], [], Strokes(PlacedEcu(g, 118, 102), spans, 0));
  }

  lemma LoneBoxDrawn(e: Node)
    requires e.isEnabled
    ensures PaintBox(e, NoTrees, 372, 0) == Figure([], [PlacedEcu(e, 372, 102)], [], [Segment(445, 72, 445, 102, false)])
  {
    assert Spans(NoTrees, 372) == [] && SlotWidth(NoTrees) == 146;
  }

  lemma BareBusesDrawn(b: Link, c: Link)
    requires !b.isEntryPoint && !c.isEntryPoint
    ensures var under := Trees(Trees(NoTrees, b, NoBoxes), c, NoBoxes);
            && SlotWidth(under) == 326 && Spans(under, 28) == [Span(b, 28, 146), Span(c, 208, 146)]
            && PaintForest(under, BRANCH_GAP, 28, 1) == Figure([PlacedBus(b, 28, 174, 188), PlacedBus(c, 208, 354, 188)], [], [], [])
  {
    var first := Trees(NoTrees, b, NoBoxes);
    var under := Trees(first, c, NoBoxes);
    assert BusWidth(NoBoxes) == 146 && Room(NoTrees, BRANCH_GAP) == 0 && Room(first, BRANCH_GAP) == 180 && Room(under, BRANCH_GAP) == 360;
    assert Spans(first, 28) == [Span(b, 28, 146)];
    assert PaintTree(b, NoBoxes, 28, 1) == Figure([PlacedBus(b, 28, 174, 188)], [], [], []);
    assert PaintTree(c, NoBoxes, 208, 1) == Figure([PlacedBus(c, 208, 354, 188)], [], [], []);
    assert PaintForest(first, BRANCH_GAP, 28, 1) == Join(BLANK, PaintTree(b, NoBoxes, 28, 1));
    assert PaintForest(under, BRANCH_GAP, 28, 1) == Join(PaintForest(first, BRANCH_GAP, 28, 1), PaintTree(c, NoBoxes, 208, 1));
  }

  lemma TwoElbows(g: Node, b: Link, c: Link)
    requires !g.isEnabled
    ensures Strokes(PlacedEcu(g, 118, 102), [Span(b, 28, 146), Span(c, 208, 146)], 0) ==
            [Segment(191, 72, 191, 102, true),
             Segment(191, 148, 191, 168, true), Segment(191, 168, 101, 168, true), Segment(101, 168, 101, 188, true),
             Segment(191, 148, 191, 168, true), Segment(191, 168, 281, 168, true), Segment(281, 168, 281, 188, true)]
  {
    var one, two := Span(b, 28, 146), Span(c, 208, 146);
    var box := PlacedEcu(g, 118, 102);
    assert [one, two][..1] == [one] && [one][..0] == [];
    assert Strokes(box, [one], 0) == Strokes(box, [], 0) + Elbow(box, one, 0);
    assert Strokes(box, [one, two], 0) == Strokes(box, [one], 0) + Elbow(box, two, 0);
  }
}
