/** Placing every bus and box: the depth-first walk of the diagram, drawing as it goes. */
module Canvases {
  import opened Basics
  import opened Layout
  import opened Plans
  import opened Orders

  ghost const NO_NODES: seq<Node> := []

  class Canvas {
    var buses: seq<PlacedBus>
    var ecus: seq<PlacedEcu>
    var testers: seq<PlacedTester>
    var segments: seq<Segment>
    var width: int
    var height: int
    /** The links the current root's walk has entered, shared by all of its recursive calls. */
    var visited: set<string>

    constructor ()
      ensures Drawn() == BLANK
    {
      buses, ecus, testers, segments := [], [], [], [];
      width, height, visited := 0, 0, {};
    }

    ghost function Drawn(): Figure
      reads this
    {
      Figure(buses, ecus, testers, segments)
    }

    /** Place everything: one walk per root, left to right, then size the canvas. */
    method BuildLayout(links: seq<Link>, nodes: seq<Node>)
      requires Drawn() == BLANK
      modifies this
      ensures Complete(links, EcuNodes(nodes), Drawn(), Roots(links))
      ensures Apart(Drawn())
      ensures OnCanvas(Drawn(), width, height) && Snug(Drawn(), width, height)
      ensures BoxesInOrder(nodes, Drawn()) && RootsInOrder(links, Drawn())
      ensures Drawn() == PaintForest(PlanOf(links, EcuNodes(nodes)), 2 * BRANCH_GAP, MARGIN_X, 0)
      ensures SomeTesterOverlaps(Drawn()) <==> Clashes(PlanOf(links, EcuNodes(nodes)))
      ensures NoEntryPointBelow(links, EcuNodes(nodes)) ==> !SomeTesterOverlaps(Drawn())
    {
      hide Placed, Shows, Grew, Complete, Fits, Apart, AllHeld, Join, OnCanvas, EcuNodes, Roots, MaxY, TestersStand, Stroked;
      hide RootsDone, TreeDone, SomeTesterOverlaps, Clashes, NoEntryPointBelow, BoxesInOrder, RootsInOrder, PaintForest, PlanOf, EndsAt, Snug;
      var ecuNodes := EcuNodes(nodes);
      var roots := Roots(links);
      var cursorX := MARGIN_X;
      NothingDrawn(links, ecuNodes, MARGIN_X, cursorX - 2 * BRANCH_GAP);
      NothingDone(links, ecuNodes, {}, MARGIN_X, 0);
      for k := 0 to |roots|
        invariant cursorX % 2 == 0 && MARGIN_X <= cursorX
        invariant if k == 0 then cursorX == MARGIN_X else EndsAt(Drawn(), cursorX - 2 * BRANCH_GAP)
        invariant Fits(Drawn(), MARGIN_X, cursorX - 2 * BRANCH_GAP, 0) && Apart(Drawn()) && AllHeld(Drawn(), 0)
        invariant Complete(links, ecuNodes, Drawn(), roots[..k])
        invariant RootsDone(links, ecuNodes, roots[..k], cursorX, Drawn())
      {
        visited := {};
        ghost var before := Drawn();
        var placed: int;
        ghost var drawn: Figure;
        placed, drawn := PlaceBus(roots[k], 0, cursorX, links, ecuNodes);
        PlacedParts(links, ecuNodes, drawn, cursorX, cursorX + placed, 0, {}, visited, roots[k].id);
        SideBySide(before, drawn, MARGIN_X, cursorX - 2 * BRANCH_GAP, cursorX, cursorX + placed, 0);
        AllHeldBoth(before, drawn, 0);
        CompleteWithRoot(links, ecuNodes, before, roots, k, drawn, visited);
        OneMoreRoot(links, ecuNodes, roots, k, visited, cursorX, before, placed, drawn);
        EndsWithNext(before, drawn, PlacedBus(roots[k], cursorX, cursorX + placed, BusY(0)));
        cursorX := cursorX + placed + 2 * BRANCH_GAP;
      }
      assert roots[..|roots|] == roots;
      PlanIsDrawn(links, ecuNodes, cursorX, Drawn());
      PlanKeepsEcuOrder(links, nodes, Drawn());
      PlanKeepsRootOrder(links, ecuNodes, Drawn());
      var maxY := MaxY(ecus);
      var needed := cursorX - 2 * BRANCH_GAP + MARGIN_X;
      width := if needed > 320 then needed else 320;
      height := maxY + ECU_HEIGHT + MARGIN_X + TESTER_HEIGHT;
      HeldIsOnCanvas(Drawn(), MARGIN_X, cursorX - 2 * BRANCH_GAP, width, height);
      HeldIsSnug(Drawn(), cursorX - 2 * BRANCH_GAP, width, height);
    }

    /**
     * Draw the whole sub-tree of one link and report its width, which is zero when this
     * root's walk had entered the bus already.
     */
    method PlaceBus(link: Link, depth: nat, xStart: int, links: seq<Link>, nodes: seq<Node>)
      returns (placed: int, ghost drawn: Figure)
      requires link in links && xStart % 2 == 0
      modifies this`buses, this`ecus, this`testers, this`segments, this`visited
      ensures Drawn() == Join(old(Drawn()), drawn)
      ensures link.id in old(visited) ==> placed == 0 && drawn == BLANK && visited == old(visited)
      ensures link.id !in old(visited) ==>
                && placed >= ECU_WIDTH && placed % 2 == 0 && link.id in visited
                && Placed(links, nodes, drawn, xStart, xStart + placed, depth, old(visited), visited, link.id, [])
                && PlacedBus(link, xStart, xStart + placed, BusY(depth)) in drawn.buses
                && TreeDone(links, nodes, link, old(visited), visited, xStart, placed, depth, drawn)
      decreases |LinkIds(links) - visited|, 0
    {
      hide Fits, Apart, AllHeld, Shows, Grew, Join, TestersStand, Stroked, RowDone, TreeDone, BusFigure;
      if link.id in visited {
        JoinAssociates(Drawn(), BLANK, BLANK);
        return 0, BLANK;
      }
      ghost var entering := visited;
      EnteringShrinks(links, link, visited);
      visited := visited + {link.id};

      var cursorX: int;
      cursorX, drawn := PlaceRow(link, depth, xStart, links, nodes);

      var needed := cursorX - ECU_GAP - xStart;
      placed := if needed > ECU_WIDTH then needed else ECU_WIDTH;
      ghost var own := DrawOwnBus(link, depth, xStart, placed);
      PlacedOnBus(links, nodes, drawn, own, xStart, cursorX - ECU_GAP, xStart + placed, depth, entering, visited, link);
      BusOverRow(links, nodes, link, entering, visited, xStart, cursorX, depth, drawn, placed, own);
      JoinAssociates(old(Drawn()), drawn, own);
      OwnBusIsDrawn(drawn, own, link, xStart, xStart + placed, depth);
      drawn := Join(drawn, own);
    }

    /** The row of ECUs on a bus just entered, left to right. */
    method PlaceRow(link: Link, depth: nat, xStart: int, links: seq<Link>, nodes: seq<Node>)
      returns (cursorX: int, ghost drawn: Figure)
      requires link in links && xStart % 2 == 0 && link.id in visited
      modifies this`buses, this`ecus, this`testers, this`segments, this`visited
      ensures Drawn() == Join(old(Drawn()), drawn)
      ensures cursorX % 2 == 0 && xStart <= cursorX
      ensures Placed(links, nodes, drawn, xStart, cursorX - ECU_GAP, depth, old(visited), visited, link.id, OnBus(nodes, link.id))
      ensures BusesBelow(drawn, depth)
      ensures forall b :: Leads(links, nodes, link.id, b) ==> b in visited
      ensures RowDone(links, nodes, OnBus(nodes, link.id), old(visited), visited, xStart, cursorX, depth, drawn)
      decreases |LinkIds(links) - visited|, 3
    {
      hide RowDone, BoxDone, Fits, Apart, AllHeld, Shows, Grew, Join, Placed, BusesBelow, Leads, BusY, EcuY, OnBus, SubLinks;
      var onThisBus := OnBus(nodes, link.id);
      cursorX, drawn := xStart, BLANK;
      JoinAssociates(Drawn(), BLANK, BLANK);
      PlacedNothing(links, nodes, xStart, cursorX - ECU_GAP, depth, visited, link.id);
      NothingDone(links, nodes, visited, xStart, depth);
      for k := 0 to |onThisBus|
        invariant cursorX % 2 == 0 && xStart <= cursorX
        invariant Drawn() == Join(old(Drawn()), drawn)
        invariant Placed(links, nodes, drawn, xStart, cursorX - ECU_GAP, depth, old(visited), visited, link.id, onThisBus[..k])
        invariant BusesBelow(drawn, depth) && old(visited) <= visited
        invariant RowDone(links, nodes, onThisBus[..k], old(visited), visited, xStart, cursorX, depth, drawn)
        invariant forall j, b :: 0 <= j < k && b in LinkIds(links) && b in onThisBus[j].gatewayForLinkIds ==> b in visited
      {
        FewerLeft(links, old(visited), visited);
        ghost var sofar, was := drawn, visited;
        var slotWidth: int;
        ghost var part: Figure;
        slotWidth, part := PlaceNode(onThisBus[k], link, depth, cursorX, links, nodes);
        PlacedBeside(links, nodes, sofar, part, xStart, cursorX - ECU_GAP, cursorX, cursorX + slotWidth, depth,
                     old(visited), was, visited, link.id, onThisBus[..k], [onThisBus[k]]);
        RowGoesOn(links, nodes, onThisBus, k, old(visited), was, visited, xStart, cursorX, depth, sofar, slotWidth, part);
        assert onThisBus[..k] + [onThisBus[k]] == onThisBus[..k + 1];
        BusesBelowBoth(sofar, part, depth);
        JoinAssociates(old(Drawn()), sofar, part);
        drawn := Join(sofar, part);
        cursorX := cursorX + slotWidth + ECU_GAP;
      }
      assert onThisBus[..|onThisBus|] == onThisBus;
      AllLedTo(links, nodes, link, visited);
    }

    /** The bus line itself, and the tester over it where one attaches. */
    method DrawOwnBus(link: Link, depth: nat, xStart: int, placed: int) returns (ghost own: Figure)
      requires ECU_WIDTH <= placed && placed % 2 == 0
      modifies this`buses, this`testers, this`segments
      ensures Drawn() == Join(old(Drawn()), own)
      ensures OwnBus(own, link, xStart, xStart + placed, depth)
      ensures own == BusFigure(link, xStart, placed, depth)
    {
      var busY := MARGIN_X + TESTER_HEIGHT + depth * ROW_HEIGHT;
      buses := buses + [PlacedBus(link, xStart, xStart + placed, busY)];
      own := Figure([PlacedBus(link, xStart, xStart + placed, busY)], [], [], []);
      if link.isEntryPoint {
        var testerX := xStart + placed - TESTER_WIDTH;
        testers := testers + [PlacedTester(testerX, busY - TESTER_HEIGHT - 4)];
        segments := segments + [Segment(testerX + TESTER_WIDTH / 2, busY - 4, testerX + TESTER_WIDTH / 2, busY, false)];
        own := own.(testers := [PlacedTester(testerX, busY - TESTER_HEIGHT - 4)],
                    segments := [Segment(testerX + TESTER_WIDTH / 2, busY - 4, testerX + TESTER_WIDTH / 2, busY, false)]);
      }
    }

    /** Place one ECU on its bus: its sub-trees first, then its box centred over what they needed. */
    method PlaceNode(node: Node, link: Link, depth: nat, cursorX: int, links: seq<Link>, nodes: seq<Node>)
      returns (slotWidth: int, ghost drawn: Figure)
      requires node in nodes && node.linkId == Some(link.id) && link.id in visited && cursorX % 2 == 0
      modifies this`buses, this`ecus, this`testers, this`segments, this`visited
      ensures Drawn() == Join(old(Drawn()), drawn)
      ensures slotWidth >= ECU_WIDTH && slotWidth % 2 == 0
      ensures Placed(links, nodes, drawn, cursorX, cursorX + slotWidth, depth, old(visited), visited, link.id, [node])
      ensures BusesBelow(drawn, depth)
      ensures old(visited) <= visited
      ensures AllEntered(links, node, visited)
      ensures BoxDone(links, nodes, node, old(visited), visited, cursorX, slotWidth, depth, drawn)
      decreases |LinkIds(links) - visited|, 2
    {
      hide Fits, Apart, AllHeld, Shows, Grew, Join, OwnBox, TestersStand, Stroked, UnderDone, BoxDone, BoxFigure;
      var subSpans, subCursorX;
      ghost var under: Figure;
      subSpans, subCursorX, under := PlaceSubTrees(node, link, depth, cursorX, links, nodes);
      var subWidth := if |subSpans| > 0 then subCursorX - BRANCH_GAP - cursorX else 0;
      slotWidth := if subWidth > ECU_WIDTH then subWidth else ECU_WIDTH;
      ghost var own := DrawOwnBox(node, depth, cursorX, slotWidth, subSpans);
      PlacedUnderBox(links, nodes, under, own, cursorX, subCursorX - BRANCH_GAP, cursorX + slotWidth, depth,
                     old(visited), visited, link.id, node, subSpans);
      BoxOverSubTrees(links, nodes, node, old(visited), visited, cursorX, subCursorX, depth, subSpans, under, slotWidth, own);
      JoinAssociates(old(Drawn()), under, own);
      drawn := Join(under, own);
    }

    /** One ECU's own strokes: a box, a stem above it, and an elbow for every sub-tree. */
    method DrawOwnBox(node: Node, depth: nat, cursorX: int, slotWidth: int, subSpans: seq<Span>) returns (ghost own: Figure)
      requires ECU_WIDTH <= slotWidth && slotWidth % 2 == 0 && cursorX % 2 == 0
      requires SpansFit(subSpans, cursorX, cursorX + slotWidth)
      modifies this`ecus, this`segments
      ensures Drawn() == Join(old(Drawn()), own)
      ensures OwnBox(own, node, cursorX, cursorX + slotWidth, depth)
      ensures Connects(own.segments, own.ecus[0], subSpans, depth)
      ensures own == BoxFigure(node, cursorX, slotWidth, subSpans, depth)
    {
      var busY := MARGIN_X + TESTER_HEIGHT + depth * ROW_HEIGHT;
      var ecuY := busY + STEM_ABOVE;
      var ecuX := cursorX + (slotWidth - ECU_WIDTH) / 2;
      var ecuCentreX := ecuX + ECU_WIDTH / 2;
      ghost var box := PlacedEcu(node, ecuX, ecuY);
      hide Strokes, Connects, OwnBox, SpansFit, BoxFigure, Elbow, Join;
      ecus := ecus + [PlacedEcu(node, ecuX, ecuY)];
      segments := segments + [Segment(ecuCentreX, busY, ecuCentreX, ecuY, !node.isEnabled)];
      StemFirst(box, depth);
      for k := 0 to |subSpans|
        invariant segments == old(segments) + Strokes(box, subSpans[..k], depth) && ecus == old(ecus) + [box]
      {
        var subBusY := busY + ROW_HEIGHT;
        var subCentreX := subSpans[k].x0 + subSpans[k].width / 2;
        var elbowY := ecuY + ECU_HEIGHT + STEM_BELOW / 2;
        ElbowNext(old(segments), box, subSpans, k, depth);
        segments := segments + [Segment(ecuCentreX, ecuY + ECU_HEIGHT, ecuCentreX, elbowY, !node.isEnabled),
                                Segment(ecuCentreX, elbowY, subCentreX, elbowY, !node.isEnabled),
                                Segment(subCentreX, elbowY, subCentreX, subBusY, !node.isEnabled)];
      }
      assert subSpans[..|subSpans|] == subSpans;
      own := BoxFigure(node, cursorX, slotWidth, subSpans, depth);
      BoxIsOwn(node, cursorX, slotWidth, subSpans, depth);
      BoxJoins(old(Drawn()), node, cursorX, slotWidth, subSpans, depth);
    }

    /** The sub-trees behind one gateway, side by side; a link already entered takes no room. */
    method PlaceSubTrees(node: Node, link: Link, depth: nat, cursorX: int, links: seq<Link>, nodes: seq<Node>)
      returns (subSpans: seq<Span>, subCursorX: int, ghost drawn: Figure)
      requires node in nodes && node.linkId == Some(link.id) && link.id in visited && cursorX % 2 == 0
      modifies this`buses, this`ecus, this`testers, this`segments, this`visited
      ensures Drawn() == Join(old(Drawn()), drawn)
      ensures subCursorX % 2 == 0 && cursorX <= subCursorX && (subSpans == [] ==> subCursorX == cursorX)
      ensures SpansFit(subSpans, cursorX, subCursorX - BRANCH_GAP)
      ensures Placed(links, nodes, drawn, cursorX, subCursorX - BRANCH_GAP, depth + 1, old(visited), visited, link.id, [])
      ensures SpansDrawn(subSpans, drawn, depth + 1) && SpansListed(links, subSpans, node, |links|)
      ensures old(visited) <= visited
      ensures AllEntered(links, node, visited)
      ensures UnderDone(links, nodes, SubLinks(links, node), old(visited), visited, cursorX, subCursorX, depth + 1, subSpans, drawn)
      decreases |LinkIds(links) - visited|, 1
    {
      hide SubTreesPlaced, Placed, SubLinks, Join, TreeDone, OnBus, LinkIds, AllEntered, BusY, EcuY;
      var subLinks := SubLinks(links, node);
      subSpans, subCursorX, drawn := [], cursorX, BLANK;
      JoinAssociates(Drawn(), BLANK, BLANK);
      NoSubTreeYet(links, nodes, node, link.id, visited, cursorX, depth + 1);
      for k := 0 to |subLinks|
        invariant Drawn() == Join(old(Drawn()), drawn) && old(visited) <= visited
        invariant SubTreesPlaced(links, nodes, node, link.id, k, old(visited), visited, cursorX, subCursorX, depth + 1, subSpans, drawn)
      {
        FewerLeft(links, old(visited), visited);
        ghost var sofar, was, spans := drawn, visited, subSpans;
        var subWidth: int;
        ghost var part: Figure;
        SubTreesKnown(links, nodes, node, link.id, k, old(visited), visited, cursorX, subCursorX, depth + 1, subSpans, drawn);
        subWidth, part := PlaceBus(subLinks[k], depth + 1, subCursorX, links, nodes);
        JoinAssociates(old(Drawn()), sofar, part);
        if subWidth > 0 {
          OneMoreSubTree(links, nodes, node, link.id, k, old(visited), was, visited, cursorX, subCursorX, depth + 1, spans, sofar,
                         subWidth, part);
          subSpans := subSpans + [Span(subLinks[k], subCursorX, subWidth)];
          subCursorX := subCursorX + subWidth + BRANCH_GAP;
          drawn := Join(sofar, part);
        } else {
          SubTreeIsElsewhere(links, nodes, node, link.id, k, old(visited), visited, cursorX, subCursorX, depth + 1, spans, sofar);
          JoinAssociates(sofar, BLANK, BLANK);
        }
      }
      SubTreesComplete(links, nodes, node, link.id, old(visited), visited, cursorX, subCursorX, depth + 1, subSpans, drawn);
    }
  }

  // ---------------------------------------------------------------- sub-trees, one after the other

  /** All that holds once the first `k` links behind a gateway have been dealt with. */
  ghost predicate SubTreesPlaced(links: seq<Link>, nodes: seq<Node>, node: Node, own: string, k: nat, before: set<string>, after: set<string>,
                                 x: int, cursor: int, depth: nat, spans: seq<Span>, f: Figure) {
    && k <= |SubLinks(links, node)| && own in before && before <= after
    && cursor % 2 == 0 && x <= cursor && (spans == [] ==> cursor == x)
    && SpansFit(spans, x, cursor - BRANCH_GAP) && SpansDrawn(spans, f, depth) && SpansListedTo(links, spans, node, k)
    && Placed(links, nodes, f, x, cursor - BRANCH_GAP, depth, before, after, own, [])
    && UnderDone(links, nodes, SubLinks(links, node)[..k], before, after, x, cursor, depth, spans, f)
    && forall j :: 0 <= j < k ==> SubLinks(links, node)[j].id in after
  }

  /** The place of the link picked next, or the end of the list. */
  ghost function PlaceAfter(links: seq<Link>, places: seq<nat>, k: nat): (upto: nat)
    ensures upto <= |links|
  {
    if k < |places| && places[k] <= |links| then places[k] else |links|
  }

  /** The spans are listed before the place of the next link behind the gateway. */
  ghost predicate SpansListedTo(links: seq<Link>, spans: seq<Span>, node: Node, k: nat) {
    exists places ::
      PickedAt(links, SubLinks(links, node), places) && SpansListed(links, spans, node, PlaceAfter(links, places, k))
  }

  lemma NoSubTreeYet(links: seq<Link>, nodes: seq<Node>, node: Node, own: string, visited: set<string>, x: int, depth: nat)
    requires own in visited && x % 2 == 0
    ensures SubTreesPlaced(links, nodes, node, own, 0, visited, visited, x, x, depth, [], BLANK)
  {
    hide Placed, SpansListed, SubLinks, UnderDone, PickedAt;
    var places := SubLinkPlaces(links, node);
    PickedParts(links, SubLinks(links, node), places);
    NoSpansListed(links, node);
    SpansListedFurther(links, [], node, 0, PlaceAfter(links, places, 0));
    NothingSpanned(depth, x, x - BRANCH_GAP);
    NothingDone(links, nodes, visited, x, depth);
    PlacedNothing(links, nodes, x, x - BRANCH_GAP, depth, visited, own);
    assert SubLinks(links, node)[..0] == [];
  }

  lemma SubTreesKnown(links: seq<Link>, nodes: seq<Node>, node: Node, own: string, k: nat, before: set<string>, after: set<string>,
                      x: int, cursor: int, depth: nat, spans: seq<Span>, f: Figure)
    requires SubTreesPlaced(links, nodes, node, own, k, before, after, x, cursor, depth, spans, f)
    ensures cursor % 2 == 0 && k <= |SubLinks(links, node)|
  {
    hide Placed, SpansListedTo, SubLinks, UnderDone, SpansDrawn, SpansFit;
  }

  lemma ListedOneFurther(links: seq<Link>, spans: seq<Span>, node: Node, k: nat)
    requires k < |SubLinks(links, node)| && SpansListedTo(links, spans, node, k)
    ensures SpansListedTo(links, spans, node, k + 1)
  {
    hide SpansListed, SubLinks;
    var places :| PickedAt(links, SubLinks(links, node), places) && SpansListed(links, spans, node, PlaceAfter(links, places, k));
    SpansListedFurther(links, spans, node, places[k], PlaceAfter(links, places, k + 1));
  }

  lemma ListedOneMore(links: seq<Link>, spans: seq<Span>, span: Span, node: Node, k: nat, lo: int)
    requires k < |SubLinks(links, node)| && SpansListedTo(links, spans, node, k)
    requires span.link == SubLinks(links, node)[k] && SpansFit(spans, lo, span.x0 - BRANCH_GAP)
    ensures SpansListedTo(links, spans + [span], node, k + 1)
  {
    hide SpansListed, SubLinks, SpansFit;
    var places :| PickedAt(links, SubLinks(links, node), places) && SpansListed(links, spans, node, PlaceAfter(links, places, k));
    SpanListedToo(links, spans, span, node, places[k], lo);
    SpansListedFurther(links, spans + [span], node, places[k] + 1, PlaceAfter(links, places, k + 1));
  }

  lemma OneMoreSubTree(links: seq<Link>, nodes: seq<Node>, node: Node, own: string, k: nat, before: set<string>, was: set<string>, after: set<string>,
                       x: int, cursor: int, depth: nat, spans: seq<Span>, f: Figure, width: int, g: Figure)
    requires node in nodes && node.linkId == Some(own) && k < |SubLinks(links, node)|
    requires SubTreesPlaced(links, nodes, node, own, k, before, was, x, cursor, depth, spans, f)
    requires var sub := SubLinks(links, node)[k];
             && sub.id !in was && sub.id in after && ECU_WIDTH <= width && width % 2 == 0
             && Placed(links, nodes, g, cursor, cursor + width, depth, was, after, sub.id, [])
             && PlacedBus(sub, cursor, cursor + width, BusY(depth)) in g.buses
             && TreeDone(links, nodes, sub, was, after, cursor, width, depth, g)
    ensures before <= after
    ensures SubTreesPlaced(links, nodes, node, own, k + 1, before, after, x, cursor + width + BRANCH_GAP, depth,
                           spans + [Span(SubLinks(links, node)[k], cursor, width)], Join(f, g))
  {
    hide Placed, SpansListedTo, SubLinks, UnderDone, TreeDone, SpansDrawn, SpansFit, Join, Leads;
    var subs := SubLinks(links, node);
    var span := Span(subs[k], cursor, width);
    GatewayLeads(links, nodes, node, own, subs[k]);
    assert NO_NODES + NO_NODES == NO_NODES;
    PlacedBelow(links, nodes, g, cursor, cursor + width, depth, was, after, own, subs[k].id);
    PlacedBeside(links, nodes, f, g, x, cursor - BRANCH_GAP, cursor, cursor + width, depth, before, was, after, own, NO_NODES, NO_NODES);
    PlacedGrows(links, nodes, g, cursor, cursor + width, depth, was, after, own, NO_NODES);
    SpanFitsToo(spans, span, x, cursor - BRANCH_GAP, cursor + width);
    SpanDrawnToo(spans, span, f, g, depth);
    ListedOneMore(links, spans, span, node, k, x);
    SubTreeDrawn(links, nodes, subs, k, before, was, after, x, cursor, depth, spans, f, width, g);
  }

  lemma SubTreeIsElsewhere(links: seq<Link>, nodes: seq<Node>, node: Node, own: string, k: nat, before: set<string>, after: set<string>,
                           x: int, cursor: int, depth: nat, spans: seq<Span>, f: Figure)
    requires k < |SubLinks(links, node)| && SubLinks(links, node)[k].id in after
    requires SubTreesPlaced(links, nodes, node, own, k, before, after, x, cursor, depth, spans, f)
    ensures SubTreesPlaced(links, nodes, node, own, k + 1, before, after, x, cursor, depth, spans, f)
  {
    hide Placed, SpansListedTo, SubLinks, UnderDone, SpansDrawn, SpansFit;
    ListedOneFurther(links, spans, node, k);
    SubTreeSkipped(links, nodes, SubLinks(links, node), k, before, after, x, cursor, depth, spans, f);
  }

  lemma SubTreesComplete(links: seq<Link>, nodes: seq<Node>, node: Node, own: string, before: set<string>, after: set<string>,
                         x: int, cursor: int, depth: nat, spans: seq<Span>, f: Figure)
    requires SubTreesPlaced(links, nodes, node, own, |SubLinks(links, node)|, before, after, x, cursor, depth, spans, f)
    ensures cursor % 2 == 0 && x <= cursor && (spans == [] ==> cursor == x)
    ensures SpansFit(spans, x, cursor - BRANCH_GAP) && SpansDrawn(spans, f, depth) && SpansListed(links, spans, node, |links|)
    ensures Placed(links, nodes, f, x, cursor - BRANCH_GAP, depth, before, after, own, [])
    ensures UnderDone(links, nodes, SubLinks(links, node), before, after, x, cursor, depth, spans, f)
    ensures AllEntered(links, node, after)
  {
    hide Placed, SpansListed, SubLinks, UnderDone, SpansDrawn, SpansFit, AllEntered;
    var subs := SubLinks(links, node);
    assert subs[..|subs|] == subs;
    SubLinksEntered(links, node, after);
    var places :| PickedAt(links, subs, places) && SpansListed(links, spans, node, PlaceAfter(links, places, |subs|));
  }

  lemma StemFirst(box: PlacedEcu, depth: nat)
    ensures Strokes(box, [], depth) == [Segment(box.x + ECU_WIDTH / 2, BusY(depth), box.x + ECU_WIDTH / 2, box.y, !box.node.isEnabled)]
  {
  }

  lemma ElbowNext(before: seq<Segment>, box: PlacedEcu, spans: seq<Span>, k: nat, depth: nat)
    requires k < |spans|
    ensures var centre, bend := spans[k].x0 + spans[k].width / 2, box.y + ECU_HEIGHT + STEM_BELOW / 2;
            before + Strokes(box, spans[..k], depth)
            + [Segment(box.x + ECU_WIDTH / 2, box.y + ECU_HEIGHT, box.x + ECU_WIDTH / 2, bend, !box.node.isEnabled),
               Segment(box.x + ECU_WIDTH / 2, bend, centre, bend, !box.node.isEnabled),
               Segment(centre, bend, centre, BusY(depth + 1), !box.node.isEnabled)]
            == before + Strokes(box, spans[..k + 1], depth)
  {
    assert spans[..k + 1][..k] == spans[..k];
  }

  lemma BoxJoins(f: Figure, node: Node, x: int, width: nat, spans: seq<Span>, depth: nat)
    requires ECU_WIDTH <= width
    ensures var box := PlacedEcu(node, x + (width - ECU_WIDTH) / 2, EcuY(depth));
            && BoxFigure(node, x, width, spans, depth).ecus == [box]
            && Join(f, BoxFigure(node, x, width, spans, depth))
               == Figure(f.buses, f.ecus + [box], f.testers, f.segments + Strokes(box, spans, depth))
  {
    hide Strokes;
    assert f.buses + [] == f.buses && f.testers + [] == f.testers;
  }

  /** The strokes drawn are the stem and elbows they should be, inside the slot. */
  lemma BoxIsOwn(node: Node, x: int, width: nat, spans: seq<Span>, depth: nat)
    requires ECU_WIDTH <= width && width % 2 == 0 && SpansFit(spans, x, x + width)
    ensures OwnBox(BoxFigure(node, x, width, spans, depth), node, x, x + width, depth)
    ensures var own := BoxFigure(node, x, width, spans, depth); Connects(own.segments, own.ecus[0], spans, depth)
  {
    hide Strokes, SpansFit, Connects;
    StrokesConnect(BoxFigure(node, x, width, spans, depth).ecus[0], spans, x, x + width, depth);
  }

  lemma {:induction false} StrokesConnect(box: PlacedEcu, spans: seq<Span>, lo: int, hi: int, depth: nat)
    requires SpansFit(spans, lo, hi) && lo <= box.x && box.x + ECU_WIDTH <= hi && box.y == EcuY(depth)
    ensures Connects(Strokes(box, spans, depth), box, spans, depth)
    ensures forall s :: s in Strokes(box, spans, depth) ==>
              SegmentFits(s, lo, hi, depth) && s.y0 <= BusY(depth + 1) && s.y1 <= BusY(depth + 1)
    decreases |spans|
  {
    hide SpansFit, Connects;
    if spans == [] {
      StemConnects(box, depth);
    } else {
      var n := |spans| - 1;
      FewerSpansFit(spans, n, lo, hi);
      StrokesConnect(box, spans[..n], lo, hi, depth);
      ElbowDrops(box, spans[n], lo, hi, depth);
      assert spans[..n + 1] == spans;
      ConnectsOneMore(Strokes(box, spans[..n], depth), Elbow(box, spans[n], depth), box, spans, n, depth);
    }
  }

  lemma StemConnects(box: PlacedEcu, depth: nat)
    ensures Connects([Segment(box.x + ECU_WIDTH / 2, BusY(depth), box.x + ECU_WIDTH / 2, box.y, !box.node.isEnabled)], box, [], depth)
  {
  }

  lemma FewerSpansFit(spans: seq<Span>, n: nat, lo: int, hi: int)
    requires n < |spans| && SpansFit(spans, lo, hi)
    ensures SpansFit(spans[..n], lo, hi)
    ensures lo <= spans[n].x0 && 0 <= spans[n].width && spans[n].width % 2 == 0 && spans[n].x0 + spans[n].width <= hi
  {
  }

  lemma ElbowDrops(box: PlacedEcu, span: Span, lo: int, hi: int, depth: nat)
    requires lo <= box.x && box.x + ECU_WIDTH <= hi && box.y == EcuY(depth)
    requires lo <= span.x0 && 0 <= span.width && span.width % 2 == 0 && span.x0 + span.width <= hi
    ensures var elbow := Elbow(box, span, depth);
            && Drops(elbow[0], elbow[1], elbow[2], box, span, depth)
            && forall s :: s in elbow ==> SegmentFits(s, lo, hi, depth) && s.y0 <= BusY(depth + 1) && s.y1 <= BusY(depth + 1)
  {
  }

  lemma ConnectsOneMore(strokes: seq<Segment>, elbow: seq<Segment>, box: PlacedEcu, spans: seq<Span>, k: nat, depth: nat)
    requires k < |spans| && Connects(strokes, box, spans[..k], depth)
    requires |elbow| == 3 && Drops(elbow[0], elbow[1], elbow[2], box, spans[k], depth)
    ensures Connects(strokes + elbow, box, spans[..k + 1], depth)
  {
    hide Drops;
  }

  lemma NothingSpanned(depth: nat, lo: int, hi: int)
    ensures SpansDrawn([], BLANK, depth) && SpansFit([], lo, hi)
  {
  }

  lemma PlanIsDrawn(links: seq<Link>, nodes: seq<Node>, cursor: int, f: Figure)
    requires RootsDone(links, nodes, Roots(links), cursor, f)
    ensures f == PaintForest(PlanOf(links, nodes), 2 * BRANCH_GAP, MARGIN_X, 0)
    ensures SomeTesterOverlaps(f) <==> Clashes(PlanOf(links, nodes))
    ensures NoEntryPointBelow(links, nodes) ==> !SomeTesterOverlaps(f)
  {
    if NoEntryPointBelow(links, nodes) { NoEntryPointBelowNoClash(links, nodes); }
    ForestOverlapsExactly(PlanOf(links, nodes), 2 * BRANCH_GAP, MARGIN_X, 0);
  }

  lemma NothingDrawn(links: seq<Link>, nodes: seq<Node>, lo: int, hi: int)
    ensures Fits(BLANK, lo, hi, 0) && Apart(BLANK) && AllHeld(BLANK, 0) && Complete(links, nodes, BLANK, [])
  {
  }

  lemma PlacedParts(links: seq<Link>, nodes: seq<Node>, f: Figure, lo: int, hi: int, depth: nat,
                    before: set<string>, after: set<string>, own: string)
    requires Placed(links, nodes, f, lo, hi, depth, before, after, own, [])
    ensures Fits(f, lo, hi, depth) && Apart(f) && AllHeld(f, depth) && TestersStand(f) && Stroked(links, f)
    ensures Shows(nodes, f, before, after, own, []) && Grew(links, nodes, own, before, after)
  {
  }

  lemma PlacedGrows(links: seq<Link>, nodes: seq<Node>, f: Figure, lo: int, hi: int, depth: nat,
                    before: set<string>, after: set<string>, own: string, ownNodes: seq<Node>)
    requires Placed(links, nodes, f, lo, hi, depth, before, after, own, ownNodes)
    ensures before <= after
  {
  }

  lemma GatewayLeads(links: seq<Link>, nodes: seq<Node>, node: Node, above: string, sub: Link)
    requires node in nodes && node.linkId == Some(above) && sub in links && sub.id in node.gatewayForLinkIds
    ensures Leads(links, nodes, above, sub.id)
  {
  }

  lemma BusesBelowBoth(f: Figure, g: Figure, depth: nat)
    requires BusesBelow(f, depth) && BusesBelow(g, depth)
    ensures BusesBelow(Join(f, g), depth)
  {
  }

  lemma AllLedTo(links: seq<Link>, nodes: seq<Node>, link: Link, visited: set<string>)
    requires forall j, b ::
               0 <= j < |OnBus(nodes, link.id)| && b in LinkIds(links) && b in OnBus(nodes, link.id)[j].gatewayForLinkIds
               ==> b in visited
    ensures forall b :: Leads(links, nodes, link.id, b) ==> b in visited
  {
    forall b | Leads(links, nodes, link.id, b) ensures b in visited {
      var n :| n in nodes && n.linkId == Some(link.id) && b in n.gatewayForLinkIds;
      var j :| 0 <= j < |OnBus(nodes, link.id)| && OnBus(nodes, link.id)[j] == n;
    }
  }
}
