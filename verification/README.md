# Vehicle simulation engine: models and proofs

A Dafny 4.11 model of the parts of the engine where several algorithms have to agree, where state lives across
calls, or where a printed form has to be read back. `dafny verify dfyconfig.toml` checks everything.

**Wiring** (`Wiring`, `WiringSearch`, `WiringSteps`, `WiringTheorems`, `Vehicle`). A vehicle is networks and ECUs;
an ECU may sit on one network and forward onto others. `Vehicle` holds the four algorithms in the shape the engine
runs them: the validator, the entry-point normaliser, the breadth-first depth map and the bounded upward walk.
`Wiring` says what they mean without any search: a forwarding chain, the shortest one, being one's own ancestor.
The theorems connect them: on accepted wiring the map and the walk agree everywhere *exactly* when the first
network of every repeated id decides as any of them does (unique ids are enough), the hop limit decides nothing,
and power changes nobody's path.

**Diagram layout** (`Layout`, `Plan`, `Order`, `Canvas`, `Diagram`). The recursive placement, drawing as it goes
with a visited set shared by sibling recursions. A root's walk enters exactly the links reachable from it; each is
drawn once per root reaching it with its own ECUs in order, every entry point's bus with its tester and every box
with its strokes; no two boxes of a row overlap and everything lies on the canvas, on any wiring, cyclic or not.
`Plan` is the tree such a walk settles on, with the room each part needs: the drawing is that tree's, and a tester
overlaps a box exactly where the tree's widths say so. `Order` reads the lists back off the drawing: roots, buses
below a box and boxes on a bus stand left to right as they are listed. `Diagram` ties the links to the vehicle and
its depth map and says exactly which networks are drawn, and how often.

**CAN bridge** (`CanFrames`, `Arrivals`, `Pacing`, `Handlings`, `Requests`, `Listening`, `Bridge`). The inbound
queue, the frames set aside while an answer waits for flow control, and their restoration. The bus is a script of
what each poll brings, the simulation a script of its replies. A ghost log names every frame handed over, with the
endpoints and the turn it met, and how many arrivals the wait it caused looked at. In every run the fate of every
arrival follows from that log exactly: it is kept unless some wait that looked at it had a reason to remove it, and
the kept ones are handed over in arrival order; everything sent was put out by the frames handed over, in turn.
`Listening` says how each transfer ends: as it does for a transmitter that hears just the flow control among the
frames looked at before the deadline. So until the script runs out, a run has cut short no more replies than
deadlines have passed and flow control frames been taken. `Pacing` is the separation time a slow host link asks
for.

**ISO-TP** (`IsoTp`, `IsoTpTheorems`, `IsoTpLoss`, `IsoTpLink`, `IsoTpCapture`, `IsoTpRuns`). Transmitter, receiver
and capture reader, each as a step on values and as the object or loop the engine runs: what is sent is independent
of the peer, what is sent is what is received, transfers between the two ends complete exactly when the receiver
can take them, and reading live agrees with reading a capture on exactly the plain frames. On any frames at all,
what either reader finds is exactly what `IsoTpRuns` says those frames give. Losing frames never corrupts a message
for a receiver that starts afresh; for a receiver an earlier loss left in the middle of another message,
`IsoTpLoss` says exactly when the two are taken for one.

**Live traffic** (`Traffic`). A bounded history ring and a bounded broadcast under one lock; every interleaving of
publishers, attaching monitors and slow readers is a list of steps.

**DoIP connections** (`DoIp`). The activation decision and the two timers of ISO 13400-2:2019 clause 12.6, and a
table of connections whose flags are computed from one another.

**Overrides and text** (`Overrides`, `Hex`, `WireForm`, `Spellings`). Masked matching, the choice of the most
specific override, validation, echo spans, and the printed forms of overrides, security levels and ECU handles; and
which texts the three byte readers and the handle reader take for the same.

**Bus meters** (`BusLoad`, `Confinement`). Streaming one-second buckets against the whole history they summarise,
and the exact set of states a node's error counters can show (ISO 11898-1 clauses 10.4 and 12.1).

Findings. An id declared twice and marked only on its second network makes the depth map and the upward walk
disagree (`RepeatedIdDisagrees`). An accepted override can answer with a response that no longer answers its
request, because echo spans may write the bytes that make it an answer: the first byte (`EchoCanOverwriteTheSid`),
the service a refusal names (`EchoCanRenameTheService`) or its reason, turning it into ResponsePending
(`EchoCanPend`); `AnswersExactly` gives the exact condition. A message that loses its last frame followed by one
that loses its first is delivered as a message nobody sent, because the receiver has no timeout of its own
(`HeadAndTailMix`, `LossDeliversExactly`). Losing sixteen consecutive frames in a row shows in no sequence number,
only in the missing length (`GapIsReportedModulo16`). Reading hex indexes out of range on text with an even number
of bytes and an odd number of characters (`AccentedLetterPanics`, `PanicsExactly`). Below eight frames a second
even the separation time returned is too fast for the link (`SlowLinkDoesNotFit`, `SafeTimeIsTight`). An echo span
whose end wraps around a machine word passes validation and makes building the response panic (`WrappedSpanPanics`,
`ValidatedSpansAllApply`). A pattern that mixes cases in a wildcard, `xX`, is refused though `xx` and `XX` are read
(`MixedXIsRefused`, `PatternCaseMattersExactly`).

`AddEcu` (engine/crates/simulation/src/lib.rs:578-608) takes an ECU without validating the wiring. On such wiring a
network behind an undeclared one has a depth and is drawn nowhere (`UndeclaredHidesNetworks`; `DrawnExactly` is the
condition for being drawn), and the hop limit can cut off a walk (`UndeclaredReachesTheLimit`,
`HopLimitBitesExactly`). On accepted wiring the tester of an entry point behind another one can cover the box of
the gateway between them (`MarkedBehindMarkedClashes`); where the engine chose the entry points none does
(`NormalizedNeverClashes`), and `ForestOverlapsExactly` is the exact condition.

Where a comment and the code disagree the model follows the code. The hop count of an unreachable ECU is the number
of gateways met before the walk gave up, though 0 is documented as "on an entry-point link"
(engine/crates/core-domain/src/model.rs:1668); `ZeroHopsExactly` is what 0 means. A refusal for want of a free
socket is an outcome of its own, coded 0x01, which engine/crates/doip-server/src/entity.rs:368 calls 0x04. The 135
bits a frame is taken to cost the bus are said to be a 29-bit frame's, stuffing included
(engine/crates/bridge/src/lib.rs:646); they are an 11-bit frame's, and a 29-bit one takes up to 160
(`BusFrameIsTheWorst`).

## Model

| member | source | states |
|---|---|---|
| `Vehicles.Vehicle.ValidateTopology` | engine/crates/core-domain/src/model.rs:1688-1717 | accepts if and only if every reference is declared, no ECU forwards onto its own network, no network is claimed twice and none is its own ancestor; every refusal names a real culprit |
| `Vehicles.Vehicle.RejectSharedGateways` | engine/crates/core-domain/src/model.rs:1723-1744 | refuses exactly when some network is claimed twice (also twice by one ECU), naming two real claims, the earlier one first |
| `Vehicles.Vehicle.RejectGatewayCycles` | engine/crates/core-domain/src/model.rs:1749-1776 | accepts only when every walk upward ends; a refusal carries a walk along real upstream edges whose last network is already on it |
| `Wiring.LoopReportRefutes` | engine/crates/core-domain/src/model.rs:1749-1776 | a reported walk really is a cycle: some declared network is its own ancestor |
| `WiringSteps.EndingWalksAreAcyclic` | engine/crates/core-domain/src/model.rs:1749-1776 | walks that all end leave no network its own ancestor, so acceptance is exact |
| `Vehicles.Vehicle.NormalizeEntryPoints` | engine/crates/core-domain/src/model.rs:1781-1808 | an explicit choice stands untouched; otherwise exactly the networks nothing forwards onto are marked, and nothing else changes |
| `Vehicles.Vehicle.NetworkDepths` | engine/crates/core-domain/src/model.rs:1813-1841 | on any vehicle, valid or not, terminates with the length of the shortest forwarding chain from a tester, and omits exactly the networks no chain reaches |
| `WiringSearch.Discover` | engine/crates/core-domain/src/model.rs:1824-1838 | recording one more network keeps the search invariant: witnessed chains, a frontier in depth order at most two deep, everything off it expanded |
| `WiringSearch.NoChainIsShorter` | engine/crates/core-domain/src/model.rs:1813-1841 | with an empty frontier no chain at all is shorter than the recorded depth |
| `WiringSearch.SearchIsExact` | engine/crates/core-domain/src/model.rs:1813-1841 | an exhausted search has found the shortest depths, in both directions |
| `Vehicles.Vehicle.DiagnosticPathTo` | engine/crates/core-domain/src/model.rs:1848-1907 | the loop with its two growing name lists computes the path that the theorems below describe |
| `Wiring.ClimbIsChain` | engine/crates/core-domain/src/model.rs:1858-1905 | an arriving walk, reversed, is a forwarding chain from a tester, each gateway sitting on one network of it and forwarding onto the next |
| `Wiring.ArrivalIsShort` | engine/crates/core-domain/src/model.rs:1858-1905 | an arriving walk crosses fewer gateways than there are networks (distinct remaining counts, then pigeonhole) |
| `WiringTheorems.HopLimitBitesExactly` | engine/crates/core-domain/src/model.rs:1858-1905 | on any wiring, a walk that arrives under some limit arrives, identically, under `networks + 1` if and only if it crosses no more gateways than networks are declared; with every reference declared that always holds |
| `WiringTheorems.UndeclaredReachesTheLimit` | engine/crates/core-domain/src/model.rs:1858-1905 | a walk from an undeclared network, past another one, that the limit cuts off |
| `WiringTheorems.WalkAgreesWithDepths` | engine/crates/core-domain/src/model.rs:1813-1907 | the walk arrives exactly at the networks in the depth map, over exactly as many hops |
| `WiringTheorems.AgreementExactly` | engine/crates/core-domain/src/model.rs:1813-1907 | on accepted wiring map and walk agree everywhere if and only if, wherever a network of an id takes a tester, the first network of that id does |
| `WiringTheorems.UniqueIdsDecide` | engine/crates/core-domain/src/model.rs:1813-1907 | unique network ids are enough for that condition |
| `WiringTheorems.RepeatedIdDisagrees` | engine/crates/core-domain/src/model.rs:1813-1907 | an accepted vehicle on which the two algorithms disagree |
| `WiringTheorems.PathMatchesDepths` | engine/crates/core-domain/src/model.rs:1813-1907 | wherever the first match decides, reachability and hop count of an ECU are its network's entry in the map, and the names are those of a real chain of gateways, tester first |
| `WiringTheorems.ZeroHopsExactly` | engine/crates/core-domain/src/model.rs:1658-1907 | the hop count is 0 exactly for an ECU on no network, one where the walk stops at once, and one whose network has no tester and no gateway; reachable with 0 hops are exactly the first two |
| `WiringTheorems.DepthsAreUnique` | engine/crates/core-domain/src/model.rs:1813-1841 | there is only one map of shortest depths, so the specification leaves no choice |
| `WiringTheorems.NormalizingTwiceIsOnce` | engine/crates/core-domain/src/model.rs:1781-1808 | normalising an already normalised vehicle changes nothing |
| `WiringTheorems.ReachableUnlessUnplaced` | engine/crates/core-domain/src/model.rs:1781-1907 | after normalising an accepted unmarked vehicle an ECU is unreachable exactly when the walk up from it ends at a gateway on no network |
| `WiringTheorems.NormalizingReachesAll` | engine/crates/core-domain/src/model.rs:1781-1907 | with every gateway placed, every ECU becomes reachable |
| `WiringTheorems.PowerChangesNoWiring` | engine/crates/core-domain/src/model.rs:1688-1907 | switching ECUs on or off changes no verdict, no depth, and no path except who blocks it |
| `WiringTheorems.BlockedByNearestToTester` | engine/crates/core-domain/src/model.rs:1879-1905 | an ECU is blocked exactly when a gateway on its path is off, and the one named is the off gateway nearest the tester |
| `WiringTheorems.OneGatewayOff` | engine/crates/core-domain/src/model.rs:1848-1907 | one gateway going off newly blocks exactly the unblocked ECUs with it on their path, and is the one named |
| `Canvases.Canvas.BuildLayout` | ui/src/features/TopologyDiagram.tsx:289-318 | every link is drawn once per root reaching it; on every bus line drawn hangs one box for each ECU listed on its link and nothing else, each ending a gap left of the next one listed; the top row is one bus per root, in list order; each entry point drawn has its one tester at its bus's right end and each box its joined strokes to buses, in list order, of links it forwards onto; no two boxes of a row nor bus lines of a depth come closer than the gap; everything lies on the canvas, which is no larger than that takes; some tester overlaps some box exactly where the plan of links and nodes clashes, and nowhere if no ECU on a listed link forwards onto an entry point |
| `Orders.PlanKeepsEcuOrder` | ui/src/features/TopologyDiagram.tsx:342-412 | what is drawn of a plan shows on each bus the ECUs of its link by their places in the list, left to right, no box twice and none without a bus |
| `Orders.PlanKeepsRootOrder` | ui/src/features/TopologyDiagram.tsx:302-310 | and in the top row the roots by their places in the list, two branch gaps apart |
| `Orders.EcusOnPlaces` | ui/src/features/TopologyDiagram.tsx:290-342 | filtering the ECUs and then those of one link picks exactly their places, in order |
| `Plans.ForestOverlapsExactly` | ui/src/features/TopologyDiagram.tsx:289-431 | in the drawing of any plan some tester overlaps some box if and only if, under some box, an entry point's bus ends more than half the spare width of the slot and less than that plus 222 from its left end |
| `Plans.HitsBoxExactly` | ui/src/features/TopologyDiagram.tsx:347-431 | of all testers drawn below a box only those of its own sub-trees' buses can reach it, and exactly which do |
| `Plans.NoEntryPointBelowNoClash` | ui/src/features/TopologyDiagram.tsx:289-431 | where no ECU on a listed link forwards onto an entry point no tester reaches a box |
| `Plans.TesterHidesGateway` | ui/src/features/TopologyDiagram.tsx:289-431 | entry points a and b, one ECU on a forwarding onto b: the bus of b is 146 wide and its tester overlaps that ECU's box |
| `Plans.GatewayDrawn` | ui/src/features/TopologyDiagram.tsx:289-431 | a gateway over two buses with an ECU beside it, drawn to the last line |
| `Layout.TesterOverlapsExactly` | ui/src/features/TopologyDiagram.tsx:418-431 | a tester reaches into the row of boxes right above its bus and no other |
| `Diagrams.DrawnExactly` | engine/crates/api/src/simulation.rs:1409-1456 | on any wiring, validated or not, a network is drawn if and only if a chain of gateways leads to it from a root through declared networks alone |
| `Diagrams.AllDrawnExactly` | engine/crates/api/src/simulation.rs:1395-1456 | every declared network is drawn if and only if there is an ECU (or no network) and each network with a depth has such a chain |
| `Diagrams.LeadsIsForwards` | ui/src/features/TopologyDiagram.tsx:347-359 | the drawing goes down exactly where some ECU forwards onto a declared network |
| `Diagrams.DrawnOnceExactly` | engine/crates/api/src/simulation.rs:1395-1456 | on an accepted vehicle with unique ids, once if and only if there is an ECU and the walk upward passes a single root |
| `Diagrams.UndeclaredHidesNetworks` | engine/crates/api/src/simulation.rs:1409-1456 | wiring whose shortest depths include a declared network that is drawn nowhere, its chain leading through an undeclared one |
| `Diagrams.NormalizedNeverClashes` | engine/crates/core-domain/src/model.rs:1781-1808 | where the engine chose the entry points no tester overlaps a box |
| `Diagrams.MarkedBehindMarkedClashes` | ui/src/features/TopologyDiagram.tsx:289-431 | an accepted vehicle, with the engine's depths, in whose diagram one does |
| `Diagrams.ReachesIsAncestry` | ui/src/features/TopologyDiagram.tsx:326-434 | what the drawing reaches downward is what the wiring walks upward |
| `Canvases.Canvas.PlaceBus` | ui/src/features/TopologyDiagram.tsx:326-434 | terminates on every wiring; draws nothing for an entered link, else exactly the tree planned for it with its width: the newly entered links inside its span, their successors along, testers and strokes included |
| `Canvases.Canvas.PlaceRow` | ui/src/features/TopologyDiagram.tsx:347-412 | the boxes of one bus as planned, each with its sub-trees beneath, side by side; afterwards everything the bus leads to has been entered |
| `Canvases.Canvas.PlaceNode` | ui/src/features/TopologyDiagram.tsx:347-412 | one gateway and its sub-trees fit the slot it reports |
| `Canvases.Canvas.PlaceSubTrees` | ui/src/features/TopologyDiagram.tsx:350-359 | the spans recorded are bus lines really drawn one row lower, inside the room taken, of links forwarded onto, left to right in list order with a branch gap between; links entered elsewhere take none |
| `Canvases.Canvas.DrawOwnBox` | ui/src/features/TopologyDiagram.tsx:361-409 | the box is centred over its slot, and joined strokes run from it to the middle of each span's bus line, dashed together |
| `Canvases.Canvas.DrawOwnBus` | ui/src/features/TopologyDiagram.tsx:414-431 | one line over the whole width, and a tester at its right end exactly on an entry point |
| `Layout.WalkVisitsReachable` | ui/src/features/TopologyDiagram.tsx:326-434 | a walk begun with nothing visited enters exactly the links reachable through gateways |
| `Layout.SideBySide` | ui/src/features/TopologyDiagram.tsx:326-434 | figures in disjoint spans stay apart and inside the joint span |
| `Layout.PlacedBeside` | ui/src/features/TopologyDiagram.tsx:347-412 | the shared visited set makes neighbouring parts of a row show disjoint links: together they show each once |
| `Layout.PlacedUnderBox` | ui/src/features/TopologyDiagram.tsx:347-412 | a box over its sub-trees keeps distance, span, depth and the once-each count |
| `Layout.PlacedOnBus` | ui/src/features/TopologyDiagram.tsx:326-434 | closing a bus turns its row and line into exactly one drawing of a newly entered link |
| `Layout.StrokedUnderBox` | ui/src/features/TopologyDiagram.tsx:361-409 | a box drawn over its sub-trees carries its strokes, ending on buses drawn one row lower that it forwards onto |
| `Layout.CompleteWithRoot` | ui/src/features/TopologyDiagram.tsx:302-310 | one more root adds one drawing of exactly the links it reaches |
| `Layout.HeldIsOnCanvas` | ui/src/features/TopologyDiagram.tsx:311-314 | the height taken from the lowest box alone is enough for every line and bus |
| `Bridge.CanBridge.FillInbound` | engine/crates/bridge/src/lib.rs:350-367 | what the poll brings joins the arrivals and the queue's tail, all of it kept; a failed read changes nothing |
| `Bridge.CanBridge.SortFrame` | engine/crates/bridge/src/lib.rs:579-599 | flow control on any owned identifier goes to the transmitter and is gone; a frame for the answering identifier is gone; every other frame is set aside; the exact account of all arrivals stays true |
| `Bridge.CanBridge.LookAtNext` | engine/crates/bridge/src/lib.rs:564-600 | one poll of a wait: the frame looked at, if it is flow control on an owned identifier, moves the transfer one step nearer the end it was bound for, and nothing else does |
| `Bridge.CanBridge.AwaitFlowControl` | engine/crates/bridge/src/lib.rs:557-602 | ends with a grant or one of four failures, whichever the flow control looked at before the deadline leads to; out of time only when the deadline passes or the script is over; what it removes is removed during the answer in progress |
| `Bridge.CanBridge.RestoreDeferredFrames` | engine/crates/bridge/src/lib.rs:540-554 | what was set aside is back ahead of the queue in arrival order, and nothing is left aside |
| `Bridge.CanBridge.SendBlock` | engine/crates/bridge/src/lib.rs:526-532 | sends consecutive frames until the block or the PDU ends, one bus frame each, staying on the PDU's own frame sequence |
| `Bridge.CanBridge.TransmitRest` | engine/crates/bridge/src/lib.rs:513-536 | success means every frame of the PDU went out; either way nothing stays aside |
| `Bridge.CanBridge.TransmitPdu` | engine/crates/bridge/src/lib.rs:500-536 | how it ends is determined by the flow control among the frames looked at before the deadline; what goes out is a beginning of the PDU's frames, all of them exactly on success; unsendable PDUs send nothing; nothing stays aside |
| `Listening.EnoughGrantsComplete` | engine/crates/bridge/src/lib.rs:500-602 | a transfer that sees nothing but grants, one per frame still to go, completes whatever the block sizes |
| `Listening.UnlimitedGrantCompletes` | engine/crates/bridge/src/lib.rs:500-602 | a single grant of unlimited size, seen first, completes any transfer |
| `Listening.SilenceTimesOut` | engine/crates/bridge/src/lib.rs:557-602 | a waiting transfer that sees no flow control before the deadline ends out of time |
| `Listening.TenWaitsChangeNothing` | engine/crates/isotp/src/tx.rs:203-216 | up to ten waits in front change nothing about how a transfer ends, for one that has counted none; from the eleventh it aborts with eleven counted, waits hidden behind frames too short included |
| `Listening.WaitsDecide` | engine/crates/isotp/src/tx.rs:203-216 | the waits counted so far matter exactly if those still in front bring them past ten |
| `Listening.GrantForgetsWaits` | engine/crates/isotp/src/tx.rs:180-201 | a grant starts the count afresh |
| `Listening.OtherStatusesAbort` | engine/crates/isotp/src/tx.rs:154-217 | status 2 aborts for overflow, 3 and above as that invalid status, and fewer than three bytes do nothing |
| `Listening.AnswersAreFlowControl` | engine/crates/bridge/src/lib.rs:679-681 | whatever a receiver answers with is flow control on the bus, and so is a wait |
| `Listening.MessagesAreNoFlowControl` | engine/crates/bridge/src/lib.rs:679-681 | no frame a message is sent in is flow control |
| `Listening.ReceiversGrantCompletes` | engine/crates/bridge/src/lib.rs:557-602 | a waiting transfer whose next frame is some receiver's unlimited grant on an owned identifier completes |
| `Bridge.CanBridge.FeedEndpoint` | engine/crates/bridge/src/lib.rs:405-445 | one endpoint's receiver takes the frame, its flow control goes out on the identifier that ECU answers on, others are untouched |
| `Requests.MessageIsRequested` | engine/crates/bridge/src/lib.rs:405-445 | frame by frame, an ECU with room for a message gets the request with its last frame and not before, and grants on its answering identifier after the first frame and every full block, no other endpoint noticing |
| `Requests.TooLongIsRefused` | engine/crates/bridge/src/lib.rs:405-445 | one without room answers the first frame with status 2 on that identifier |
| `Requests.OnlyItsReceiverHears` | engine/crates/bridge/src/lib.rs:405-445 | frames on one identifier move only the receiver listening there |
| `Handlings.AnsweredAreCounted` | engine/crates/bridge/src/lib.rs:336-401 | the count a pump reports is the number of frames that completed a request on a running simulation |
| `Bridge.CanBridge.AnswerRequest` | engine/crates/bridge/src/lib.rs:448-497 | the replies go out one after the other, each a beginning of its frames on its own identifier |
| `Bridge.CanBridge.HandleFrame` | engine/crates/bridge/src/lib.rs:380-401 | a stopped simulation takes in and sends nothing; otherwise answers exactly when the frame completes a request; unless it answers no arrival is touched, and what an answer removes is removed on its own behalf; a reply is cut short only with cause |
| `Bridge.CanBridge.PumpOnce` | engine/crates/bridge/src/lib.rs:336-347 | polls at least once and ends with queue and deferred list empty; the frames ever handed over are the arrivals not removed, in arrival order, each meeting the endpoints its predecessor left; the exact account of removals and of everything sent holds; the count is that of requests answered |
| `Bridge.CanBridge.Run` | engine/crates/bridge/src/lib.rs:370-377 | the same over any number of pumps with any reconfigurations in between, and nothing removed except by the frames handed over meanwhile; until the script is over, no more replies have been cut short than deadlines passed plus flow control frames taken |
| `Bridge.CanBridge.EveryArrivalAccounted` | engine/crates/bridge/src/lib.rs:336-602 | after any run: an arrival was handed over, or a wait that looked at it, caused by an earlier answered request with a reply too long for one frame, took it as flow control on an identifier owned then or dropped it as a frame for the identifier being answered; it was kept if and only if it belonged elsewhere for every wait that looked at it |
| `Bridge.CanBridge.MessageFramesAreKept` | engine/crates/bridge/src/lib.rs:579-600 | an arrival that is a frame of some message is never taken as flow control, and is kept exactly if no wait that looked at it was answering on its identifier |
| `Handlings.FatesOfRemoval` | engine/crates/bridge/src/lib.rs:579-594 | removing the frame looked at keeps the account of every other arrival exact |
| `Handlings.FatesOfAside` | engine/crates/bridge/src/lib.rs:596-600 | setting the frame looked at aside does too |
| `Handlings.FatesOfMore` | engine/crates/bridge/src/lib.rs:350-367 | fresh arrivals are kept, and no wait has looked at them |
| `Handlings.PutOutNext` | engine/crates/bridge/src/lib.rs:380-497 | what one more frame puts out follows everything put out before |
| `Bridge.AnswerIsReceived` | engine/crates/bridge/src/lib.rs:500-536 | the bus frames of a successful transfer are turned back into that reply by any receiver with room, once, with the last frame |
| `Arrivals.RemoveKept` | engine/crates/bridge/src/lib.rs:579-594 | taking one frame off the kept arrivals removes exactly that one and keeps the order of the rest |
| `Arrivals.KeptOfMore` | engine/crates/bridge/src/lib.rs:350-367 | fresh arrivals stand behind everything kept before |
| `Pacing.SafeTimeIsTight` | engine/crates/bridge/src/lib.rs:649-676 | a returned time is 2 to 127 ms; it fits the link with a millisecond to spare exactly from eight frames a second, and then one millisecond less than it would not |
| `Pacing.SlowLinkDoesNotFit` | engine/crates/bridge/src/lib.rs:649-676 | a line speed on which the time returned still lets through more than the link carries |
| `Pacing.PacingObeysTheEcu` | engine/crates/bridge/src/lib.rs:249-305 | only an ECU asking for no pacing on a link slower than the bus is changed, only in its separation time, and what goes out is valid whenever what was configured is |
| `Pacing.ReservedIsSlowest` | engine/crates/isotp/src/params.rs:82-94 | a reserved separation time is never read as anything faster than the slowest one (ISO 15765-2 clause 9.6.5.4) |
| `Pacing.SeparationTimesDecoded` | engine/crates/isotp/src/params.rs:82-94 | what each separation time byte stands for |
| `Pacing.CapacityExactly` | engine/crates/bridge/src/lib.rs:641-658 | frames a second from the line speed at 270 bits a frame and from the bus's at 135 |
| `Bridge.BusFrameIsTheWorst` | engine/crates/bridge/src/lib.rs:641-647 | the 135 bits are those of an 11-bit frame of eight bytes, stuffed at its worst; a 29-bit one takes 131 to 160 |
| `IsoTp.IsoTpTransmitter.Begin` | engine/crates/isotp/src/tx.rs:124-151 | starts the transfer whose frames the theorems below determine, or refuses an empty or too long PDU |
| `IsoTp.IsoTpTransmitter.OnFlowControl` | engine/crates/isotp/src/tx.rs:154-217 | grants a block, counts waits up to the limit, aborts on overflow or an unknown status; ignored unless one is awaited |
| `IsoTp.IsoTpTransmitter.NextConsecutiveFrame` | engine/crates/isotp/src/tx.rs:230-255 | the transmitter's step, used by every theorem about what is sent |
| `IsoTp.IsoTpReceiver.OnFrame` | engine/crates/isotp/src/rx.rs:129-142 | the receiver's step, used by every theorem about what is received |
| `IsoTp.ReassembleStream` | engine/crates/isotp/src/lib.rs:60-133 | the loop over a capture computes the fold that is compared with a live receiver |
| `IsoTpTheorems.BeginsOnCourse` | engine/crates/isotp/src/tx.rs:124-151 | a transfer begins exactly for 1 to 4095 bytes, with the first of the PDU's frames out |
| `IsoTpTheorems.FramesOnTheWire` | engine/crates/isotp/src/tx.rs:124-302 | every frame byte by byte: lengths, numbers, payload and padding |
| `IsoTpTheorems.FramesNeeded` | engine/crates/isotp/src/tx.rs:124-302 | how many frames a PDU takes |
| `IsoTpTheorems.DrivingStaysOnCourse` | engine/crates/isotp/src/tx.rs:154-262 | any flow control, request or timeout keeps counters, sequence number and emitted frames in step |
| `IsoTpTheorems.SendsTheSameFramesToAnyPeer` | engine/crates/isotp/src/tx.rs:124-302 | whatever the peer does, what goes out is a beginning of one sequence of frames fixed by the PDU and the padding; completing means all of it |
| `IsoTpTheorems.HearsTheFrames` | engine/crates/isotp/src/rx.rs:129-289 | the receiver's state and answer after each frame: flow control after the first and after every full block, the PDU with the last |
| `IsoTpTheorems.SentIsReceived` | engine/crates/isotp/src/rx.rs:129-289 | the frames of a completed transfer, fed to any receiver with room, yield that PDU once, with the last frame, whatever was pending before |
| `IsoTpTheorems.LossNeverCorrupts` | engine/crates/isotp/src/rx.rs:214-265 | with any frames missing a receiver that starts afresh delivers the PDU sent or nothing, and delivers it exactly when none is missing |
| `IsoTpLoss.LossDeliversExactly` | engine/crates/isotp/src/rx.rs:129-265 | any receiver with room, in any state: the PDU when all frames arrive; else nothing, unless the first frame is lost, another message is in progress and the survivors carry on its sequence numbers until nothing of it remains: then that message's head with their payload |
| `IsoTpLoss.DeliversAnotherExactly` | engine/crates/isotp/src/rx.rs:129-265 | so another message than the one sent is delivered if and only if that happens and the mixture differs from it |
| `IsoTpLoss.HeadAndTailMix` | engine/crates/isotp/src/rx.rs:129-265 | any two thirteen-byte messages, the one losing its last frame and the next its first, are delivered as the head of the one with the tail of the other |
| `IsoTpLoss.JoinNext` | engine/crates/isotp/src/rx.rs:214-265 | one more survivor goes on, finishes or breaks off the message in progress, exactly as its number and length say |
| `IsoTpTheorems.GapIsReportedModulo16` | engine/crates/isotp/src/rx.rs:214-265 | a gap abandons the message exactly when its length is no multiple of sixteen, and is reported as its length modulo sixteen |
| `IsoTpLink.TransfersComplete` | engine/crates/isotp/src/tx.rs:124-262 | wired to each other, both ends finish any PDU under any parameters in a bounded number of rounds, delivering exactly that PDU exactly once |
| `IsoTpLink.CompletesExactly` | engine/crates/isotp/src/tx.rs:124-262 | a transfer completes if and only if it fits one frame or the receiver is physical and has room |
| `IsoTpLink.RefusedOverflows` | engine/crates/isotp/src/rx.rs:163-211 | into a receiver without room it is aborted for overflow, with nothing delivered, and stays so |
| `IsoTpLink.BroadcastIsNeverAnswered` | engine/crates/isotp/src/rx.rs:163-175 | a broadcast receiver leaves the transmitter waiting for as long as nobody times it out |
| `IsoTpCapture.LiveAndCaptureAgree` | engine/crates/isotp/src/lib.rs:60-193 | on plain frames a live receiver and a later reading of the capture find the same messages |
| `IsoTpCapture.PlainExactly` | engine/crates/isotp/src/lib.rs:60-193 | a frame is read alike among any plain frames if and only if it is plain |
| `IsoTpRuns.CaptureFindsExactly` | engine/crates/isotp/src/lib.rs:60-190 | whatever the frames, a message is found in a capture if and only if one single frame carries it (in the short form or the escaped one) or a first frame and consecutive ones numbered on from it do, disturbed by nothing but flow control, of just the length announced |
| `IsoTpRuns.ReceiverFindsExactly` | engine/crates/isotp/src/rx.rs:129-266 | a physical receiver completes exactly the messages its frames give so, those of several frames being longer than seven bytes and within its room |
| `IsoTpRuns.CaptureFindsOnlyMessages` | engine/crates/isotp/src/lib.rs:60-190 | the messages found come from runs of frames in the order found, each over before the next begins |
| `IsoTpRuns.ReceiversKeepWithinRoom` | engine/crates/isotp/src/rx.rs:129-289 | over any traffic a functional receiver never has anything in progress and no receiver more than it has room for |
| `IsoTpRuns.OneFrameKeepsWithinRoom` | engine/crates/isotp/src/rx.rs:129-289 | what it answers with is a grant or a refusal with its own block size and separation time |
| `Traffic.TrafficChannel.Publish` | engine/crates/api/src/traffic.rs:209-222 | one publish is one step of the interleavings below, ring and broadcast together |
| `Traffic.TrafficChannel.SubscribeWithHistory` | engine/crates/api/src/traffic.rs:230-243 | snapshot, loss counter and cursor are of one instant |
| `Traffic.RunsStayInOrder` | engine/crates/api/src/traffic.rs:209-243 | every interleaving keeps the ring a suffix of the log and every monitor's account of the log exact |
| `Traffic.RingIsTheRecentPast` | engine/crates/api/src/traffic.rs:209-222 | the ring is the last 20,000 published events, and dropped plus held is all of them |
| `Traffic.MonitorSeesTheLog` | engine/crates/api/src/traffic.rs:230-243 | snapshot and live items cover the log from the snapshot's start: no duplicate, no hole where they meet, every later hole announced with its exact length |
| `Traffic.FallsBehindAt2049` | engine/crates/api/src/traffic.rs:230-243 | a monitor more than 2048 events behind is told exactly how many it lost, and one less far behind loses none |
| `Traffic.FeedIsTheLog` | engine/crates/api/src/traffic.rs:209-572 | end to end for any monitor of any run: the replay is the most recent part asked for of what the ring held, and the live feed is everything published since, each stretch missed replaced by a marker of exactly its length; frame events left out if unwanted |
| `Traffic.LiveFeedIsTheLog` | engine/crates/api/src/traffic.rs:538-572 | a live feed, filtered or not, lagging or not, is its stretch of the log with the holes marked |
| `Traffic.UnbrokenFeed` | engine/crates/api/src/traffic.rs:209-572 | a monitor that asked for everything and never lagged is sent one unbroken stretch of the log |
| `Traffic.ReplayBatches` | engine/crates/api/src/traffic.rs:428-480 | the batches, joined, are one summary with the true count followed by the kept history in order; all but the last hold 64 |
| `Traffic.LiveBatches` | engine/crates/api/src/traffic.rs:538-572 | filtering and gathering lose and reorder nothing, no batch is empty or longer than 64 |
| `Traffic.FramesAreAllThatIsLeftOut` | engine/crates/api/src/traffic.rs:523-572 | asking for no frames yields the full feed minus its frame events: gap markers stay |
| `Traffic.SparedAreFramesAndDoIp` | engine/crates/api/src/traffic.rs:523-532 | those are the CAN frames and the DoIP messages, and nothing else |
| `DoIp.Connection.DecideRoutingActivation` | engine/crates/doip/src/connection.rs:128-164 | the decision that `ActivationExactly` and `RefusalsExactly` turn into conditions |
| `DoIp.Connection.ApplyRoutingActivation` | engine/crates/doip/src/connection.rs:174-198 | registers on success, holds the address while authentication is missing, finalises on every other refusal |
| `DoIp.Connection.Tick` | engine/crates/doip/src/connection.rs:96-116 | the timer step behind the two lifetime theorems; reports a timeout exactly when finalised |
| `DoIp.Connection.NoteActivity` | engine/crates/doip/src/connection.rs:84-90 | restarts the general timer and never the initial one |
| `DoIp.UnactivatedLivesTwoSeconds` | engine/crates/doip/src/connection.rs:84-116 | an unactivated connection is finalised exactly once its whole life totals 2000 ms, whatever traffic it carries (ISO 13400-2:2019 clause 12.6.3) |
| `DoIp.ActivatedLivesFiveQuietMinutes` | engine/crates/doip/src/connection.rs:84-198 | an activated one is finalised exactly when some tick brings the time since its last traffic or activation to 300000 ms |
| `DoIp.UnactivatedSocketStays` | engine/crates/doip-server/src/entity.rs:143-164 | in any run a socket that is opened and never asks for routing is in the table exactly while its ticks total less than two seconds |
| `DoIp.ActivatedSocketStays` | engine/crates/doip-server/src/entity.rs:143-434 | in any run an activated socket is in the table exactly until a tick ends five minutes without traffic or activation on it |
| `DoIp.RefusedSocketStays` | engine/crates/doip-server/src/entity.rs:153-434 | a socket refused routing is in the table, finalised, exactly until the next tick, unless its owner closes it |
| `DoIp.SocketLivesAlone` | engine/crates/doip-server/src/entity.rs:143-434 | in the table a socket goes through the signals it notices as a connection on its own does |
| `DoIp.RunsKeepTable` | engine/crates/doip-server/src/entity.rs:143-434 | in every run registered addresses are pairwise distinct, within the socket limit and acceptable, and routing is active only with one registered (clause 12.6.4) |
| `DoIp.AddressNeverChanges` | engine/crates/doip/src/connection.rs:174-198 | while a socket stays open its registered address never changes |
| `DoIp.ActivationExactly` | engine/crates/doip/src/connection.rs:128-164 | who is activated in a table any run produced: supported type, and the same address again or an acceptable free address within the limit |
| `DoIp.RefusalsExactly` | engine/crates/doip/src/connection.rs:128-164 | which code everyone else is refused with: unsupported type, unknown address, another address held, address in use, all sockets registered; missing authentication never |
| `DoIp.RequestsRestartTheTimer` | engine/crates/doip/src/connection.rs:166-198 | any request stops the initial timer for good: granted or awaiting authentication it registers the address and lasts five quiet minutes, refused it is over |
| `DoIp.GrantedMeansRouting` | engine/crates/doip-server/src/entity.rs:260-434 | a request touches only its own socket: granted it routes for the requested address with a fresh timer, refused it is finalised with its address unchanged |
| `Overrides.Matches` | engine/crates/core-domain/src/model.rs:752-786 | true exactly when enabled, well-formed, of acceptable length and equal under the mask at every pattern byte; anchored, only requests as long as the pattern; what is enabled and well-formed matches its own pattern |
| `Overrides.MatchesBitByBit` | engine/crates/core-domain/src/model.rs:766-786 | a request as long as the pattern matches exactly when it has the pattern's bits wherever the mask has one |
| `Overrides.TrailingBytesDecideNothing` | engine/crates/core-domain/src/model.rs:760-764 | with the trailing-bytes flag, bytes behind the pattern never decide |
| `Overrides.TrailingBytesEndTheMatch` | engine/crates/core-domain/src/model.rs:760-764 | without it any byte behind a matching request ends the match |
| `Overrides.FindsMostSpecific` | engine/crates/core-domain/src/model.rs:1146-1151 | nothing is found exactly when nothing applies, else something that applies and that nothing applying outranks |
| `Overrides.NoMatchIsMoreSpecific` | engine/crates/core-domain/src/model.rs:789-1151 | no other match fixes more bytes, or as many over a longer pattern, or the same anchored where the choice is not |
| `Overrides.FindsTheLastOfEquals` | engine/crates/core-domain/src/model.rs:1146-1151 | of several equally specific matches the last in the list is chosen |
| `Overrides.PermutingKeepsSpecificity` | engine/crates/core-domain/src/model.rs:789-1151 | reordering the list never changes how specific the choice is |
| `Overrides.OrderIndependentExactly` | engine/crates/core-domain/src/model.rs:789-1151 | reordering never changes the choice if and only if all most specific matches are one and the same override |
| `Overrides.ValidateExactly` | engine/crates/core-domain/src/model.rs:930-1041 | accepted is what looks like an exchange with every span's ends, as a machine word holds them, within reach; unless a span wraps around those are exactly the exchanges that could occur: fixed known service, a response answering it, every span inside pattern and template |
| `Overrides.RefusalsExplain` | engine/crates/core-domain/src/model.rs:930-1041 | every refusal says something true of the override, with the bytes, lengths and ends it names |
| `Overrides.ApplyEchoSpan` | engine/crates/core-domain/src/model.rs:833-842 | in place: the run is copied when it fits both ends, otherwise nothing changes; panics exactly when an end that passes the check has wrapped around |
| `Overrides.BuildResponse` | engine/crates/core-domain/src/model.rs:804-818 | suppressing answers nothing; otherwise the spans are applied to a copy of the template in list order, unless one of them panics |
| `Overrides.EchoingIsOverlaying` | engine/crates/core-domain/src/model.rs:804-842 | each response byte is the request byte of the last span writing it, or the template's |
| `Overrides.ValidatedSpansAllApply` | engine/crates/core-domain/src/model.rs:804-1036 | on a validated override and a request it matches, building panics if and only if some span wraps around; otherwise the silent skip never fires and the length is the template's |
| `Overrides.WrappedSpanPanics` | engine/crates/core-domain/src/model.rs:804-1036 | an accepted override on which it does |
| `Overrides.SidSurvivesExactly` | engine/crates/core-domain/src/model.rs:804-1036 | the first response byte is the template's for every matching request if and only if no span wraps and the last span writing it copies a fixed equal byte, or none writes it |
| `Overrides.AnswersExactly` | engine/crates/core-domain/src/model.rs:804-1036 | a validated, enabled override answers every request it matches if and only if no span wraps and its spans leave it so: the first byte can only be one of the two response identifiers, and where it can be the negative one the response has three bytes, the second is forced to the service and the third cannot become ResponsePending |
| `Overrides.CarriesOnlyExactly` | engine/crates/core-domain/src/model.rs:804-842 | a response byte has a single value exactly when nothing is copied there or the byte copied is fixed by the mask |
| `Overrides.EchoCanOverwriteTheSid` | engine/crates/core-domain/src/model.rs:804-1036 | an accepted override and a request whose response starts with neither response identifier |
| `Overrides.EchoCanRenameTheService` | engine/crates/core-domain/src/model.rs:804-1036 | an accepted refusal that ends up naming another service |
| `Overrides.EchoCanPend` | engine/crates/core-domain/src/model.rs:804-1036 | an accepted refusal that ends up as ResponsePending |
| `Hex.ParseHex` | engine/crates/api/src/diagnostics.rs:157-180 | the index loop reads the pairs of the cleaned text, with the out-of-range index as an outcome of its own |
| `Hex.HexRoundTrips` | engine/crates/api/src/diagnostics.rs:148-180 | written and read back, bytes are the same bytes; only no bytes read back as an empty request |
| `Hex.ReadsExactly` | engine/crates/api/src/diagnostics.rs:157-180 | text is read exactly when, whitespace aside, it is one or more whole pairs and each of them is a byte |
| `Hex.PanicsExactly` | engine/crates/api/src/diagnostics.rs:157-180 | reading indexes out of range exactly on an even number of bytes in an odd number of characters whose whole pairs are all bytes |
| `Hex.AccentedLetterPanics` | engine/crates/api/src/diagnostics.rs:157-180 | a text on which it does |
| `Hex.LoneCharacterPanicsExactly` | engine/crates/api/src/diagnostics.rs:157-180 | so does exactly every lone character of two or four bytes |
| `WireForm.ParseHexPattern` | engine/crates/api/src/simulation.rs:2426-2447 | the token loop with its two growing lists, refusing at the first bad token |
| `WireForm.PatternRoundTripsExactly` | engine/crates/api/src/simulation.rs:2426-2483 | a pattern reads back as itself if and only if it is not empty and every byte is fixed, or open and zero |
| `WireForm.OverrideRoundTripsExactly` | engine/crates/api/src/simulation.rs:1788-1864 | an override reads back as itself if and only if its pattern does and a substitute has a response |
| `WireForm.AcceptedOverridesRoundTrip` | engine/crates/api/src/simulation.rs:1788-1864 | whatever a request body is read as, writing and reading it again changes nothing |
| `WireForm.ParseHexBytesField` | engine/crates/api/src/simulation.rs:2497-2518 | the byte-field loop: blank is an empty run, wildcards are refused, the first bad token decides |
| `WireForm.SecurityLevelRoundTrips` | engine/crates/api/src/simulation.rs:2135-2183 | every security level reads back as itself |
| `WireForm.HandleRoundTripsExactly` | engine/crates/api/src/simulation.rs:2941-2965 | a handle reads back as its key if and only if the key is a DoIP address or a CAN id of at most 29 bits |
| `WireForm.HandlesAreDistinct` | engine/crates/api/src/simulation.rs:2960-2965 | no two keys of any width share a handle |
| `Spellings.BytesAreSpelled` | engine/crates/api/src/simulation.rs:2485-2493 | a byte is written in two uppercase digits and read from two lowercase ones |
| `Spellings.ReadersAgree` | engine/crates/api/src/diagnostics.rs:157-180 | the request reader takes exactly what the byte fields take that is not blank and of even length, as the same bytes, and a pattern takes it with every byte fixed |
| `Spellings.SpacingDoesNotMatter` | engine/crates/api/src/simulation.rs:2450-2459 | texts alike but for whitespace are read alike or refused alike by all three readers |
| `Spellings.WhitespaceListed` | engine/crates/api/src/simulation.rs:2451 | which 25 characters are left out, as the library has them from Unicode |
| `Spellings.BytesReadInEitherCase` | engine/crates/api/src/simulation.rs:2497-2518 | requests and byte fields read alike in either case |
| `Spellings.PatternCaseMattersExactly` | engine/crates/api/src/simulation.rs:2426-2464 | a pattern reads differently in lower case if and only if it has an x and an X in one token and everything else in it reads |
| `Spellings.MixedXIsRefused` | engine/crates/api/src/simulation.rs:2462-2464 | a pattern on which it does |
| `Spellings.OpenSpellings` | engine/crates/api/src/simulation.rs:2462-2464 | five spellings leave a byte open and nothing else does |
| `Spellings.PrintedPatternReadsAs` | engine/crates/api/src/simulation.rs:2426-2483 | every printed pattern reads back, open bytes as zero and every other byte as fixed throughout |
| `Spellings.PlusSignIsSkipped` | engine/crates/api/src/simulation.rs:2437-2439 | one plus sign before digits changes nothing, as the library reads numbers; two or one alone are no number |
| `Spellings.RefusalDefaultsToInvalidKey` | engine/crates/api/src/simulation.rs:2162-2168 | a refusing level that names no code refuses with 0x35 |
| `Spellings.HandleLengths` | engine/crates/api/src/simulation.rs:2960-2965 | three digits for a standard identifier, eight for an extended one, four behind their prefix for a DoIP address |
| `Spellings.PrefixesReadAlike` | engine/crates/api/src/simulation.rs:2941-2957 | an identifier reads with either 0x prefix as without, a DoIP address with its prefix in either case |
| `Spellings.NumbersReadByWidth` | engine/crates/api/src/simulation.rs:2530-2957 | a number of any width is an identifier within 29 bits, too wide within 32 and none beyond; an address within 16 bits or none |
| `BusLoad.BusLoadMeter.Record` | engine/crates/can/src/busload.rs:74-103 | keeps the buckets the last 120 groups of the whole history |
| `BusLoad.BusLoadMeter.Count` | engine/crates/can/src/busload.rs:74-103 | updating in place, pushing and evicting amount to counting without eviction and keeping the last 120 |
| `BusLoad.TalliedGroups` | engine/crates/can/src/busload.rs:74-103 | counting a frame regroups the longer history by the running maximum of whole seconds, in time order or not |
| `BusLoad.BucketsHoldTheHistory` | engine/crates/can/src/busload.rs:74-103 | over any history every frame and every bit is in exactly one bucket |
| `BusLoad.GroupsAreUnique` | engine/crates/can/src/busload.rs:74-103 | a history has only one grouping, so the meter's buckets are determined |
| `BusLoad.InOrderRunsWithTheClock` | engine/crates/can/src/busload.rs:74-103 | frames in time order are counted in the second they were stamped with |
| `BusLoad.BusLoadMeter.ReadingsAreHonest` | engine/crates/can/src/busload.rs:106-152 | at most 120 samples with strictly later starts, their seconds' true counts and the shares of the bus their tallied bits make, nominal at most worst case at most 5/4 nominal within 0 and 1; the peak is a greatest finished one |
| `BusLoad.ShareExactly` | engine/crates/can/src/busload.rs:133-142 | a load is the exact share of the bitrate, at most the whole bus, and zero without one |
| `CanFrames.StuffingIsAtMostAQuarter` | engine/crates/can/src/lib.rs:104-128 | stuff bits add at most a quarter to any frame |
| `CanFrames.FrameLengths` | engine/crates/can/src/lib.rs:104-128 | 47 or 67 bits and the data, and a stuff bit for every whole four before the trailer |
| `Confinement.FaultConfinement.OnTransmitError` | engine/crates/can/src/confinement.rs:95-106 | one penalty, and off the bus past the threshold |
| `Confinement.FaultConfinement.OnReceiveError` | engine/crates/can/src/confinement.rs:110-118 | raises up to the cap and never takes a node off the bus |
| `Confinement.FaultConfinement.ForceState` | engine/crates/can/src/confinement.rs:152-166 | puts the node in the state asked for, with counters `ReachableExactly` shows it could have counted to |
| `Confinement.RunsStayAttainable` | engine/crates/can/src/confinement.rs:80-166 | every run, forcing included, keeps REC within 255 and TEC within 255 on the bus or 256 to 263 off it |
| `Confinement.ReachableExactly` | engine/crates/can/src/confinement.rs:80-166 | those states are exactly the reachable ones, with or without recovery and forcing (ISO 11898-1 clause 12.1.4.2) |
| `Confinement.BusOffTakes32` | engine/crates/can/src/confinement.rs:95-127 | unless forced, bus-off needs at least 32 transmit errors, and 32 in a row suffice |
| `Confinement.PassiveTakes16Or128` | engine/crates/can/src/confinement.rs:95-118 | a fresh node turns passive with exactly the 16th transmit error or the 128th receive error |
| `Confinement.PassivePast127` | engine/crates/can/src/confinement.rs:81-92 | passive is exactly a counter past 127 on the bus |
| `Confinement.SuccessesPayBack` | engine/crates/can/src/confinement.rs:120-136 | each success takes one off its own counter, down to zero |
| `Confinement.BusOffIsSilent` | engine/crates/can/src/confinement.rs:95-136 | off the bus no error and no success changes anything |

## Left out

- HTTP handlers, JSON, logging, async cancellation and mutex poisoning: no state of their own. The one lock that matters, around history and broadcast, is the step of the traffic model.
- The diagram's colours, captions, truncation and SVG; React state and the traffic window.
- Floating point: frame timestamps and loads are reals, so rounding, NaN and infinities are not modelled. Layout coordinates are integers; every halved width is proved even.
- Widths of the dropped counter, counts and buffer lengths, which are unbounded; and a build with overflow checks, where a sum past a machine word panics at once instead of wrapping around. Span offsets are 64-bit words. Bytes, 16- and 32-bit addresses, error counters and the connection's 64-bit idle time keep their range and saturate or wrap as written.
- Bridge surroundings: rebuilding the endpoint map from the simulation (a new map is a parameter of each pump), bus-load and observer calls, sleeping between frames, and send errors, which the code only logs. An endpoint's receiver is held as a value and stepped by `Received`, which `IsoTpReceiver.OnFrame` is proved to compute; sent frames carry the timestamp 0.
- Clocks: the flow-control deadline is an event of the bus script, the batching window an event of the arrivals. A script that has run out counts as the deadline passing.
- The broadcast library: assumed to be a ring of 2048 with a cursor per receiver that reports how many events a late reader missed.
- Constructing remote frames; a diagram for a vehicle that declares no network at all (a single made-up link).
- DoIP framing, UDP discovery, diagnostic messages and alive checks; forced routing-activation codes, which bypass the decision; changing the socket limit while sockets are registered. The connection table is modelled on values.
- The ordered choice of overrides, the validators and the printed forms are expressions in the source and stay functions; only loops and in-place updates are methods.
- Other timing checks than separation times, functional addressing of several ECUs at once, ECU configuration beyond wiring and overrides, plugins, the UDS protocol, SLCAN, packet captures on disk, line-speed probing, timestamps of reassembled messages.
