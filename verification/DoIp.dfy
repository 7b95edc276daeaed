/**
 * DoIP connections on the TCP data port (ISO 13400-2:2019 clause 12.6): the routing activation
 * decision, the two inactivity timers, and a table of connections deciding for one another.
 */
module DoIp {
  import opened Basics

  type Address = x: int | 0 <= x < 0x1_0000

  type Milliseconds = x: int | 0 <= x < 0x1_0000_0000_0000_0000

  const INITIAL_INACTIVITY_MS := 2_000
  const GENERAL_INACTIVITY_MS := 300_000

  datatype ConnectionState = Initialized | PendingAuthentication | RoutingActive | Finalized

  datatype Request = Request(sourceAddress: Address, activationType: Byte)

  datatype Outcome =
    | DeniedUnknownSourceAddress
    | DeniedAllSocketsRegistered
    | DeniedSourceAddressMismatch
    | DeniedSourceAddressInUse
    | DeniedMissingAuthentication
    | DeniedUnsupportedActivationType
    | Activated

  /** The response code on the wire (ISO 13400-2:2019 Table 49). */
  function Code(outcome: Outcome): Byte {
    match outcome
    case DeniedUnknownSourceAddress => 0x00
    case DeniedAllSocketsRegistered => 0x01
    case DeniedSourceAddressMismatch => 0x02
    case DeniedSourceAddressInUse => 0x03
    case DeniedMissingAuthentication => 0x04
    case DeniedUnsupportedActivationType => 0x06
    case Activated => 0x10
  }

  datatype Link = Link(state: ConnectionState, source: Option<Address>, idle: Milliseconds)

  const NEW_LINK := Link(Initialized, None, 0)

  predicate IsSupportedActivationType(activationType: Byte) {
    activationType == 0x00 || activationType == 0x01
  }

  /** The addresses ISO 13400-2 Table 13 reserves for external test equipment. */
  predicate IsAcceptableTesterAddress(address: Address) {
    0x0E00 <= address <= 0x0FFF
  }

  function SaturatingAdd(x: Milliseconds, y: Milliseconds): (sum: Milliseconds)
    ensures x <= sum <= x + y && (sum < x + y ==> sum == 0xFFFF_FFFF_FFFF_FFFF)
  {
    if x + y > 0xFFFF_FFFF_FFFF_FFFF then 0xFFFF_FFFF_FFFF_FFFF else x + y
  }

  // ---------------------------------------------------------------- one connection, as values

  function Decided(link: Link, request: Request, isAcceptable: bool, isActiveElsewhere: bool, hasFreeSocket: bool): Outcome {
    if !IsSupportedActivationType(request.activationType) then DeniedUnsupportedActivationType
    else if !isAcceptable then DeniedUnknownSourceAddress
    else if link.source.Some? then
      if link.source.value == request.sourceAddress then Activated else DeniedSourceAddressMismatch
    else if isActiveElsewhere then DeniedSourceAddressInUse
    else if !hasFreeSocket then DeniedAllSocketsRegistered
    else Activated
  }

  function Applied(link: Link, request: Request, outcome: Outcome): Link {
    match outcome
    case Activated => Link(RoutingActive, Some(request.sourceAddress), 0)
    case DeniedMissingAuthentication => Link(PendingAuthentication, Some(request.sourceAddress), 0)
    case _ => Link(Finalized, link.source, 0)
  }

  function Noted(link: Link): Link {
    if link.state == Initialized then link else link.(idle := 0)
  }

  function Deadline(state: ConnectionState): nat {
    if state == Initialized then INITIAL_INACTIVITY_MS else GENERAL_INACTIVITY_MS
  }

  function Ticked(link: Link, elapsed: Milliseconds): Link {
    if link.state == Finalized then link
    else
      var idle := SaturatingAdd(link.idle, elapsed);
      Link(if idle >= Deadline(link.state) then Finalized else link.state, link.source, idle)
  }

  // ---------------------------------------------------------------- the connection itself

  class Connection {
    var state: ConnectionState
    var source: Option<Address>
    var idle: Milliseconds

    constructor ()
      ensures Now() == NEW_LINK
    {
      state, source, idle := Initialized, None, 0;
    }

    function Now(): Link
      reads this
    {
      Link(state, source, idle)
    }

    /** Something was sent or received; the initial timer alone does not care. */
    method NoteActivity()
      modifies this
      ensures Now() == Noted(old(Now()))
    {
      if state == Initialized { return; }
      idle := 0;
    }

    /** So much time passes; the result is whether this connection is over. */
    method Tick(elapsed: Milliseconds) returns (timedOut: bool)
      modifies this
      ensures Now() == Ticked(old(Now()), elapsed)
      ensures timedOut <==> state == Finalized
    {
      if state == Finalized { return true; }
      idle := SaturatingAdd(idle, elapsed);
      var deadline := match state
        case Initialized => INITIAL_INACTIVITY_MS
        case _ => GENERAL_INACTIVITY_MS;
      if idle >= deadline {
        state := Finalized;
        return true;
      }
      return false;
    }

    method DecideRoutingActivation(request: Request, isAcceptable: bool, isActiveElsewhere: bool, hasFreeSocket: bool)
      returns (outcome: Outcome)
      ensures outcome == Decided(Now(), request, isAcceptable, isActiveElsewhere, hasFreeSocket)
    {
      if !IsSupportedActivationType(request.activationType) { return DeniedUnsupportedActivationType; }
      if !isAcceptable { return DeniedUnknownSourceAddress; }
      if source.Some? {
        if source.value == request.sourceAddress { return Activated; }
        return DeniedSourceAddressMismatch;
      }
      if isActiveElsewhere { return DeniedSourceAddressInUse; }
      if !hasFreeSocket { return DeniedAllSocketsRegistered; }
      return Activated;
    }

    method ApplyRoutingActivation(request: Request, outcome: Outcome)
      modifies this
      ensures Now() == Applied(old(Now()), request, outcome)
    {
      match outcome {
        case Activated =>
          source := Some(request.sourceAddress);
          state := RoutingActive;
        case DeniedMissingAuthentication =>
          source := Some(request.sourceAddress);
          state := PendingAuthentication;
        case _ =>
          state := Finalized;
      }
      idle := 0;
    }

    method Finalize()
      modifies this
      ensures Now() == old(Now()).(state := Finalized)
    {
      state := Finalized;
    }
  }

  // ---------------------------------------------------------------- the inactivity timers

  datatype Signal = Elapse(ms: Milliseconds) | Traffic | Reactivate(request: Request)

  function Heard(link: Link, signal: Signal): Link {
    match signal
    case Elapse(ms) => Ticked(link, ms)
    case Traffic => Noted(link)
    case Reactivate(request) => if link.state == Finalized then link else Applied(link, request, Activated)
  }

  function Through(link: Link, signals: seq<Signal>): Link {
    if signals == [] then link else Heard(Through(link, signals[..|signals| - 1]), signals[|signals| - 1])
  }

  /** All the time that has passed. */
  function Elapsed(signals: seq<Signal>): nat {
    if signals == [] then 0
    else Elapsed(signals[..|signals| - 1]) + (if signals[|signals| - 1].Elapse? then signals[|signals| - 1].ms else 0)
  }

  /** The time that has passed since the last traffic or activation. */
  function Quiet(signals: seq<Signal>): nat {
    if signals == [] || !signals[|signals| - 1].Elapse? then 0
    else Quiet(signals[..|signals| - 1]) + signals[|signals| - 1].ms
  }

  /**
   * A connection that never activates is finalised by exactly the tick that brings its whole life
   * to two seconds, however much traffic it carries.
   */
  lemma {:induction false} UnactivatedLivesTwoSeconds(signals: seq<Signal>)
    requires forall i :: 0 <= i < |signals| ==> !signals[i].Reactivate?
    ensures Through(NEW_LINK, signals).state == Finalized <==> Elapsed(signals) >= 2_000
    ensures Through(NEW_LINK, signals).state in {Initialized, Finalized}
    ensures Through(NEW_LINK, signals).state == Initialized ==> Through(NEW_LINK, signals).idle == Elapsed(signals)
  {
    if signals != [] { UnactivatedLivesTwoSeconds(signals[..|signals| - 1]); }
  }

  /** Some tick so far ended five minutes of silence. */
  ghost predicate FellSilent(signals: seq<Signal>) {
    exists k :: 0 <= k <= |signals| && Quiet(signals[..k]) >= 300_000
  }

  /**
   * An activated connection (or one waiting for authentication) is finalised by exactly the first
   * tick that brings the time since its last traffic or activation to five minutes.
   */
  lemma {:induction false} ActivatedLivesFiveQuietMinutes(link: Link, signals: seq<Signal>)
    requires link.state in {RoutingActive, PendingAuthentication} && link.idle == 0
    ensures Through(link, signals).state == Finalized <==> FellSilent(signals)
    ensures Through(link, signals).state != Initialized
    ensures Through(link, signals).state != Finalized ==> Through(link, signals).idle == Quiet(signals)
  {
    if signals == [] {
      assert Quiet(signals[..0]) == 0;
    } else {
      var earlier := signals[..|signals| - 1];
      ActivatedLivesFiveQuietMinutes(link, earlier);
      assert signals[..|signals|] == signals;
      assert forall k :: 0 <= k <= |earlier| ==> signals[..k] == earlier[..k];
      if FellSilent(earlier) {
        var k :| 0 <= k <= |earlier| && Quiet(earlier[..k]) >= GENERAL_INACTIVITY_MS;
        assert Quiet(signals[..k]) >= GENERAL_INACTIVITY_MS;
      }
      if FellSilent(signals) && !FellSilent(earlier) {
        var k :| 0 <= k <= |signals| && Quiet(signals[..k]) >= GENERAL_INACTIVITY_MS;
        assert k == |signals|;
      }
    }
  }

  // ---------------------------------------------------------------- a table of connections

  type Table = map<nat, Link>

  datatype Step =
    | Open(socket: nat)
    | Close(socket: nat)
    | TickAll(ms: Milliseconds)
    | Message(socket: nat)
    | RoutingActivation(socket: nat, request: Request)

  function Registered(table: Table): set<nat> {
    set s | s in table && table[s].source.Some?
  }

  predicate IsActiveElsewhere(table: Table, socket: nat, address: Address) {
    exists other :: other in table && other != socket && table[other].source == Some(address)
  }

  predicate HasFreeSocket(table: Table, socket: nat, maxSockets: nat) {
    |Registered(table) - {socket}| < maxSockets
  }

  /** The entity's own answer: the flags describe the other connections truthfully. */
  function OutcomeFor(table: Table, socket: nat, request: Request, maxSockets: nat): Outcome
    requires socket in table
  {
    Decided(table[socket], request, IsAcceptableTesterAddress(request.sourceAddress),
            IsActiveElsewhere(table, socket, request.sourceAddress), HasFreeSocket(table, socket, maxSockets))
  }

  function Next(table: Table, step: Step, maxSockets: nat): Table {
    match step
    case Open(socket) => table[socket := NEW_LINK]
    case Close(socket) => table - {socket}
    case TickAll(ms) => map s | s in table && Ticked(table[s], ms).state != Finalized :: Ticked(table[s], ms)
    case Message(socket) => if socket in table then table[socket := Noted(table[socket])] else table
    case RoutingActivation(socket, request) =>
      if socket !in table then table
      else
        var noted := table[socket := Noted(table[socket])];
        noted[socket := Applied(noted[socket], request, OutcomeFor(noted, socket, request, maxSockets))]
  }

  function After(table: Table, steps: seq<Step>, maxSockets: nat): Table {
    if steps == [] then table
    else Next(After(table, steps[..|steps| - 1], maxSockets), steps[|steps| - 1], maxSockets)
  }

  ghost predicate DistinctAddresses(table: Table) {
    forall s, t :: s in table && t in table && s != t && table[s].source.Some? ==> table[s].source != table[t].source
  }

  ghost predicate WellKept(table: Table, maxSockets: nat) {
    && DistinctAddresses(table)
    && |Registered(table)| <= maxSockets
    && LinksInOrder(table)
  }

  /** Routing only with an accepted address, registered addresses accepted, nobody waiting for authentication. */
  ghost predicate LinkInOrder(link: Link) {
    && (link.state == RoutingActive ==> link.source.Some?)
    && (link.state == Initialized ==> link.source.None?)
    && link.state != PendingAuthentication
    && (link.source.Some? ==> IsAcceptableTesterAddress(link.source.value))
  }

  lemma ReplacingKeepsDistinct(table: Table, socket: nat, link: Link)
    requires DistinctAddresses(table)
    requires link.source.None? || (socket in table && link.source == table[socket].source)
             || !IsActiveElsewhere(table, socket, link.source.value)
    ensures DistinctAddresses(table[socket := link])
  {
  }

  /** What a decision and its application do to the registered address. */
  lemma DecidedSource(link: Link, request: Request, isAcceptable: bool, isActiveElsewhere: bool, hasFreeSocket: bool)
    ensures var outcome := Decided(link, request, isAcceptable, isActiveElsewhere, hasFreeSocket);
            var now := Applied(link, request, outcome);
            && (now.source == link.source || (now.source == Some(request.sourceAddress) && link.source.None?
                                              && isAcceptable && !isActiveElsewhere && hasFreeSocket))
            && (now.state == RoutingActive || now.state == Finalized)
            && (now.state == RoutingActive ==> now.source == Some(request.sourceAddress) && isAcceptable)
  {
  }

  lemma NotedKeeps(table: Table, socket: nat)
    requires socket in table
    ensures var noted := table[socket := Noted(table[socket])];
            && (DistinctAddresses(table) ==> DistinctAddresses(noted)) && Registered(noted) == Registered(table)
            && noted[socket].source == table[socket].source && noted[socket].state == table[socket].state
  {
  }

  lemma TickKeepsDistinct(table: Table, ms: Milliseconds)
    requires DistinctAddresses(table)
    ensures DistinctAddresses(Next(table, TickAll(ms), 0))
  {
  }

  lemma StepKeepsDistinct(table: Table, step: Step, maxSockets: nat)
    requires DistinctAddresses(table)
    ensures DistinctAddresses(Next(table, step, maxSockets))
  {
    hide DistinctAddresses, Applied, Decided, Noted, Ticked, IsActiveElsewhere, HasFreeSocket;
    match step
    case Open(socket) => ReplacingKeepsDistinct(table, socket, NEW_LINK);
    case Close(socket) => RemovingKeepsDistinct(table, socket);
    case TickAll(ms) =>
      TickKeepsDistinct(table, ms);
      assert Next(table, step, maxSockets) == Next(table, step, 0);
    case Message(socket) => if socket in table { NotedKeeps(table, socket); }
    case RoutingActivation(socket, request) =>
      if socket in table {
        NotedKeeps(table, socket);
        var noted := table[socket := Noted(table[socket])];
        DecidedSource(noted[socket], request, IsAcceptableTesterAddress(request.sourceAddress),
                      IsActiveElsewhere(noted, socket, request.sourceAddress), HasFreeSocket(noted, socket, maxSockets));
        ReplacingKeepsDistinct(noted, socket, Applied(noted[socket], request, OutcomeFor(noted, socket, request, maxSockets)));
      }
  }

  lemma RemovingKeepsDistinct(table: Table, socket: nat)
    requires DistinctAddresses(table)
    ensures DistinctAddresses(table - {socket})
  {
  }

  lemma ReplacingKeepsLimit(table: Table, socket: nat, link: Link, maxSockets: nat)
    requires |Registered(table)| <= maxSockets
    requires link.source.None? || (socket in table && table[socket].source.Some?) || HasFreeSocket(table, socket, maxSockets)
    ensures |Registered(table[socket := link])| <= maxSockets
  {
    var after := table[socket := link];
    if link.source.Some? && HasFreeSocket(table, socket, maxSockets) {
      assert Registered(after) == (Registered(table) - {socket}) + {socket};
    } else {
      assert Registered(after) <= Registered(table);
      SubsetIsSmaller(Registered(after), Registered(table));
    }
  }

  lemma StepKeepsLimit(table: Table, step: Step, maxSockets: nat)
    requires |Registered(table)| <= maxSockets
    ensures |Registered(Next(table, step, maxSockets))| <= maxSockets
  {
    hide Applied, Decided, Noted, Ticked, IsActiveElsewhere, HasFreeSocket, Registered;
    match step
    case Open(socket) => ReplacingKeepsLimit(table, socket, NEW_LINK, maxSockets);
    case Close(socket) => RemovingKeepsLimit(table, socket);
    case TickAll(ms) =>
      TickKeepsRegistered(table, ms);
      assert Next(table, step, maxSockets) == Next(table, step, 0);
      SubsetIsSmaller(Registered(Next(table, step, 0)), Registered(table));
    case Message(socket) => if socket in table { NotedKeeps(table, socket); }
    case RoutingActivation(socket, request) =>
      if socket in table {
        NotedKeeps(table, socket);
        var noted := table[socket := Noted(table[socket])];
        DecidedSource(noted[socket], request, IsAcceptableTesterAddress(request.sourceAddress),
                      IsActiveElsewhere(noted, socket, request.sourceAddress), HasFreeSocket(noted, socket, maxSockets));
        ReplacingKeepsLimit(noted, socket, Applied(noted[socket], request, OutcomeFor(noted, socket, request, maxSockets)), maxSockets);
      }
  }

  lemma RemovingKeepsLimit(table: Table, socket: nat)
    ensures |Registered(table - {socket})| <= |Registered(table)|
  {
    SubsetIsSmaller(Registered(table - {socket}), Registered(table));
  }

  lemma TickKeepsRegistered(table: Table, ms: Milliseconds)
    ensures Registered(Next(table, TickAll(ms), 0)) <= Registered(table)
  {
  }

  ghost predicate LinksInOrder(table: Table) {
    forall s :: s in table ==> LinkInOrder(table[s])
  }

  lemma StepKeepsOrder(table: Table, step: Step, maxSockets: nat)
    requires LinksInOrder(table)
    ensures LinksInOrder(Next(table, step, maxSockets))
  {
    if step.RoutingActivation? && step.socket in table {
      var noted := table[step.socket := Noted(table[step.socket])];
      DecidedSource(noted[step.socket], step.request, IsAcceptableTesterAddress(step.request.sourceAddress),
                    IsActiveElsewhere(noted, step.socket, step.request.sourceAddress), HasFreeSocket(noted, step.socket, maxSockets));
      hide Decided, Applied, IsActiveElsewhere, HasFreeSocket;
    }
  }

  lemma StepKeepsTable(table: Table, step: Step, maxSockets: nat)
    requires WellKept(table, maxSockets)
    ensures WellKept(Next(table, step, maxSockets), maxSockets)
  {
    hide Next, DistinctAddresses, Registered, LinksInOrder;
    StepKeepsDistinct(table, step, maxSockets);
    StepKeepsLimit(table, step, maxSockets);
    StepKeepsOrder(table, step, maxSockets);
  }

  /** Every run of the entity keeps its connection table in order. */
  lemma {:induction false} RunsKeepTable(steps: seq<Step>, maxSockets: nat)
    ensures WellKept(After(map[], steps, maxSockets), maxSockets)
  {
    if steps == [] {
      assert Registered(map[]) == {};
    } else {
      RunsKeepTable(steps[..|steps| - 1], maxSockets);
      StepKeepsTable(After(map[], steps[..|steps| - 1], maxSockets), steps[|steps| - 1], maxSockets);
    }
  }

  /** While a socket stays open, its registered address never changes. */
  lemma {:induction false} AddressNeverChanges(table: Table, steps: seq<Step>, maxSockets: nat, socket: nat)
    requires socket in table && table[socket].source.Some?
    requires forall i :: 0 <= i < |steps| ==> steps[i] != Open(socket)
    ensures var now := After(table, steps, maxSockets);
            socket in now ==> now[socket].source == table[socket].source
  {
    if steps != [] {
      AddressNeverChanges(table, steps[..|steps| - 1], maxSockets, socket);
      Gone(table, steps[..|steps| - 1], maxSockets, socket);
    }
  }

  /** A socket that left the table without being opened again stays out of it. */
  lemma Gone(table: Table, steps: seq<Step>, maxSockets: nat, socket: nat)
    ensures forall step :: step != Open(socket) && socket !in After(table, steps, maxSockets)
                           ==> socket !in Next(After(table, steps, maxSockets), step, maxSockets)
  {
  }

  /** Who gets activated, exactly, in a table any run has produced. */
  lemma ActivationExactly(table: Table, socket: nat, request: Request, maxSockets: nat)
    requires WellKept(table, maxSockets) && socket in table
    ensures var supported := request.activationType in {0x00, 0x01};
            var mine := table[socket].source;
            var taken := exists other :: other in table && other != socket && table[other].source == Some(request.sourceAddress);
            OutcomeFor(table, socket, request, maxSockets) == Activated <==>
            supported && (mine == Some(request.sourceAddress)
                          || (mine.None? && 0x0E00 <= request.sourceAddress <= 0x0FFF && !taken && |Registered(table)| < maxSockets))
  {
    if table[socket].source.None? {
      assert Registered(table) - {socket} == Registered(table);
    }
  }

  /** And everyone else's refusal, exactly: the code sent back says which of these it was. */
  lemma RefusalsExactly(table: Table, socket: nat, request: Request, maxSockets: nat)
    requires socket in table
    ensures var code := Code(OutcomeFor(table, socket, request, maxSockets));
            var supported := request.activationType in {0x00, 0x01};
            var known := supported && 0x0E00 <= request.sourceAddress <= 0x0FFF;
            var mine := table[socket].source;
            var taken := exists other :: other in table && other != socket && table[other].source == Some(request.sourceAddress);
            && (code == 0x06 <==> !supported)
            && (code == 0x00 <==> supported && !known)
            && (code == 0x02 <==> known && mine.Some? && mine != Some(request.sourceAddress))
            && (code == 0x03 <==> known && mine.None? && taken)
            && (code == 0x01 <==> known && mine.None? && !taken && |Registered(table)| >= maxSockets)
            && code != 0x04
            && (code == 0x10 <==> OutcomeFor(table, socket, request, maxSockets) == Activated)
  {
    if table[socket].source.None? {
      assert Registered(table) - {socket} == Registered(table);
    }
  }

  /**
   * Any request leaves the initial timer behind and starts the general one afresh: what awaits authentication
   * holds its address and lasts five minutes, not what was left of two seconds; what is refused is over, its address kept.
   */
  lemma RequestsRestartTheTimer(link: Link, request: Request, outcome: Outcome, elapsed: Milliseconds)
    ensures var after := Applied(link, request, outcome);
            && after.idle == 0 && after.state != Initialized
            && (Code(outcome) == 0x04 ==> after.source == Some(request.sourceAddress) && after.state == PendingAuthentication)
            && (Code(outcome) == 0x10 ==> after.source == Some(request.sourceAddress) && after.state == RoutingActive)
            && (Code(outcome) !in {0x04, 0x10} ==> after.source == link.source && after.state == Finalized)
            && (Ticked(after, elapsed).state == Finalized <==> Code(outcome) !in {0x04, 0x10} || elapsed >= 300_000)
  {
  }

  /** An activation that is granted ends with routing active for the requested address and its timer restarted. */
  lemma GrantedMeansRouting(table: Table, socket: nat, request: Request, maxSockets: nat)
    requires WellKept(table, maxSockets) && socket in table
    ensures var after := Next(table, RoutingActivation(socket, request), maxSockets);
            && after.Keys == table.Keys
            && (forall other :: other in table && other != socket ==> after[other] == table[other])
            && (after[socket].state == RoutingActive <==> OutcomeFor(table, socket, request, maxSockets) == Activated)
            && (after[socket].state == RoutingActive ==> after[socket] == Link(RoutingActive, Some(request.sourceAddress), 0))
            && (after[socket].state != RoutingActive ==> after[socket].state == Finalized && after[socket].source == table[socket].source)
  {
    hide Noted, OutcomeFor, Applied, WellKept;
    NotingKeepsOutcome(table, socket, request, maxSockets);
    var noted := table[socket := Noted(table[socket])];
    OutcomeIsApplied(noted, socket, request, maxSockets);
  }

  /** Traffic on a socket changes nothing about how its request is decided. */
  lemma NotingKeepsOutcome(table: Table, socket: nat, request: Request, maxSockets: nat)
    requires socket in table
    ensures var noted := table[socket := Noted(table[socket])];
            && noted.Keys == table.Keys && noted[socket].source == table[socket].source
            && OutcomeFor(noted, socket, request, maxSockets) == OutcomeFor(table, socket, request, maxSockets)
  {
    var noted := table[socket := Noted(table[socket])];
    assert Registered(noted) == Registered(table);
    assert IsActiveElsewhere(noted, socket, request.sourceAddress) <==> IsActiveElsewhere(table, socket, request.sourceAddress) by {
      if IsActiveElsewhere(table, socket, request.sourceAddress) {
        var other :| other in table && other != socket && table[other].source == Some(request.sourceAddress);
        assert noted[other] == table[other];
      }
    }
    hide Registered, IsActiveElsewhere, IsSupportedActivationType, IsAcceptableTesterAddress;
  }

  lemma OutcomeIsApplied(table: Table, socket: nat, request: Request, maxSockets: nat)
    requires socket in table
    ensures var outcome := OutcomeFor(table, socket, request, maxSockets);
            var now := Applied(table[socket], request, outcome);
            && (now.state == RoutingActive <==> outcome == Activated)
            && (now.state == RoutingActive ==> now == Link(RoutingActive, Some(request.sourceAddress), 0))
            && (now.state != RoutingActive ==> now.state == Finalized && now.source == table[socket].source)
  {
    hide Registered, IsActiveElsewhere, HasFreeSocket, IsSupportedActivationType, IsAcceptableTesterAddress;
  }

  // ---------------------------------------------------------------- how long a socket stays

  /** What one socket notices of a step. */
  function SignalOf(step: Step, socket: nat): seq<Signal> {
    match step
    case TickAll(ms) => [Elapse(ms)]
    case Message(s) => if s == socket then [Traffic] else []
    case RoutingActivation(s, request) => if s == socket then [Reactivate(request)] else []
    case _ => []
  }

  function SignalsFor(steps: seq<Step>, socket: nat): seq<Signal> {
    if steps == [] then [] else SignalsFor(steps[..|steps| - 1], socket) + SignalOf(steps[|steps| - 1], socket)
  }

  /** Nobody opens or closes the socket, and it is only asked to activate for the address it is registered with. */
  ghost predicate Undisturbed(steps: seq<Step>, socket: nat, source: Option<Address>) {
    forall i :: 0 <= i < |steps| ==> IsUndisturbing(steps[i], socket, source)
  }

  predicate IsUndisturbing(step: Step, socket: nat, source: Option<Address>) {
    && step != Open(socket) && step != Close(socket)
    && (step.RoutingActivation? && step.socket == socket ==>
          && source == Some(step.request.sourceAddress) && IsAcceptableTesterAddress(step.request.sourceAddress)
          && IsSupportedActivationType(step.request.activationType))
  }

  /** In the table a socket lives through the signals it notices exactly as a connection on its own, and is gone once that is finalised. */
  lemma SocketStep(table: Table, step: Step, maxSockets: nat, socket: nat, link: Link)
    requires IsUndisturbing(step, socket, link.source)
    requires if link.state == Finalized then socket !in table else socket in table && table[socket] == link
    ensures var now := if SignalOf(step, socket) == [] then link else Heard(link, SignalOf(step, socket)[0]);
            && now.source == link.source
            && if now.state == Finalized then socket !in Next(table, step, maxSockets)
               else socket in Next(table, step, maxSockets) && Next(table, step, maxSockets)[socket] == now
  {
  }

  lemma ThroughNext(link: Link, signals: seq<Signal>, signal: Signal)
    ensures Through(link, signals + [signal]) == Heard(Through(link, signals), signal)
  {
    assert (signals + [signal])[..|signals|] == signals;
  }

  lemma {:induction false} SocketLivesAlone(table: Table, steps: seq<Step>, maxSockets: nat, socket: nat)
    requires socket in table && table[socket].state != Finalized && Undisturbed(steps, socket, table[socket].source)
    ensures var link := Through(table[socket], SignalsFor(steps, socket));
            && link.source == table[socket].source
            && if link.state == Finalized then socket !in After(table, steps, maxSockets)
               else socket in After(table, steps, maxSockets) && After(table, steps, maxSockets)[socket] == link
  {
    if steps != [] {
      var earlier, last := steps[..|steps| - 1], steps[|steps| - 1];
      SocketLivesAlone(table, earlier, maxSockets, socket);
      var signals := SignalsFor(earlier, socket);
      var link := Through(table[socket], signals);
      SocketStep(After(table, earlier, maxSockets), last, maxSockets, socket, link);
      if SignalOf(last, socket) == [] {
        assert signals + [] == signals;
      } else {
        ThroughNext(table[socket], signals, SignalOf(last, socket)[0]);
        assert SignalOf(last, socket) == [SignalOf(last, socket)[0]];
      }
    }
  }

  /** In any run, a socket that is opened and never asks for routing is in the table exactly while its ticks total less than two seconds. */
  lemma UnactivatedSocketStays(table: Table, steps: seq<Step>, maxSockets: nat, socket: nat)
    requires Undisturbed(steps, socket, None)
    ensures socket in After(Next(table, Open(socket), maxSockets), steps, maxSockets)
            <==> Elapsed(SignalsFor(steps, socket)) < INITIAL_INACTIVITY_MS
  {
    NoReactivation(steps, socket);
    UnactivatedLivesTwoSeconds(SignalsFor(steps, socket));
    hide Through, Next;
    assert Next(table, Open(socket), maxSockets) == table[socket := NEW_LINK] by { OpenedIsNew(table, socket, maxSockets); }
    SocketLivesAlone(table[socket := NEW_LINK], steps, maxSockets, socket);
  }

  lemma OpenedIsNew(table: Table, socket: nat, maxSockets: nat)
    ensures Next(table, Open(socket), maxSockets) == table[socket := NEW_LINK]
  {
  }

  lemma {:induction false} NoReactivation(steps: seq<Step>, socket: nat)
    requires Undisturbed(steps, socket, None)
    ensures forall i :: 0 <= i < |SignalsFor(steps, socket)| ==> !SignalsFor(steps, socket)[i].Reactivate?
  {
    if steps != [] {
      NoReactivation(steps[..|steps| - 1], socket);
      assert IsUndisturbing(steps[|steps| - 1], socket, None);
    }
  }

  /** In any run, a socket whose routing was just activated is in the table exactly until a tick ends five minutes without traffic or activation on it. */
  lemma ActivatedSocketStays(table: Table, steps: seq<Step>, maxSockets: nat, socket: nat, address: Address)
    requires socket in table && table[socket] == Link(RoutingActive, Some(address), 0) && Undisturbed(steps, socket, Some(address))
    ensures socket in After(table, steps, maxSockets) <==> !FellSilent(SignalsFor(steps, socket))
  {
    ActivatedLivesFiveQuietMinutes(table[socket], SignalsFor(steps, socket));
    SocketLivesAlone(table, steps, maxSockets, socket);
  }

  ghost predicate HasTick(steps: seq<Step>) {
    exists i :: 0 <= i < |steps| && steps[i].TickAll?
  }

  ghost predicate LeavesAlone(steps: seq<Step>, socket: nat) {
    forall i :: 0 <= i < |steps| ==>
      steps[i] != Open(socket) && steps[i] != Close(socket) && !(steps[i].RoutingActivation? && steps[i].socket == socket)
  }

  /** A socket refused routing stays, finalised, until the next tick. */
  lemma {:induction false} RefusedSocketStays(table: Table, steps: seq<Step>, maxSockets: nat, socket: nat)
    requires socket in table && table[socket].state == Finalized && LeavesAlone(steps, socket)
    ensures var now := After(table, steps, maxSockets);
            (socket in now <==> !HasTick(steps)) && (socket in now ==> now[socket].state == Finalized)
  {
    if steps != [] {
      var earlier, last := steps[..|steps| - 1], steps[|steps| - 1];
      RefusedSocketStays(table, earlier, maxSockets, socket);
      assert forall i :: 0 <= i < |earlier| ==> steps[i] == earlier[i];
      assert HasTick(steps) <==> HasTick(earlier) || last.TickAll? by {
        if HasTick(earlier) {
          var i :| 0 <= i < |earlier| && earlier[i].TickAll?;
          assert steps[i].TickAll?;
        }
      }
      FinalizedStep(After(table, earlier, maxSockets), last, maxSockets, socket);
    }
  }

  lemma FinalizedStep(table: Table, step: Step, maxSockets: nat, socket: nat)
    requires socket in table ==> table[socket].state == Finalized
    requires step != Open(socket) && step != Close(socket) && !(step.RoutingActivation? && step.socket == socket)
    ensures var now := Next(table, step, maxSockets);
            (socket in now <==> socket in table && !step.TickAll?) && (socket in now ==> now[socket].state == Finalized)
  {
  }
}
