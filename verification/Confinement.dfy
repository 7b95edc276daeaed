/**
 * Fault confinement of a CAN node (ISO 11898-1 clause 12.1): two error counters, the state they
 * put the node in, and exactly which counter values a node can ever show.
 */
module Confinement {
  import opened Basics

  const ERROR_PASSIVE_THRESHOLD := 127
  const BUS_OFF_THRESHOLD := 255
  const TRANSMIT_ERROR_PENALTY := 8

  type Counter = x: int | 0 <= x < 0x1_0000

  datatype BusState = ErrorActive | ErrorPassive | BusOff

  datatype Counters = Counters(transmit: Counter, receive: Counter, isBusOff: bool)

  datatype Event = TransmitError | ReceiveError | TransmitSuccess | ReceiveSuccess | Recovery | Force(state: BusState)

  const FRESH := Counters(0, 0, false)

  /** Addition and subtraction that stop at the ends of the counter's range. */
  function SaturatingAdd(x: Counter, y: Counter): (sum: Counter)
    ensures x <= sum <= x + y && (sum < x + y ==> sum == 0xFFFF)
  {
    if x + y > 0xFFFF then 0xFFFF else x + y
  }

  function SaturatingSub(x: Counter, y: Counter): (left: Counter)
    ensures x - y <= left <= x && (left > x - y ==> left == 0)
  {
    if x < y then 0 else x - y
  }

  // ---------------------------------------------------------------- one event, as a value

  function StateOf(c: Counters): BusState {
    if c.isBusOff then BusOff
    else if c.transmit > ERROR_PASSIVE_THRESHOLD || c.receive > ERROR_PASSIVE_THRESHOLD then ErrorPassive
    else ErrorActive
  }

  function After(c: Counters, event: Event): Counters {
    match event
    case Recovery => FRESH
    case Force(ErrorActive) => FRESH
    case Force(ErrorPassive) => Counters(ERROR_PASSIVE_THRESHOLD + 1, 0, false)
    case Force(BusOff) => Counters(BUS_OFF_THRESHOLD + 1, c.receive, true)
    case TransmitError =>
      if c.isBusOff then c
      else
        var raised := SaturatingAdd(c.transmit, TRANSMIT_ERROR_PENALTY);
        Counters(raised, c.receive, raised > BUS_OFF_THRESHOLD)
    case ReceiveError =>
      if c.isBusOff then c
      else
        var raised := SaturatingAdd(c.receive, 1);
        c.(receive := if raised < BUS_OFF_THRESHOLD then raised else BUS_OFF_THRESHOLD)
    case TransmitSuccess => if c.isBusOff then c else c.(transmit := SaturatingSub(c.transmit, 1))
    case ReceiveSuccess => if c.isBusOff then c else c.(receive := SaturatingSub(c.receive, 1))
  }

  function Run(c: Counters, events: seq<Event>): Counters {
    if events == [] then c else After(Run(c, events[..|events| - 1]), events[|events| - 1])
  }

  // ---------------------------------------------------------------- the node itself

  class FaultConfinement {
    var transmit: Counter
    var receive: Counter
    var isBusOff: bool

    constructor ()
      ensures Now() == FRESH
    {
      transmit, receive, isBusOff := 0, 0, false;
    }

    function Now(): Counters
      reads this
    {
      Counters(transmit, receive, isBusOff)
    }

    method State() returns (state: BusState)
      ensures state == StateOf(Now())
    {
      if isBusOff { return BusOff; }
      var isPassive := transmit > ERROR_PASSIVE_THRESHOLD || receive > ERROR_PASSIVE_THRESHOLD;
      return if isPassive then ErrorPassive else ErrorActive;
    }

    method OnTransmitError()
      modifies this
      ensures Now() == After(old(Now()), TransmitError)
    {
      if isBusOff { return; }
      transmit := SaturatingAdd(transmit, TRANSMIT_ERROR_PENALTY);
      if transmit > BUS_OFF_THRESHOLD { isBusOff := true; }
    }

    method OnReceiveError()
      modifies this
      ensures Now() == After(old(Now()), ReceiveError)
    {
      if isBusOff { return; }
      var raised := SaturatingAdd(receive, 1);
      receive := if raised < BUS_OFF_THRESHOLD then raised else BUS_OFF_THRESHOLD;
    }

    method OnTransmitSuccess()
      modifies this
      ensures Now() == After(old(Now()), TransmitSuccess)
    {
      if isBusOff { return; }
      transmit := SaturatingSub(transmit, 1);
    }

    method OnReceiveSuccess()
      modifies this
      ensures Now() == After(old(Now()), ReceiveSuccess)
    {
      if isBusOff { return; }
      receive := SaturatingSub(receive, 1);
    }

    method Recover()
      modifies this
      ensures Now() == After(old(Now()), Recovery)
    {
      transmit, receive, isBusOff := 0, 0, false;
    }

    /** Jump to a state without the errors that lead there. */
    method ForceState(state: BusState)
      modifies this
      ensures Now() == After(old(Now()), Force(state)) && StateOf(Now()) == state
    {
      match state
      case ErrorActive => Recover();
      case ErrorPassive =>
        isBusOff := false;
        transmit := ERROR_PASSIVE_THRESHOLD + 1;
        receive := 0;
      case BusOff =>
        isBusOff := true;
        transmit := BUS_OFF_THRESHOLD + 1;
    }
  }

  // ---------------------------------------------------------------- the reachable states

  /** On the bus with both counters within range, or off it with the overshoot of a single penalty. */
  ghost predicate Attainable(c: Counters) {
    && c.receive <= 255
    && if c.isBusOff then 256 <= c.transmit <= 263 else c.transmit <= 255
  }

  ghost predicate Unforced(events: seq<Event>) {
    forall i :: 0 <= i < |events| ==> !events[i].Force?
  }

  /** Only what the bus itself does: no recovery and no forcing. */
  ghost predicate OnlyBusEvents(events: seq<Event>) {
    forall i :: 0 <= i < |events| ==> !events[i].Force? && !events[i].Recovery?
  }

  /** Every run, forced states included, stays within the attainable ones. */
  lemma {:induction false} RunsStayAttainable(events: seq<Event>)
    ensures Attainable(Run(FRESH, events))
  {
    if events != [] { RunsStayAttainable(events[..|events| - 1]); }
  }

  lemma {:induction false} RunJoins(c: Counters, first: seq<Event>, second: seq<Event>)
    ensures Run(c, first + second) == Run(Run(c, first), second)
  {
    if second == [] {
      assert first + second == first;
    } else {
      var all := first + second;
      assert all[..|all| - 1] == first + second[..|second| - 1];
      RunJoins(c, first, second[..|second| - 1]);
    }
  }

  /** Counting the receive counter up from a node that is on the bus. */
  lemma {:induction false} CountReceive(c: Counters, target: nat) returns (events: seq<Event>)
    requires !c.isBusOff && c.receive == 0 && target <= BUS_OFF_THRESHOLD
    ensures OnlyBusEvents(events) && Run(c, events) == c.(receive := target)
    decreases target
  {
    if target == 0 {
      events := [];
    } else {
      var earlier := CountReceive(c, target - 1);
      events := earlier + [ReceiveError];
      assert events[..|events| - 1] == earlier;
    }
  }

  /** Paying `errors` penalties without going off the bus. */
  lemma {:induction false} PayPenalties(errors: nat) returns (events: seq<Event>)
    requires errors * TRANSMIT_ERROR_PENALTY <= BUS_OFF_THRESHOLD
    ensures OnlyBusEvents(events) && Run(FRESH, events) == Counters(errors * TRANSMIT_ERROR_PENALTY, 0, false)
    decreases errors
  {
    if errors == 0 {
      events := [];
    } else {
      var earlier := PayPenalties(errors - 1);
      events := earlier + [TransmitError];
      assert events[..|events| - 1] == earlier;
    }
  }

  lemma {:induction false} EarnBack(c: Counters, credits: nat) returns (events: seq<Event>)
    requires !c.isBusOff && credits <= c.transmit
    ensures OnlyBusEvents(events) && Run(c, events) == c.(transmit := c.transmit - credits)
    decreases credits
  {
    if credits == 0 {
      events := [];
    } else {
      var earlier := EarnBack(c, credits - 1);
      events := earlier + [TransmitSuccess];
      assert events[..|events| - 1] == earlier;
    }
  }

  /** Reaching a transmit count: pay enough penalties, then earn back the rest. */
  lemma CountTransmit(target: nat) returns (events: seq<Event>)
    requires target <= 248
    ensures OnlyBusEvents(events) && Run(FRESH, events) == Counters(target, 0, false)
  {
    var errors := (target + 7) / 8;
    var paid := PayPenalties(errors);
    var earned := EarnBack(Counters(errors * 8, 0, false), errors * 8 - target);
    events := paid + earned;
    RunJoins(FRESH, paid, earned);
  }

  lemma OneMoreError(c: Counters, events: seq<Event>) returns (more: seq<Event>)
    requires OnlyBusEvents(events) && Run(FRESH, events) == c && !c.isBusOff && c.transmit <= BUS_OFF_THRESHOLD
    ensures OnlyBusEvents(more)
    ensures Run(FRESH, more) == Counters(c.transmit + 8, c.receive, c.transmit + 8 > BUS_OFF_THRESHOLD)
  {
    more := events + [TransmitError];
    assert more[..|more| - 1] == events;
  }

  /** And every attainable state is reached by the four bus events alone. */
  lemma AttainableIsReached(c: Counters) returns (events: seq<Event>)
    requires Attainable(c)
    ensures OnlyBusEvents(events) && Run(FRESH, events) == c
  {
    var start: nat := if c.transmit <= 248 then c.transmit else if c.transmit <= 256 then c.transmit - 8 else c.transmit - 16;
    events := CountTransmit(start);
    var heard := CountReceive(Counters(start, 0, false), c.receive);
    RunJoins(FRESH, events, heard);
    events := events + heard;
    if c.transmit > 248 {
      events := OneMoreError(Counters(start, c.receive, false), events);
    }
    if c.transmit > 256 {
      events := OneMoreError(Counters(start + 8, c.receive, false), events);
    }
  }

  /** The reachable states, exactly: with recovery, with forcing, or with neither. */
  lemma ReachableExactly(c: Counters)
    ensures Attainable(c) <==> exists events :: Run(FRESH, events) == c
    ensures Attainable(c) <==> exists events :: OnlyBusEvents(events) && Run(FRESH, events) == c
  {
    if Attainable(c) { var events := AttainableIsReached(c); }
    forall events | Run(FRESH, events) == c ensures Attainable(c) {
      RunsStayAttainable(events);
    }
  }

  // ---------------------------------------------------------------- how far bus-off is

  function TransmitErrors(events: seq<Event>): nat {
    if events == [] then 0
    else TransmitErrors(events[..|events| - 1]) + (if events[|events| - 1] == TransmitError then 1 else 0)
  }

  ghost function TransmitErrorPlaces(events: seq<Event>): set<nat> {
    set k: nat | k < |events| && events[k] == TransmitError
  }

  lemma {:induction false} TransmitErrorsCounted(events: seq<Event>)
    ensures TransmitErrors(events) == |TransmitErrorPlaces(events)|
  {
    if events == [] {
      assert TransmitErrorPlaces(events) == {};
    } else {
      var n := |events| - 1;
      TransmitErrorsCounted(events[..n]);
      assert TransmitErrorPlaces(events) == TransmitErrorPlaces(events[..n]) + (if events[n] == TransmitError then {n} else {});
    }
  }

  lemma {:induction false} PenaltiesBoundTheCounter(events: seq<Event>)
    requires Unforced(events)
    ensures Run(FRESH, events).transmit <= TRANSMIT_ERROR_PENALTY * TransmitErrors(events)
  {
    if events != [] { PenaltiesBoundTheCounter(events[..|events| - 1]); }
  }

  /** Unless somebody forces it, bus-off takes at least 32 transmit errors, and 32 in a row suffice. */
  lemma BusOffTakes32(events: seq<Event>)
    requires Unforced(events)
    ensures StateOf(Run(FRESH, events)) == BusOff ==> |TransmitErrorPlaces(events)| >= 32
    ensures events == seq(32, _ => TransmitError) ==> StateOf(Run(FRESH, events)) == BusOff
  {
    PenaltiesBoundTheCounter(events);
    TransmitErrorsCounted(events);
    RunsStayAttainable(events);
    if events == seq(32, _ => TransmitError) {
      ErrorsInARow(events, 31);
      assert events[..32] == events;
      assert events[..32][..31] == events[..31];
    }
  }

  lemma {:induction false} ErrorsInARow(events: seq<Event>, n: nat)
    requires n <= 31 && n <= |events| && forall i :: 0 <= i < n ==> events[i] == TransmitError
    ensures Run(FRESH, events[..n]) == Counters(8 * n, 0, false)
    decreases n
  {
    if n > 0 {
      ErrorsInARow(events, n - 1);
      assert events[..n][..n - 1] == events[..n - 1];
    }
  }

  /** Error-passive is exactly a counter past 127 on the bus. */
  lemma PassivePast127(c: Counters)
    ensures StateOf(c) == ErrorPassive <==> !c.isBusOff && (c.transmit >= 128 || c.receive >= 128)
    ensures StateOf(c) == BusOff <==> c.isBusOff
  {
  }

  /** On the bus each success takes one off its own counter, down to zero, and nothing else. */
  lemma {:induction false} SuccessesPayBack(c: Counters, n: nat)
    requires !c.isBusOff
    ensures Run(c, seq(n, _ => TransmitSuccess)) == c.(transmit := if n < c.transmit then c.transmit - n else 0)
    ensures Run(c, seq(n, _ => ReceiveSuccess)) == c.(receive := if n < c.receive then c.receive - n else 0)
    decreases n
  {
    if n > 0 {
      SuccessesPayBack(c, n - 1);
      assert seq(n, _ => TransmitSuccess)[..n - 1] == seq(n - 1, _ => TransmitSuccess);
      assert seq(n, _ => ReceiveSuccess)[..n - 1] == seq(n - 1, _ => ReceiveSuccess);
    } else {
      assert seq(0, _ => TransmitSuccess) == [] && seq(0, _ => ReceiveSuccess) == [];
    }
  }

  /** Sixteen transmit errors, or 128 receive errors, make a fresh node passive, and one fewer does not. */
  lemma PassiveTakes16Or128(n: nat)
    ensures n <= 31 ==> (StateOf(Run(FRESH, seq(n, _ => TransmitError))) == ErrorPassive <==> n >= 16)
    ensures n <= 255 ==> (StateOf(Run(FRESH, seq(n, _ => ReceiveError))) == ErrorPassive <==> n >= 128)
  {
    if n <= 31 {
      var events := seq(n, _ => TransmitError);
      ErrorsInARow(events, n);
      assert events[..n] == events;
    }
    if n <= 255 { ReceiveErrorsInARow(n); }
  }

  lemma {:induction false} ReceiveErrorsInARow(n: nat)
    requires n <= 255
    ensures Run(FRESH, seq(n, _ => ReceiveError)) == Counters(0, n, false)
    decreases n
  {
    if n > 0 {
      ReceiveErrorsInARow(n - 1);
      assert seq(n, _ => ReceiveError)[..n - 1] == seq(n - 1, _ => ReceiveError);
    } else {
      assert seq(0, _ => ReceiveError) == [];
    }
  }

  /** Forcing a state leaves the counters a node would just about have in it. */
  lemma ForcedCounters(c: Counters)
    ensures After(c, Force(ErrorActive)) == After(c, Recovery) == Counters(0, 0, false)
    ensures After(c, Force(ErrorPassive)) == Counters(128, 0, false)
    ensures After(c, Force(BusOff)) == Counters(256, c.receive, true)
  {
  }

  /** Once off the bus, nothing short of recovery or forcing changes anything. */
  lemma {:induction false} BusOffIsSilent(c: Counters, events: seq<Event>)
    requires c.isBusOff && OnlyBusEvents(events)
    ensures Run(c, events) == c
  {
    if events != [] {
      BusOffIsSilent(c, events[..|events| - 1]);
    }
  }
}
