/**
 * Response overrides: masked matching, choosing the most specific one, validating, and building
 * the response with runs of the request echoed into it.
 */
module Overrides {
  import opened Basics

  const POSITIVE_RESPONSE_OFFSET := 0x40
  const NEGATIVE_RESPONSE_SID := 0x7F
  const NRC_RESPONSE_PENDING := 0x78

  const WORD := 0x1_0000_0000_0000_0000

  /** A machine word: offsets and lengths are stored in one, and sums of them wrap around. */
  type Word = n: nat | n < WORD

  datatype EchoSpan = EchoSpan(requestOffset: Word, length: Word, responseOffset: Word)

  /** What an override answers a request with; copying through a span whose end lies before its start panics. */
  datatype Answer = Silence | Bytes(bytes: seq<Byte>) | Panicked

  datatype OverrideAction = Substitute(response: seq<Byte>, echoSpans: seq<EchoSpan>) | Suppress

  datatype ResponseOverride = ResponseOverride(
    pattern: seq<Byte>,
    mask: seq<Byte>,
    matchTrailingBytes: bool,
    action: OverrideAction,
    isEnabled: bool,
    respondEvenIfSuppressed: bool,
    note: string)

  datatype OverrideError =
    | EmptyRequestPattern
    | MaskLengthMismatch(patternLength: nat, maskLength: nat)
    | EverythingWildcarded
    | ServiceIdWildcarded
    | NotARequestServiceId(serviceId: Byte)
    | EmptySubstituteResponse
    | ResponseSidMismatch(responseSid: Byte, requestSid: Byte, expected: Byte)
    | MalformedNegativeResponse(length: nat)
    | NegativeResponseSidMismatch(echoedSid: Byte, requestSid: Byte)
    | ResponsePendingAsOverride
    | EchoSpanOutsideRequest(requestOffset: nat, requestEnd: nat)
    | EchoSpanOutsideResponse(responseOffset: nat, responseEnd: nat, responseLength: nat)

  // ---------------------------------------------------------------- bits

  /** Bitwise and, one bit at a time. */
  function And(a: nat, m: nat): nat {
    if m == 0 then 0 else 2 * And(a / 2, m / 2) + (if a % 2 == 1 && m % 2 == 1 then 1 else 0)
  }

  function Pow2(n: nat): nat {
    if n == 0 then 1 else 2 * Pow2(n - 1)
  }

  lemma {:induction false} AndOnes(a: nat, n: nat)
    requires a < Pow2(n)
    ensures And(a, Pow2(n) - 1) == a
  {
    if n > 0 { AndOnes(a / 2, n - 1); }
  }

  lemma EightOnes(a: Byte)
    ensures And(a, 0xFF) == a
  {
    assert Pow2(8) == 256 by { assert Pow2(4) == 16; }
    AndOnes(a, 8);
  }

  predicate HasBit(n: nat, k: nat) {
    if k == 0 then n % 2 == 1 else HasBit(n / 2, k - 1)
  }

  /** The bits of both, and no others. */
  lemma {:induction false} AndBits(a: nat, m: nat, k: nat)
    ensures HasBit(And(a, m), k) <==> HasBit(a, k) && HasBit(m, k)
    decreases k
  {
    if m == 0 {
      NoBits(k);
    } else if k > 0 {
      AndBits(a / 2, m / 2, k - 1);
    }
  }

  lemma {:induction false} NoBits(k: nat)
    ensures !HasBit(0, k)
  {
    if k > 0 { NoBits(k - 1); }
  }

  /** Numbers with the same bits are the same. */
  lemma {:induction false} BitsDecide(a: nat, b: nat)
    requires forall k: nat :: HasBit(a, k) == HasBit(b, k)
    ensures a == b
    decreases a + b
  {
    assert HasBit(a, 0) == HasBit(b, 0);
    if a + b > 0 {
      forall k: nat ensures HasBit(a / 2, k) == HasBit(b / 2, k) {
        assert HasBit(a, k + 1) == HasBit(b, k + 1);
      }
      BitsDecide(a / 2, b / 2);
    }
  }

  ghost predicate AgreeWhere(m: nat, a: nat, b: nat) {
    forall k: nat :: HasBit(m, k) ==> HasBit(a, k) == HasBit(b, k)
  }

  /** Two values look the same under a mask exactly when they agree wherever it has a bit. */
  lemma SameUnderMask(a: nat, b: nat, m: nat)
    ensures And(a, m) == And(b, m) <==> AgreeWhere(m, a, b)
  {
    forall k: nat
      ensures HasBit(And(a, m), k) <==> HasBit(a, k) && HasBit(m, k)
      ensures HasBit(And(b, m), k) <==> HasBit(b, k) && HasBit(m, k)
    {
      AndBits(a, m, k);
      AndBits(b, m, k);
    }
    hide And;
    if AgreeWhere(m, a, b) { BitsDecide(And(a, m), And(b, m)); }
  }

  /** Wherever a mask leaves a bit open, two different values pass it. */
  lemma {:induction false} AnotherPasses(p: nat, m: nat, n: nat) returns (q: nat)
    requires p < Pow2(n) && m < Pow2(n) - 1
    ensures q < Pow2(n) && q != p && And(q, m) == And(p, m)
    decreases n
  {
    if m % 2 == 0 {
      q := LastBitFlipped(p, m, n);
    } else {
      var upper := AnotherPasses(p / 2, m / 2, n - 1);
      q := 2 * upper + p % 2;
      hide Pow2;
      SameHalves(q, p, m);
    }
  }

  lemma LastBitFlipped(p: nat, m: nat, n: nat) returns (q: nat)
    requires m % 2 == 0 && n > 0 && p < Pow2(n)
    ensures q < Pow2(n) && q != p && And(q, m) == And(p, m)
  {
    q := 2 * (p / 2) + (1 - p % 2);
    hide And;
    OtherOfThePair(p, q, Pow2(n - 1));
    hide Pow2;
    SameHalves(q, p, m);
  }

  lemma OtherOfThePair(p: nat, q: nat, half: nat)
    requires q == 2 * (p / 2) + (1 - p % 2) && p < 2 * half
    ensures q < 2 * half && q != p && q / 2 == p / 2
  {
  }

  lemma SameHalves(q: nat, p: nat, m: nat)
    requires And(q / 2, m / 2) == And(p / 2, m / 2) && (m % 2 == 0 || q % 2 == p % 2)
    ensures And(q, m) == And(p, m)
  {
  }

  // ---------------------------------------------------------------- matching

  predicate LengthAcceptable(o: ResponseOverride, length: nat) {
    if o.matchTrailingBytes then length >= |o.pattern| else length == |o.pattern|
  }

  /** When an override applies to a request. */
  predicate Applies(o: ResponseOverride, request: seq<Byte>) {
    && o.isEnabled && o.pattern != [] && |o.mask| == |o.pattern|
    && LengthAcceptable(o, |request|)
    && forall k :: 0 <= k < |o.pattern| ==> And(request[k], o.mask[k]) == And(o.pattern[k], o.mask[k])
  }

  /**
   * An override without trailing bytes matches only requests as long as its pattern; with them, a match
   * is decided by the bytes under the pattern. What is enabled and well-formed matches its own pattern.
   */
  method Matches(o: ResponseOverride, request: seq<Byte>) returns (matches: bool)
    ensures matches <==> Applies(o, request)
    ensures matches && !o.matchTrailingBytes ==> |request| == |o.pattern|
    ensures matches && o.matchTrailingBytes ==> |request| >= |o.pattern|
    ensures o.isEnabled && |o.mask| == |o.pattern| > 0 && o.pattern == request ==> matches
    ensures o.isEnabled && |o.mask| == |o.pattern| > 0 && o.matchTrailingBytes && o.pattern <= request ==> matches
  {
    if !o.isEnabled || o.pattern == [] { return false; }
    if |o.mask| != |o.pattern| { return false; }
    if !LengthAcceptable(o, |request|) { return false; }
    for k := 0 to |o.pattern|
      invariant forall j :: 0 <= j < k ==> And(request[j], o.mask[j]) == And(o.pattern[j], o.mask[j])
    {
      if And(request[k], o.mask[k]) != And(o.pattern[k], o.mask[k]) {
        return false;
      }
    }
    return true;
  }

  /** With trailing bytes allowed, nothing behind the pattern decides. */
  lemma TrailingBytesDecideNothing(o: ResponseOverride, request: seq<Byte>, more: seq<Byte>)
    requires o.matchTrailingBytes && |request| >= |o.pattern|
    ensures Applies(o, request + more) <==> Applies(o, request)
  {
    assert forall k :: 0 <= k < |o.pattern| ==> (request + more)[k] == request[k];
    hide And;
  }

  /** Without, any byte behind a matching request ends the match. */
  lemma TrailingBytesEndTheMatch(o: ResponseOverride, request: seq<Byte>, more: seq<Byte>)
    requires !o.matchTrailingBytes && Applies(o, request) && more != []
    ensures !Applies(o, request + more)
  {
    hide And;
    assert |request + more| > |o.pattern|;
  }

  /** A request as long as the pattern matches exactly when it has the pattern's bits wherever the mask has one. */
  lemma MatchesBitByBit(o: ResponseOverride, request: seq<Byte>)
    requires o.isEnabled && o.pattern != [] && |o.mask| == |o.pattern| && |request| == |o.pattern|
    ensures Applies(o, request) <==> forall i :: 0 <= i < |o.pattern| ==> AgreeWhere(o.mask[i], request[i], o.pattern[i])
  {
    forall i | 0 <= i < |o.pattern|
      ensures And(request[i], o.mask[i]) == And(o.pattern[i], o.mask[i]) <==> AgreeWhere(o.mask[i], request[i], o.pattern[i])
    {
      SameUnderMask(request[i], o.pattern[i], o.mask[i]);
    }
    hide And, AgreeWhere;
  }

  // ---------------------------------------------------------------- specificity

  datatype Rank = Rank(fixedBytes: nat, length: nat, isAnchored: bool)

  function FixedBytes(mask: seq<Byte>): nat {
    if mask == [] then 0 else (if mask[0] != 0 then 1 else 0) + FixedBytes(mask[1..])
  }

  function Specificity(o: ResponseOverride): Rank {
    Rank(FixedBytes(o.mask), |o.pattern|, !o.matchTrailingBytes)
  }

  /** Lexicographic: fixed bytes, then length, then anchored over prefix. */
  predicate AtMost(a: Rank, b: Rank) {
    || a.fixedBytes < b.fixedBytes
    || (a.fixedBytes == b.fixedBytes
        && (a.length < b.length || (a.length == b.length && (a.isAnchored ==> b.isAnchored))))
  }

  /** The matching override of greatest rank; of several, the last in the list. */
  function FindMatchingOverride(overrides: seq<ResponseOverride>, request: seq<Byte>): Option<ResponseOverride> {
    if overrides == [] then None
    else
      var last := overrides[|overrides| - 1];
      var best := FindMatchingOverride(overrides[..|overrides| - 1], request);
      if !Applies(last, request) then best
      else if best.None? || AtMost(Specificity(best.value), Specificity(last)) then Some(last)
      else best
  }

  /** Applies, and nothing that applies outranks it. */
  ghost predicate IsMostSpecific(o: ResponseOverride, overrides: seq<ResponseOverride>, request: seq<Byte>) {
    && o in overrides && Applies(o, request)
    && forall other :: other in overrides && Applies(other, request) ==> AtMost(Specificity(other), Specificity(o))
  }

  lemma {:induction false} FindsMostSpecific(overrides: seq<ResponseOverride>, request: seq<Byte>)
    ensures var found := FindMatchingOverride(overrides, request);
            && (found.None? <==> forall o :: o in overrides ==> !Applies(o, request))
            && (found.Some? ==> IsMostSpecific(found.value, overrides, request))
  {
    if overrides != [] {
      var earlier, last := overrides[..|overrides| - 1], overrides[|overrides| - 1];
      FindsMostSpecific(earlier, request);
      assert forall o :: o in overrides <==> o in earlier || o == last;
    }
  }

  /** Where a mask fixes something of its byte. */
  ghost function FixedPlaces(mask: seq<Byte>): set<nat> {
    set i: nat | i < |mask| && mask[i] != 0
  }

  lemma {:induction false} FixedBytesCount(mask: seq<Byte>)
    ensures FixedBytes(mask) == |FixedPlaces(mask)|
  {
    if mask == [] {
      assert FixedPlaces(mask) == {};
    } else {
      var rest := mask[1..];
      FixedBytesCount(rest);
      ShiftedIsAsLarge(FixedPlaces(rest));
      assert FixedPlaces(mask) == (if mask[0] != 0 then {0} else {}) + Shifted(FixedPlaces(rest));
    }
  }

  lemma {:induction false} ShiftedIsAsLarge(s: set<nat>)
    ensures |Shifted(s)| == |s|
  {
    if s == {} {
      assert Shifted(s) == {};
    } else {
      var x :| x in s;
      var rest := s - {x};
      ShiftedIsAsLarge(rest);
      assert x + 1 !in Shifted(rest) && s == rest + {x};
      assert Shifted(s) == Shifted(rest) + {x + 1};
    }
  }

  ghost function Shifted(s: set<nat>): (shifted: set<nat>)
    ensures forall i: nat :: i in shifted <==> i > 0 && i - 1 in s
  {
    var shifted := set i | i in s :: i + 1;
    assert forall i: nat :: i in s ==> i + 1 in shifted;
    shifted
  }

  /** Fewer places fixed; or as many and a shorter pattern; or as long and not anchored where the other is not. */
  ghost predicate NoMoreSpecific(other: ResponseOverride, o: ResponseOverride) {
    var (places, here) := (|FixedPlaces(other.mask)|, |FixedPlaces(o.mask)|);
    || places < here
    || (places == here && |other.pattern| < |o.pattern|)
    || (places == here && |other.pattern| == |o.pattern| && (o.matchTrailingBytes ==> other.matchTrailingBytes))
  }

  /** The choice matches, and no match fixes more, or as much over a longer pattern, or the same anchored where it is not. */
  lemma NoMatchIsMoreSpecific(overrides: seq<ResponseOverride>, request: seq<Byte>)
    requires FindMatchingOverride(overrides, request).Some?
    ensures var found := FindMatchingOverride(overrides, request).value;
            && found in overrides && Applies(found, request)
            && forall other :: other in overrides && Applies(other, request) ==> NoMoreSpecific(other, found)
  {
    hide FixedBytes, FixedPlaces, Applies;
    FindsMostSpecific(overrides, request);
    var found := FindMatchingOverride(overrides, request).value;
    FixedBytesCount(found.mask);
    forall other | other in overrides && Applies(other, request) ensures NoMoreSpecific(other, found) {
      FixedBytesCount(other.mask);
      assert AtMost(Specificity(other), Specificity(found));
    }
  }

  /** Of several equally specific matches, the chosen one stands last. */
  lemma {:induction false} FindsTheLastOfEquals(overrides: seq<ResponseOverride>, request: seq<Byte>) returns (k: nat)
    requires FindMatchingOverride(overrides, request).Some?
    ensures k < |overrides| && overrides[k] == FindMatchingOverride(overrides, request).value
    ensures forall j :: k < j < |overrides| && Applies(overrides[j], request) ==>
              !AtMost(Specificity(overrides[k]), Specificity(overrides[j]))
  {
    var earlier, last := overrides[..|overrides| - 1], overrides[|overrides| - 1];
    var best := FindMatchingOverride(earlier, request);
    if Applies(last, request) && (best.None? || AtMost(Specificity(best.value), Specificity(last))) {
      k := |overrides| - 1;
    } else {
      k := FindsTheLastOfEquals(earlier, request);
    }
  }

  /** What a permutation of the list keeps: whether anything matches, and how specific the choice is. */
  lemma PermutingKeepsSpecificity(a: seq<ResponseOverride>, b: seq<ResponseOverride>, request: seq<Byte>)
    requires multiset(a) == multiset(b)
    ensures var x, y := FindMatchingOverride(a, request), FindMatchingOverride(b, request);
            && (x.Some? <==> y.Some?)
            && (x.Some? ==> Specificity(x.value) == Specificity(y.value) && IsMostSpecific(x.value, b, request))
  {
    FindsMostSpecific(a, request);
    FindsMostSpecific(b, request);
    SameElements(a, b);
  }

  lemma SameElements<T>(a: seq<T>, b: seq<T>)
    requires multiset(a) == multiset(b)
    ensures forall x :: x in a <==> x in b
  {
    forall x ensures x in a <==> x in b {
      assert x in a <==> x in multiset(a);
      assert x in b <==> x in multiset(b);
    }
  }

  /** All the most specific matches are the same override. */
  ghost predicate HasOneWinner(overrides: seq<ResponseOverride>, request: seq<Byte>) {
    forall x, y :: IsMostSpecific(x, overrides, request) && IsMostSpecific(y, overrides, request) ==> x == y
  }

  ghost predicate OrderIndependent(overrides: seq<ResponseOverride>, request: seq<Byte>) {
    forall other: seq<ResponseOverride> :: multiset(other) == multiset(overrides) ==>
      FindMatchingOverride(other, request) == FindMatchingOverride(overrides, request)
  }

  /** Reordering the list can change the answer exactly when two different overrides tie for most specific. */
  lemma OrderIndependentExactly(overrides: seq<ResponseOverride>, request: seq<Byte>)
    ensures OrderIndependent(overrides, request) <==> HasOneWinner(overrides, request)
  {
    if HasOneWinner(overrides, request) {
      forall other: seq<ResponseOverride> | multiset(other) == multiset(overrides)
        ensures FindMatchingOverride(other, request) == FindMatchingOverride(overrides, request)
      {
        PermutingKeepsSpecificity(other, overrides, request);
        FindsMostSpecific(overrides, request);
      }
    } else {
      var x, y :| IsMostSpecific(x, overrides, request) && IsMostSpecific(y, overrides, request) && x != y;
      TieDependsOnOrder(overrides, request, x, y);
    }
  }

  lemma TieDependsOnOrder(overrides: seq<ResponseOverride>, request: seq<Byte>, x: ResponseOverride, y: ResponseOverride)
    requires IsMostSpecific(x, overrides, request) && IsMostSpecific(y, overrides, request) && x != y
    ensures !OrderIndependent(overrides, request)
  {
    var ends := MoveToEnd(overrides, x);
    var other := MoveToEnd(overrides, y);
    LastWinnerIsFound(ends, overrides, request, x);
    LastWinnerIsFound(other, overrides, request, y);
    assert FindMatchingOverride(ends, request) != FindMatchingOverride(other, request);
  }

  lemma MoveToEnd<T>(s: seq<T>, x: T) returns (moved: seq<T>)
    requires x in s
    ensures multiset(moved) == multiset(s) && |moved| > 0 && moved[|moved| - 1] == x
  {
    var k :| 0 <= k < |s| && s[k] == x;
    moved := s[..k] + s[k + 1..] + [x];
    assert s == s[..k] + [x] + s[k + 1..];
  }

  lemma LastWinnerIsFound(moved: seq<ResponseOverride>, overrides: seq<ResponseOverride>, request: seq<Byte>, x: ResponseOverride)
    requires multiset(moved) == multiset(overrides) && |moved| > 0 && moved[|moved| - 1] == x
    requires IsMostSpecific(x, overrides, request)
    ensures FindMatchingOverride(moved, request) == Some(x)
  {
    SameElements(moved, overrides);
    FindsMostSpecific(moved[..|moved| - 1], request);
  }

  // ---------------------------------------------------------------- validation

  /** Identifiers a UDS request may start with: Table 2 in clause 7.3 of ISO 14229-1. */
  predicate IsRequestServiceId(serviceId: Byte) {
    0x10 <= serviceId <= 0x3E || 0x83 <= serviceId <= 0x88
  }

  function WrappingAdd(a: Byte, b: Byte): Byte {
    (a + b) % 256
  }

  function ValidateNegativeResponse(response: seq<Byte>, requestSid: Byte): Result<(), OverrideError> {
    if |response| != 3 then Err(MalformedNegativeResponse(|response|))
    else if response[1] != requestSid then Err(NegativeResponseSidMismatch(response[1], requestSid))
    else if response[2] == NRC_RESPONSE_PENDING then Err(ResponsePendingAsOverride)
    else Ok(())
  }

  /** Where a run ends, wrapped around. */
  function EndOf(offset: Word, length: Word): Word {
    if offset + length < WORD then offset + length else offset + length - WORD
  }

  /** One of the two ends of a span wraps around, and so comes to lie before its start. */
  predicate Wraps(span: EchoSpan) {
    span.requestOffset + span.length >= WORD || span.responseOffset + span.length >= WORD
  }

  predicate SpansWrap(o: ResponseOverride) {
    o.action.Substitute? && exists k :: 0 <= k < |o.action.echoSpans| && Wraps(o.action.echoSpans[k])
  }

  function ValidateEchoSpan(span: EchoSpan, pattern: seq<Byte>, response: seq<Byte>): Result<(), OverrideError> {
    var requestEnd := EndOf(span.requestOffset, span.length);
    var responseEnd := EndOf(span.responseOffset, span.length);
    if requestEnd > |pattern| then Err(EchoSpanOutsideRequest(span.requestOffset, requestEnd))
    else if responseEnd > |response| then Err(EchoSpanOutsideResponse(span.responseOffset, responseEnd, |response|))
    else Ok(())
  }

  function ValidateEchoSpans(spans: seq<EchoSpan>, pattern: seq<Byte>, response: seq<Byte>): Result<(), OverrideError> {
    if spans == [] then Ok(())
    else
      var first := ValidateEchoSpan(spans[0], pattern, response);
      if first.Err? then first else ValidateEchoSpans(spans[1..], pattern, response)
  }

  function ValidateAction(o: ResponseOverride, requestSid: Byte): Result<(), OverrideError> {
    match o.action
    case Suppress => Ok(())
    case Substitute(response, spans) =>
      if response == [] then Err(EmptySubstituteResponse)
      else
        var answers :=
          if response[0] == NEGATIVE_RESPONSE_SID then ValidateNegativeResponse(response, requestSid)
          else
            var expected := WrappingAdd(requestSid, POSITIVE_RESPONSE_OFFSET);
            if response[0] != expected then Err(ResponseSidMismatch(response[0], requestSid, expected)) else Ok(());
        if answers.Err? then answers else ValidateEchoSpans(spans, o.pattern, response)
  }

  function Validate(o: ResponseOverride): Result<(), OverrideError> {
    if o.pattern == [] then Err(EmptyRequestPattern)
    else if |o.mask| != |o.pattern| then Err(MaskLengthMismatch(|o.pattern|, |o.mask|))
    else if forall k :: 0 <= k < |o.mask| ==> o.mask[k] == 0 then Err(EverythingWildcarded)
    else if o.mask[0] != 0xFF then Err(ServiceIdWildcarded)
    else if !IsRequestServiceId(o.pattern[0]) then Err(NotARequestServiceId(o.pattern[0]))
    else ValidateAction(o, o.pattern[0])
  }

  /** An exchange that could take place on a bus. */
  ghost predicate CouldBeReal(o: ResponseOverride) {
    && LooksReal(o)
    && (o.action.Substitute? ==>
          forall k :: 0 <= k < |o.action.echoSpans| ==> SpanFits(o.action.echoSpans[k], |o.pattern|, |o.action.response|))
  }

  /** The same but for its spans. */
  ghost predicate LooksReal(o: ResponseOverride) {
    && |o.pattern| == |o.mask| > 0 && o.mask[0] == 0xFF
    && (0x10 <= o.pattern[0] <= 0x3E || 0x83 <= o.pattern[0] <= 0x88)
    && (o.action.Substitute? ==> Answers(o.action.response, o.pattern[0]))
  }

  /** A positive response to the service, or a final refusal of it. */
  ghost predicate Answers(response: seq<Byte>, requestSid: Byte) {
    || (response != [] && response[0] == requestSid + 0x40)
    || (|response| == 3 && response[0] == 0x7F && response[1] == requestSid && response[2] != 0x78)
  }

  ghost predicate SpanFits(span: EchoSpan, requestLength: nat, responseLength: nat) {
    && !Wraps(span)
    && span.requestOffset + span.length <= requestLength && span.responseOffset + span.length <= responseLength
  }

  /** Both ends, as the machine computes them, are within reach. */
  predicate SpanPasses(span: EchoSpan, requestLength: nat, responseLength: nat) {
    EndOf(span.requestOffset, span.length) <= requestLength && EndOf(span.responseOffset, span.length) <= responseLength
  }

  lemma {:induction false} SpansValidExactly(spans: seq<EchoSpan>, pattern: seq<Byte>, response: seq<Byte>)
    ensures ValidateEchoSpans(spans, pattern, response).Ok? <==>
            forall k :: 0 <= k < |spans| ==> SpanPasses(spans[k], |pattern|, |response|)
  {
    if spans != [] {
      SpansValidExactly(spans[1..], pattern, response);
      assert forall k :: 1 <= k < |spans| ==> spans[k] == spans[1..][k - 1];
      assert SpanPasses(spans[0], |pattern|, |response|) <==> ValidateEchoSpan(spans[0], pattern, response).Ok?;
    }
  }

  /** Accepted is what looks real with every span's ends within reach: an exchange that could be real, unless some span wraps around. */
  lemma ValidateExactly(o: ResponseOverride)
    ensures Validate(o).Ok? <==>
            && LooksReal(o)
            && (o.action.Substitute? ==>
                  forall k :: 0 <= k < |o.action.echoSpans| ==> SpanPasses(o.action.echoSpans[k], |o.pattern|, |o.action.response|))
    ensures Validate(o).Ok? && !SpansWrap(o) <==> CouldBeReal(o)
  {
    if o.action.Substitute? {
      SpansValidExactly(o.action.echoSpans, o.pattern, o.action.response);
      PassingIsFitting(o.action.echoSpans, |o.pattern|, |o.action.response|);
    }
    hide ValidateEchoSpans, SpanPasses, SpanFits, Wraps;
  }

  lemma PassingIsFitting(spans: seq<EchoSpan>, requestLength: nat, responseLength: nat)
    ensures (forall k :: 0 <= k < |spans| ==> SpanFits(spans[k], requestLength, responseLength))
            <==> (forall k :: 0 <= k < |spans| ==> SpanPasses(spans[k], requestLength, responseLength))
                 && !exists k :: 0 <= k < |spans| && Wraps(spans[k])
  {
    forall k | 0 <= k < |spans|
      ensures SpanFits(spans[k], requestLength, responseLength) <==> SpanPasses(spans[k], requestLength, responseLength) && !Wraps(spans[k])
    {
    }
  }

  /** What each refusal says is true of the override it refuses. */
  ghost predicate Explains(o: ResponseOverride, error: OverrideError) {
    match error
    case EmptyRequestPattern => o.pattern == []
    case MaskLengthMismatch(patternLength, maskLength) => patternLength == |o.pattern| != |o.mask| == maskLength
    case EverythingWildcarded => forall k :: 0 <= k < |o.mask| ==> o.mask[k] == 0
    case ServiceIdWildcarded => o.mask != [] && o.mask[0] != 0xFF
    case NotARequestServiceId(serviceId) =>
      o.pattern != [] && serviceId == o.pattern[0] && !(0x10 <= serviceId <= 0x3E) && !(0x83 <= serviceId <= 0x88)
    case EmptySubstituteResponse => o.action.Substitute? && o.action.response == []
    case ResponseSidMismatch(responseSid, requestSid, expected) =>
      && FirstBytesAre(o, requestSid, responseSid)
      && expected == requestSid + 0x40 && responseSid != expected && responseSid != 0x7F
    case MalformedNegativeResponse(length) =>
      o.pattern != [] && FirstBytesAre(o, o.pattern[0], 0x7F) && length == |o.action.response| != 3
    case NegativeResponseSidMismatch(echoedSid, requestSid) =>
      && FirstBytesAre(o, requestSid, 0x7F)
      && |o.action.response| == 3 && echoedSid == o.action.response[1] != requestSid
    case ResponsePendingAsOverride => o.pattern != [] && o.action.Substitute? && o.action.response == [0x7F, o.pattern[0], 0x78]
    case EchoSpanOutsideRequest(offset, end) =>
      o.action.Substitute? && end > |o.pattern| && exists span :: span in o.action.echoSpans && span.requestOffset == offset && EndsAt(offset, span.length, end)
    case EchoSpanOutsideResponse(offset, end, length) =>
      && o.action.Substitute? && end > |o.action.response| == length
      && exists span :: span in o.action.echoSpans && span.responseOffset == offset && EndsAt(offset, span.length, end)
  }

  ghost predicate FirstBytesAre(o: ResponseOverride, request: Byte, response: Byte) {
    && o.pattern != [] && o.pattern[0] == request
    && o.action.Substitute? && o.action.response != [] && o.action.response[0] == response
  }

  /** The end of a run, but for whole turns of a machine word. */
  ghost predicate EndsAt(offset: nat, length: nat, end: nat) {
    end == offset + length || end + 0x1_0000_0000_0000_0000 == offset + length
  }

  lemma RefusalsExplain(o: ResponseOverride)
    ensures Validate(o).Err? ==> Explains(o, Validate(o).error)
  {
    if o.action.Substitute? { SpanRefusalsExplain(o.action.echoSpans, o.pattern, o.action.response); }
    hide ValidateEchoSpans;
  }

  lemma {:induction false} SpanRefusalsExplain(spans: seq<EchoSpan>, pattern: seq<Byte>, response: seq<Byte>)
    ensures var verdict := ValidateEchoSpans(spans, pattern, response);
            verdict.Err? ==>
              exists span :: span in spans &&
                match verdict.error
                case EchoSpanOutsideRequest(offset, end) =>
                  end > |pattern| && span.requestOffset == offset && EndsAt(offset, span.length, end)
                case EchoSpanOutsideResponse(offset, end, length) =>
                  end > |response| == length && span.responseOffset == offset && EndsAt(offset, span.length, end)
                case _ => false
  {
    if spans != [] {
      SpanRefusalsExplain(spans[1..], pattern, response);
      assert spans[0] in spans && forall span :: span in spans[1..] ==> span in spans;
    }
  }

  // ---------------------------------------------------------------- building the response

  /** The response with one span's bytes taken from the request; unchanged where the span overruns either. */
  function Echoed(span: EchoSpan, request: seq<Byte>, response: seq<Byte>): (after: seq<Byte>)
    ensures |after| == |response|
  {
    if Wraps(span) || !SpanPasses(span, |request|, |response|) then response
    else
      var requestEnd, responseEnd := span.requestOffset + span.length, span.responseOffset + span.length;
      response[..span.responseOffset] + request[span.requestOffset..requestEnd] + response[responseEnd..]
  }

  function EchoedAll(spans: seq<EchoSpan>, request: seq<Byte>, template: seq<Byte>): (after: seq<Byte>)
    ensures |after| == |template|
  {
    if spans == [] then template
    else Echoed(spans[|spans| - 1], request, EchoedAll(spans[..|spans| - 1], request, template))
  }

  /** The ends pass the check though one lies before its start. */
  predicate Panics(span: EchoSpan, requestLength: nat, responseLength: nat) {
    SpanPasses(span, requestLength, responseLength) && Wraps(span)
  }

  method ApplyEchoSpan(span: EchoSpan, request: seq<Byte>, response: array<Byte>) returns (panicked: bool)
    modifies response
    ensures panicked <==> Panics(span, |request|, response.Length)
    ensures response[..] == Echoed(span, request, old(response[..]))
  {
    var requestEnd := EndOf(span.requestOffset, span.length);
    var responseEnd := EndOf(span.responseOffset, span.length);
    if requestEnd > |request| || responseEnd > response.Length { return false; }
    if span.requestOffset > requestEnd || span.responseOffset > responseEnd { return true; }
    for k := 0 to span.length
      invariant forall j :: 0 <= j < response.Length ==>
                  response[j] == if span.responseOffset <= j < span.responseOffset + k
                                 then request[span.requestOffset + (j - span.responseOffset)] else old(response[j])
    {
      response[span.responseOffset + k] := request[span.requestOffset + k];
    }
    return false;
  }

  ghost predicate SomePanics(spans: seq<EchoSpan>, requestLength: nat, responseLength: nat) {
    exists k :: 0 <= k < |spans| && Panics(spans[k], requestLength, responseLength)
  }

  /** What an override answers, all its spans applied in order. */
  ghost function Built(o: ResponseOverride, request: seq<Byte>): Answer {
    match o.action
    case Suppress => Silence
    case Substitute(template, spans) =>
      if SomePanics(spans, |request|, |template|) then Panicked else Bytes(EchoedAll(spans, request, template))
  }

  lemma NothingEchoed(request: seq<Byte>, template: seq<Byte>)
    ensures EchoedAll([], request, template) == template
  {
  }

  lemma EchoedNext(spans: seq<EchoSpan>, k: nat, request: seq<Byte>, template: seq<Byte>)
    requires k < |spans|
    ensures EchoedAll(spans[..k + 1], request, template) == Echoed(spans[k], request, EchoedAll(spans[..k], request, template))
  {
    hide Echoed;
    assert spans[..k + 1][..k] == spans[..k];
  }

  /** The bytes an override answers with; none when it suppresses. */
  method BuildResponse(o: ResponseOverride, request: seq<Byte>) returns (answer: Answer)
    ensures answer == Built(o, request)
  {
    if o.action.Suppress? { return Silence; }
    var template := o.action.response;
    var buffer := new Byte[|template|](k requires 0 <= k < |template| => template[k]);
    assert buffer[..] == template;
    var spans := o.action.echoSpans;
    hide Panics, Echoed, EchoedAll;
    NothingEchoed(request, template);
    for k := 0 to |spans|
      invariant buffer[..] == EchoedAll(spans[..k], request, template)
      invariant forall j :: 0 <= j < k ==> !Panics(spans[j], |request|, |template|)
    {
      var panicked := ApplyEchoSpan(spans[k], request, buffer);
      if panicked { return Panicked; }
      EchoedNext(spans, k, request, template);
    }
    assert spans[..|spans|] == spans;
    return Bytes(buffer[..]);
  }

  // ---------------------------------------------------------------- what echoing amounts to

  ghost predicate Writes(span: EchoSpan, j: int) {
    span.responseOffset <= j < span.responseOffset + span.length
  }

  /** The last span writing a byte, if any does. */
  ghost function LastWriter(spans: seq<EchoSpan>, j: nat): (writer: Option<nat>)
    ensures writer.None? ==> forall k :: 0 <= k < |spans| ==> !Writes(spans[k], j)
    ensures writer.Some? ==> writer.value < |spans| && Writes(spans[writer.value], j)
    ensures writer.Some? ==> forall k :: writer.value < k < |spans| ==> !Writes(spans[k], j)
  {
    if spans == [] then None
    else if Writes(spans[|spans| - 1], j) then Some(|spans| - 1)
    else LastWriter(spans[..|spans| - 1], j)
  }

  /** The request byte the last writer copies there, or the template's own byte. */
  ghost function Overlaid(spans: seq<EchoSpan>, request: seq<Byte>, template: seq<Byte>, j: nat): Byte
    requires j < |template|
    requires forall k :: 0 <= k < |spans| ==> SpanFits(spans[k], |request|, |template|)
  {
    match LastWriter(spans, j)
    case None => template[j]
    case Some(k) =>
      assert SpanFits(spans[k], |request|, |template|);
      request[spans[k].requestOffset + (j - spans[k].responseOffset)]
  }

  lemma {:induction false} EchoingIsOverlaying(spans: seq<EchoSpan>, request: seq<Byte>, template: seq<Byte>, j: nat)
    requires forall k :: 0 <= k < |spans| ==> SpanFits(spans[k], |request|, |template|)
    requires j < |template|
    ensures EchoedAll(spans, request, template)[j] == Overlaid(spans, request, template, j)
  {
    hide LastWriter, Writes, Echoed, Overlaid;
    if spans == [] {
      NothingOverlaid(request, template, j);
    } else {
      var earlier, last := spans[..|spans| - 1], spans[|spans| - 1];
      EchoingIsOverlaying(earlier, request, template, j);
      assert SpanFits(last, |request|, |template|);
      EchoedAt(last, request, EchoedAll(earlier, request, template), j);
      OverlaidStep(earlier, last, request, template, j);
      assert spans == earlier + [last];
    }
  }

  lemma NothingOverlaid(request: seq<Byte>, template: seq<Byte>, j: nat)
    requires j < |template|
    ensures Overlaid([], request, template, j) == template[j]
  {
  }

  /** One span that fits: its run of the response comes from the request, the rest stays. */
  lemma EchoedAt(span: EchoSpan, request: seq<Byte>, response: seq<Byte>, j: nat)
    requires SpanFits(span, |request|, |response|) && j < |response|
    ensures Echoed(span, request, response)[j] ==
            if Writes(span, j) then request[span.requestOffset + (j - span.responseOffset)] else response[j]
  {
  }

  lemma OverlaidStep(earlier: seq<EchoSpan>, last: EchoSpan, request: seq<Byte>, template: seq<Byte>, j: nat)
    requires forall k :: 0 <= k < |earlier| ==> SpanFits(earlier[k], |request|, |template|)
    requires SpanFits(last, |request|, |template|) && j < |template|
    ensures Overlaid(earlier + [last], request, template, j) ==
            if Writes(last, j) then request[last.requestOffset + (j - last.responseOffset)] else Overlaid(earlier, request, template, j)
  {
    var spans := earlier + [last];
    assert spans[..|earlier|] == earlier;
    assert LastWriter(spans, j) == if Writes(last, j) then Some(|earlier|) else LastWriter(earlier, j);
    hide Writes, LastWriter;
  }

  /**
   * On a validated override and a request it matches, the silent skip never fires: every byte of
   * the response is the request byte its last span copies there, or the template's, and the length
   * is the template's. That is so exactly if no span wraps around; otherwise building the response panics.
   */
  lemma ValidatedSpansAllApply(o: ResponseOverride, request: seq<Byte>)
    requires Validate(o).Ok? && Applies(o, request) && o.action.Substitute?
    ensures Built(o, request) == Panicked <==> SpansWrap(o)
    ensures !SpansWrap(o) ==>
              var spans, template := o.action.echoSpans, o.action.response;
              var built := EchoedAll(spans, request, template);
              && Built(o, request) == Bytes(built)
              && |built| == |template|
              && (forall k :: 0 <= k < |spans| ==> SpanFits(spans[k], |request|, |template|))
              && (forall j :: 0 <= j < |template| ==> built[j] == Overlaid(spans, request, template, j))
  {
    ValidateExactly(o);
    var spans, template := o.action.echoSpans, o.action.response;
    PanicsWhereItWraps(spans, |o.pattern|, |request|, |template|);
    hide Validate, LooksReal, SpanPasses, Wraps, Panics, EchoedAll, Overlaid, And;
    if !SpansWrap(o) {
      forall k | 0 <= k < |spans| ensures SpanFits(spans[k], |request|, |template|) {
        assert SpanFits(spans[k], |o.pattern|, |template|);
      }
      forall j | 0 <= j < |template| ensures EchoedAll(spans, request, template)[j] == Overlaid(spans, request, template, j) {
        EchoingIsOverlaying(spans, request, template, j);
      }
    }
  }

  lemma PanicsWhereItWraps(spans: seq<EchoSpan>, patternLength: nat, requestLength: nat, responseLength: nat)
    requires patternLength <= requestLength
    requires forall k :: 0 <= k < |spans| ==> SpanPasses(spans[k], patternLength, responseLength)
    ensures SomePanics(spans, requestLength, responseLength) <==> exists k :: 0 <= k < |spans| && Wraps(spans[k])
  {
    forall k | 0 <= k < |spans| ensures Panics(spans[k], requestLength, responseLength) <==> Wraps(spans[k]) {
      assert SpanPasses(spans[k], patternLength, responseLength);
    }
  }

  /** A span at the last offset there is: its end wraps around to the start, passes validation, and building the response panics. */
  lemma WrappedSpanPanics()
    ensures var o := ResponseOverride([0x22], [0xFF], false, Substitute([0x62], [EchoSpan(0xFFFF_FFFF_FFFF_FFFF, 1, 0)]), true, false, "");
            Validate(o).Ok? && Applies(o, [0x22]) && Built(o, [0x22]) == Panicked
  {
    var o := ResponseOverride([0x22], [0xFF], false, Substitute([0x62], [EchoSpan(0xFFFF_FFFF_FFFF_FFFF, 1, 0)]), true, false, "");
    ValidateExactly(o);
    assert SpanPasses(o.action.echoSpans[0], 1, 1) && Wraps(o.action.echoSpans[0]);
    ValidatedSpansAllApply(o, [0x22]);
  }

  // ---------------------------------------------------------------- the response service identifier

  /** No span writes the first byte, or the last one that does copies a fixed byte equal to it. */
  ghost predicate SidIsSafe(o: ResponseOverride)
    requires o.action.Substitute? && o.action.response != [] && |o.mask| == |o.pattern|
    requires forall k :: 0 <= k < |o.action.echoSpans| ==> SpanFits(o.action.echoSpans[k], |o.pattern|, |o.action.response|)
  {
    match LastWriter(o.action.echoSpans, 0)
    case None => true
    case Some(k) =>
      var source := o.action.echoSpans[k].requestOffset;
      assert SpanFits(o.action.echoSpans[k], |o.pattern|, |o.action.response|);
      o.mask[source] == 0xFF && o.pattern[source] == o.action.response[0]
  }

  /** Every request the override matches gets a response that starts as the template does. */
  ghost predicate SidSurvives(o: ResponseOverride)
    requires o.action.Substitute? && o.action.response != []
  {
    forall request :: Applies(o, request) ==> StartsAs(Built(o, request), o.action.response[0])
  }

  ghost predicate StartsAs(answer: Answer, first: Byte) {
    answer.Bytes? && answer.bytes != [] && answer.bytes[0] == first
  }

  /** A validated override always answers with its template's service identifier exactly when no span wraps and the spans leave it safe. */
  lemma SidSurvivesExactly(o: ResponseOverride)
    requires Validate(o).Ok? && o.isEnabled && o.action.Substitute?
    ensures o.action.response != [] && (!SpansWrap(o) ==> CouldBeReal(o))
    ensures SidSurvives(o) <==> !SpansWrap(o) && SidIsSafe(o)
  {
    ValidateExactly(o);
    hide Validate, SidIsSafe, LastWriter, Writes, And, Built;
    if SpansWrap(o) {
      PatternApplies(o);
      ValidatedSpansAllApply(o, o.pattern);
    } else if SidIsSafe(o) {
      SafeSidSurvives(o);
    } else {
      UnsafeSidIsLost(o);
    }
  }

  lemma SafeSidSurvives(o: ResponseOverride)
    requires Validate(o).Ok? && CouldBeReal(o) && o.action.Substitute? && o.action.response != [] && SidIsSafe(o)
    ensures SidSurvives(o)
  {
    hide Validate, Writes, LastWriter, Echoed, EchoedAll, And;
    var spans, template := o.action.echoSpans, o.action.response;
    ValidateExactly(o);
    forall request | Applies(o, request) ensures StartsAs(Built(o, request), template[0]) {
      ValidatedSpansAllApply(o, request);
      var writer := LastWriter(spans, 0);
      if writer.Some? {
        var source := spans[writer.value].requestOffset;
        WritesFirst(spans[writer.value]);
        assert SpanFits(spans[writer.value], |o.pattern|, |template|);
        EightOnes(request[source]);
        EightOnes(o.pattern[source]);
      }
    }
  }

  lemma WritesFirst(span: EchoSpan)
    requires Writes(span, 0)
    ensures span.responseOffset == 0 && span.length > 0
  {
  }

  lemma UnsafeSidIsLost(o: ResponseOverride)
    requires Validate(o).Ok? && CouldBeReal(o) && o.isEnabled && o.action.Substitute? && o.action.response != [] && !SidIsSafe(o)
    ensures !SidSurvives(o)
  {
    hide Validate, Writes, LastWriter, Echoed, EchoedAll, And, Applies;
    var spans, template := o.action.echoSpans, o.action.response;
    var writer := LastWriter(spans, 0).value;
    WritesFirst(spans[writer]);
    assert SpanFits(spans[writer], |o.pattern|, |template|);
    var request := AnotherRequest(o, spans[writer].requestOffset);
    ValidateExactly(o);
    ValidatedSpansAllApply(o, request);
    assert EchoedAll(spans, request, template)[0] == Overlaid(spans, request, template, 0);
  }

  /** Some matching request carries, at an unsafe place, a byte other than the template's first. */
  lemma AnotherRequest(o: ResponseOverride, source: nat) returns (request: seq<Byte>)
    requires o.isEnabled && |o.mask| == |o.pattern| && source < |o.pattern|
    requires o.action.Substitute? && o.action.response != []
    requires o.mask[source] != 0xFF || o.pattern[source] != o.action.response[0]
    ensures Applies(o, request) && request[source] != o.action.response[0]
  {
    request := o.pattern;
    if o.pattern[source] == o.action.response[0] {
      assert Pow2(8) == 256 by { assert Pow2(4) == 16; }
      var other := AnotherPasses(o.pattern[source], o.mask[source], 8);
      request := o.pattern[source := other];
    }
  }

  // ---------------------------------------------------------------- whether the response answers

  /** Where the byte that ends up at `j` is copied from, if any span writes there. */
  ghost function SourceOf(o: ResponseOverride, j: nat): (source: Option<nat>)
    requires CouldBeReal(o) && o.action.Substitute?
    ensures source.Some? ==> source.value < |o.pattern|
  {
    match LastWriter(o.action.echoSpans, j)
    case None => None
    case Some(k) =>
      var span := o.action.echoSpans[k];
      assert SpanFits(span, |o.pattern|, |o.action.response|) && Writes(span, j);
      Some(span.requestOffset + (j - span.responseOffset))
  }

  /** The values response byte `j` can take: the template's where nothing is copied, else whatever the mask lets through there. */
  ghost predicate CanCarry(o: ResponseOverride, j: nat, v: Byte)
    requires CouldBeReal(o) && o.action.Substitute? && j < |o.action.response|
  {
    match SourceOf(o, j)
    case None => v == o.action.response[j]
    case Some(source) => And(v, o.mask[source]) == And(o.pattern[source], o.mask[source])
  }

  ghost predicate CarriesOnly(o: ResponseOverride, j: nat, v: Byte)
    requires CouldBeReal(o) && o.action.Substitute? && j < |o.action.response|
  {
    forall u: Byte :: CanCarry(o, j, u) ==> u == v
  }

  /**
   * What the spans must leave alone. The first byte may carry the positive response identifier or the
   * negative one and nothing else; where it can carry the negative one the response has three bytes, the
   * second repeats the service, and the third cannot be ResponsePending (unless it copies the very byte
   * the first does, and so is the negative identifier itself).
   */
  ghost predicate SpansKeepAnAnswer(o: ResponseOverride)
    requires CouldBeReal(o) && o.action.Substitute?
  {
    var sid := o.pattern[0];
    && (forall v: Byte :: CanCarry(o, 0, v) ==> v == sid + POSITIVE_RESPONSE_OFFSET || v == NEGATIVE_RESPONSE_SID)
    && (CanCarry(o, 0, NEGATIVE_RESPONSE_SID) ==>
          && |o.action.response| == 3
          && CarriesOnly(o, 1, sid)
          && (CanCarry(o, 2, NRC_RESPONSE_PENDING) ==> SourceOf(o, 2).Some? && SourceOf(o, 2) == SourceOf(o, 0)))
  }

  /** Every request the override matches gets a response that answers it. */
  ghost predicate AlwaysAnswers(o: ResponseOverride)
    requires o.action.Substitute? && o.pattern != []
  {
    forall request :: Applies(o, request) ==> IsAnswer(Built(o, request), o.pattern[0])
  }

  ghost predicate IsAnswer(answer: Answer, requestSid: Byte) {
    answer.Bytes? && Answers(answer.bytes, requestSid)
  }

  /** What a byte of the response is, and that the override allows it there. */
  lemma ByteIsCarried(o: ResponseOverride, request: seq<Byte>, j: nat)
    requires Validate(o).Ok? && CouldBeReal(o) && o.action.Substitute? && j < |o.action.response| && Applies(o, request)
    ensures var built := EchoedAll(o.action.echoSpans, request, o.action.response);
            && Built(o, request) == Bytes(built)
            && CanCarry(o, j, built[j])
            && built[j] == (if SourceOf(o, j).Some? then request[SourceOf(o, j).value] else o.action.response[j])
  {
    hide Validate, LastWriter, Echoed, EchoedAll, And, CouldBeReal, Built;
    ValidateExactly(o);
    ValidatedSpansAllApply(o, request);
  }

  /** A matching request with another allowed value at one place still matches. */
  lemma StillApplies(o: ResponseOverride, request: seq<Byte>, source: nat, v: Byte)
    requires Applies(o, request) && source < |o.pattern|
    requires And(v, o.mask[source]) == And(o.pattern[source], o.mask[source])
    ensures Applies(o, request[source := v])
  {
    hide And;
  }

  /** The pattern itself, with an allowed value where response byte `j` is copied from. */
  lemma RequestCarrying(o: ResponseOverride, request: seq<Byte>, j: nat, v: Byte) returns (other: seq<Byte>)
    requires Validate(o).Ok? && CouldBeReal(o) && o.action.Substitute? && j < |o.action.response|
    requires Applies(o, request) && CanCarry(o, j, v)
    ensures Applies(o, other) && EchoedAll(o.action.echoSpans, other, o.action.response)[j] == v
    ensures Built(o, other) == Bytes(EchoedAll(o.action.echoSpans, other, o.action.response))
    ensures SourceOf(o, j).None? ==> other == request
    ensures SourceOf(o, j).Some? ==> other == request[SourceOf(o, j).value := v]
  {
    hide Validate, EchoedAll, And, CouldBeReal, SourceOf;
    other := request;
    if SourceOf(o, j).Some? {
      StillApplies(o, request, SourceOf(o, j).value, v);
      other := request[SourceOf(o, j).value := v];
    }
    ByteIsCarried(o, other, j);
  }

  /** And byte `i`, copied from somewhere else, stays what it was. */
  lemma OtherByteStays(o: ResponseOverride, request: seq<Byte>, other: seq<Byte>, i: nat, j: nat, v: Byte)
    requires Validate(o).Ok? && CouldBeReal(o) && o.action.Substitute? && i < |o.action.response| && j < |o.action.response|
    requires Applies(o, request) && Applies(o, other) && SourceOf(o, j) != SourceOf(o, i)
    requires if SourceOf(o, j).Some? then other == request[SourceOf(o, j).value := v] else other == request
    ensures var spans, template := o.action.echoSpans, o.action.response;
            EchoedAll(spans, other, template)[i] == EchoedAll(spans, request, template)[i]
  {
    hide Validate, EchoedAll, And, CouldBeReal, SourceOf, CanCarry;
    ByteIsCarried(o, request, i);
    ByteIsCarried(o, other, i);
  }

  lemma KeepingIsAnswering(o: ResponseOverride)
    requires Validate(o).Ok? && CouldBeReal(o) && o.action.Substitute? && SpansKeepAnAnswer(o)
    ensures AlwaysAnswers(o)
  {
    hide Validate, EchoedAll, SourceOf, CanCarry, Applies;
    var spans, template := o.action.echoSpans, o.action.response;
    forall request | Applies(o, request) ensures IsAnswer(Built(o, request), o.pattern[0]) {
      var built := EchoedAll(spans, request, template);
      ByteIsCarried(o, request, 0);
      if built[0] == NEGATIVE_RESPONSE_SID {
        ByteIsCarried(o, request, 1);
        ByteIsCarried(o, request, 2);
      }
    }
  }

  /** A request whose response starts with the negative identifier and, at byte `j`, carries a given value. */
  lemma NegativeWith(o: ResponseOverride, j: nat, v: Byte) returns (request: seq<Byte>)
    requires Validate(o).Ok? && CouldBeReal(o) && o.isEnabled && o.action.Substitute? && 0 < j < |o.action.response|
    requires CanCarry(o, 0, NEGATIVE_RESPONSE_SID) && CanCarry(o, j, v)
    requires SourceOf(o, j).None? || SourceOf(o, j) != SourceOf(o, 0)
    ensures var built := EchoedAll(o.action.echoSpans, request, o.action.response);
            Applies(o, request) && Built(o, request) == Bytes(built) && built[0] == NEGATIVE_RESPONSE_SID && built[j] == v
  {
    PatternApplies(o);
    hide Validate, EchoedAll, SourceOf, CanCarry, Applies, CouldBeReal;
    var negative := RequestCarrying(o, o.pattern, 0, NEGATIVE_RESPONSE_SID);
    request := RequestCarrying(o, negative, j, v);
    if SourceOf(o, j).Some? { OtherByteStays(o, negative, request, 0, j, v); }
  }

  lemma PatternApplies(o: ResponseOverride)
    requires LooksReal(o) && o.isEnabled
    ensures Applies(o, o.pattern)
  {
    hide And;
  }

  lemma NotKeepingIsNotAnswering(o: ResponseOverride)
    requires Validate(o).Ok? && CouldBeReal(o) && o.isEnabled && o.action.Substitute? && !SpansKeepAnAnswer(o)
    ensures !AlwaysAnswers(o)
  {
    PatternApplies(o);
    hide Validate, EchoedAll, SourceOf, CanCarry, Applies;
    var sid, template := o.pattern[0], o.action.response;
    if v: Byte :| CanCarry(o, 0, v) && v != sid + POSITIVE_RESPONSE_OFFSET && v != NEGATIVE_RESPONSE_SID {
      var request := RequestCarrying(o, o.pattern, 0, v);
    } else if |template| != 3 {
      var request := RequestCarrying(o, o.pattern, 0, NEGATIVE_RESPONSE_SID);
    } else if v: Byte :| CanCarry(o, 1, v) && v != sid {
      if SourceOf(o, 1).Some? && SourceOf(o, 1) == SourceOf(o, 0) {
        var request := RequestCarrying(o, o.pattern, 0, NEGATIVE_RESPONSE_SID);
        ByteIsCarried(o, request, 0);
        ByteIsCarried(o, request, 1);
      } else {
        var request := NegativeWith(o, 1, v);
      }
    } else {
      var request := NegativeWith(o, 2, NRC_RESPONSE_PENDING);
    }
  }

  /** A validated, enabled override answers every request it matches if and only if no span wraps and the spans leave what makes the template an answer alone. */
  lemma AnswersExactly(o: ResponseOverride)
    requires Validate(o).Ok? && o.isEnabled && o.action.Substitute?
    ensures o.pattern != [] && (!SpansWrap(o) ==> CouldBeReal(o))
    ensures AlwaysAnswers(o) <==> !SpansWrap(o) && SpansKeepAnAnswer(o)
  {
    ValidateExactly(o);
    hide Validate, CouldBeReal, SpansKeepAnAnswer, Built;
    if SpansWrap(o) {
      PatternApplies(o);
      ValidatedSpansAllApply(o, o.pattern);
    } else if SpansKeepAnAnswer(o) {
      KeepingIsAnswering(o);
    } else {
      NotKeepingIsNotAnswering(o);
    }
  }

  /** Carrying a single value, told by the mask: the byte copied is fixed, or nothing is copied. */
  lemma CarriesOnlyExactly(o: ResponseOverride, j: nat, v: Byte)
    requires CouldBeReal(o) && o.action.Substitute? && j < |o.action.response|
    ensures CarriesOnly(o, j, v) <==>
            match SourceOf(o, j)
            case None => o.action.response[j] == v
            case Some(source) => o.mask[source] == 0xFF && o.pattern[source] == v
  {
    hide SourceOf;
    match SourceOf(o, j)
    case None => assert CanCarry(o, j, o.action.response[j]);
    case Some(source) =>
      if o.mask[source] == 0xFF {
        forall u: Byte | CanCarry(o, j, u) ensures u == o.pattern[source] {
          EightOnes(u);
          EightOnes(o.pattern[source]);
        }
        assert CanCarry(o, j, o.pattern[source]);
      } else {
        assert Pow2(8) == 256 by { assert Pow2(4) == 16; }
        var other := AnotherPasses(o.pattern[source], o.mask[source], 8);
        assert CanCarry(o, j, other) && CanCarry(o, j, o.pattern[source]);
      }
  }

  /** An accepted refusal that names another service than the one asked for: the span echoes a wildcard over it. */
  lemma EchoCanRenameTheService()
    ensures var o := ResponseOverride([0x22, 0x00], [0xFF, 0x00], false, Substitute([0x7F, 0x22, 0x31], [EchoSpan(1, 1, 1)]), true, false, "");
            var built := EchoedAll(o.action.echoSpans, [0x22, 0x05], o.action.response);
            && Validate(o).Ok? && Applies(o, [0x22, 0x05])
            && built == [0x7F, 0x05, 0x31] && !Answers(built, 0x22)
  {
    var o := ResponseOverride([0x22, 0x00], [0xFF, 0x00], false, Substitute([0x7F, 0x22, 0x31], [EchoSpan(1, 1, 1)]), true, false, "");
    ValidateExactly(o);
    assert SpanFits(o.action.echoSpans[0], 2, 3);
    assert And(0x05, 0) == And(0x00, 0);
    assert o.action.echoSpans[..0] == [];
    assert Echoed(EchoSpan(1, 1, 1), [0x22, 0x05], [0x7F, 0x22, 0x31]) == [0x7F, 0x05, 0x31];
  }

  /** An accepted refusal that turns into ResponsePending, which validation refuses as a template. */
  lemma EchoCanPend()
    ensures var o := ResponseOverride([0x22, 0x00], [0xFF, 0x00], false, Substitute([0x7F, 0x22, 0x31], [EchoSpan(1, 1, 2)]), true, false, "");
            var built := EchoedAll(o.action.echoSpans, [0x22, 0x78], o.action.response);
            && Validate(o).Ok? && Applies(o, [0x22, 0x78])
            && built == [0x7F, 0x22, 0x78] && !Answers(built, 0x22)
  {
    var o := ResponseOverride([0x22, 0x00], [0xFF, 0x00], false, Substitute([0x7F, 0x22, 0x31], [EchoSpan(1, 1, 2)]), true, false, "");
    ValidateExactly(o);
    assert SpanFits(o.action.echoSpans[0], 2, 3);
    assert And(0x78, 0) == And(0x00, 0);
    assert o.action.echoSpans[..0] == [];
    assert Echoed(EchoSpan(1, 1, 2), [0x22, 0x78], [0x7F, 0x22, 0x31]) == [0x7F, 0x22, 0x78];
  }

  /** An accepted override whose response does not answer its request: the span echoes a wildcard over the first byte. */
  lemma EchoCanOverwriteTheSid()
    ensures var o := ResponseOverride([0x22, 0x00], [0xFF, 0x00], false, Substitute([0x62, 0x01], [EchoSpan(1, 1, 0)]), true, false, "");
            && Validate(o).Ok? && Applies(o, [0x22, 0x05])
            && EchoedAll(o.action.echoSpans, [0x22, 0x05], o.action.response) == [0x05, 0x01] && !Answers([0x05, 0x01], 0x22)
  {
    var o := ResponseOverride([0x22, 0x00], [0xFF, 0x00], false, Substitute([0x62, 0x01], [EchoSpan(1, 1, 0)]), true, false, "");
    ValidateExactly(o);
    assert SpanFits(o.action.echoSpans[0], 2, 2);
    assert And(0x05, 0) == And(0x00, 0);
    assert o.action.echoSpans[..0] == [];
    assert Echoed(EchoSpan(1, 1, 0), [0x22, 0x05], [0x62, 0x01]) == [0x05, 0x01];
  }
}
