/**
 * How overrides, security levels and ECU handles travel as text, and that reading back what was
 * written gives the same thing.
 */
module WireForm {
  import opened Basics
  import opened Hex
  import opened Overrides

  type CanId = x: int | 0 <= x < 0x1_0000_0000

  type LogicalAddress = x: int | 0 <= x < 0x1_0000

  const WIDEST_CAN_ID := 0x1FFF_FFFF
  const NRC_INVALID_KEY := 0x35

  // ---------------------------------------------------------------- request patterns

  datatype Pattern = Pattern(bytes: seq<Byte>, mask: seq<Byte>)

  predicate IsWildcardToken(token: string) {
    token == "**" || token == "??" || token == ".." || token == "xx" || token == "XX"
  }

  /** A token's pattern byte and mask byte. */
  function ParsedToken(token: string): Option<(Byte, Byte)> {
    if IsWildcardToken(token) then Some((0, 0))
    else
      match FromRadix16(token, 0xFF)
      case None => None
      case Some(b) => Some((b, 0xFF))
  }

  function ParsedTokens(tokens: seq<string>): (parsed: Result<Pattern, HexError>)
    ensures parsed.Ok? ==> |parsed.value.bytes| == |parsed.value.mask| == |tokens|
  {
    if tokens == [] then Ok(Pattern([], []))
    else
      match ParsedTokens(tokens[..|tokens| - 1])
      case Err(e) => Err(e)
      case Ok(p) =>
        match ParsedToken(tokens[|tokens| - 1])
        case None => Err(NotAByte(tokens[|tokens| - 1]))
        case Some((b, m)) => Ok(Pattern(p.bytes + [b], p.mask + [m]))
  }

  function ParsedHexPattern(input: string): Result<Pattern, HexError> {
    var parsed := ParsedTokens(SplitTokens(input));
    if parsed.Ok? && parsed.value.bytes == [] then Err(Empty) else parsed
  }

  method ParseHexPattern(input: string) returns (parsed: Result<Pattern, HexError>)
    ensures parsed == ParsedHexPattern(input)
  {
    var bytes: seq<Byte>, mask: seq<Byte> := [], [];
    var tokens := SplitTokens(input);
    for k := 0 to |tokens|
      invariant ParsedTokens(tokens[..k]) == Ok(Pattern(bytes, mask))
    {
      assert tokens[..k + 1][..k] == tokens[..k];
      if IsWildcardToken(tokens[k]) {
        bytes, mask := bytes + [0], mask + [0];
        continue;
      }
      var value := FromRadix16(tokens[k], 0xFF);
      if value.None? {
        FirstBadTokenDecides(tokens, k);
        return Err(NotAByte(tokens[k]));
      }
      bytes, mask := bytes + [value.value], mask + [0xFF];
    }
    assert tokens[..|tokens|] == tokens;
    if bytes == [] { return Err(Empty); }
    return Ok(Pattern(bytes, mask));
  }

  lemma {:induction false} FirstBadTokenDecides(tokens: seq<string>, k: nat)
    requires k < |tokens| && ParsedTokens(tokens[..k]).Ok? && ParsedToken(tokens[k]).None?
    ensures ParsedTokens(tokens) == Err(NotAByte(tokens[k]))
    decreases |tokens|
  {
    var earlier := tokens[..|tokens| - 1];
    if k < |earlier| {
      assert earlier[..k] == tokens[..k];
      FirstBadTokenDecides(earlier, k);
    }
  }

  function PatternTokens(bytes: seq<Byte>, mask: seq<Byte>): (tokens: seq<string>)
    ensures |tokens| == |bytes| && ArePairs(tokens)
    ensures forall k :: 0 <= k < |bytes| ==> tokens[k] == if k < |mask| && mask[k] == 0 then "**" else HexByte(bytes[k])
  {
    seq(|bytes|, k requires 0 <= k < |bytes| => if k < |mask| && mask[k] == 0 then "**" else HexByte(bytes[k]))
  }

  /** The printed pattern: open bytes as wildcards, fixed ones as digits. */
  function FormatHexPattern(bytes: seq<Byte>, mask: seq<Byte>): string {
    Spaced(PatternTokens(bytes, mask))
  }

  /** The patterns text can say: every byte fixed, or open and zero. */
  ghost predicate IsSayable(bytes: seq<Byte>, mask: seq<Byte>) {
    && |bytes| == |mask| && bytes != []
    && forall k :: 0 <= k < |mask| ==> mask[k] == 0xFF || (mask[k] == 0 && bytes[k] == 0)
  }

  lemma DigitsAreNoWildcard(b: Byte)
    ensures !IsWildcardToken(HexByte(b))
    ensures ParsedToken(HexByte(b)) == Some((b, 0xFF))
  {
    HexByteReads(b);
    assert !IsUpperDigit('*') && !IsUpperDigit('?') && !IsUpperDigit('.') && !IsUpperDigit('x') && !IsUpperDigit('X');
  }

  lemma ParsedTokensAppend(tokens: seq<string>, token: string)
    requires ParsedTokens(tokens).Ok? && ParsedToken(token).Some?
    ensures var p, t := ParsedTokens(tokens).value, ParsedToken(token).value;
            ParsedTokens(tokens + [token]) == Ok(Pattern(p.bytes + [t.0], p.mask + [t.1]))
  {
    assert (tokens + [token])[..|tokens|] == tokens;
  }

  lemma PatternTokensSplit(bytes: seq<Byte>, mask: seq<Byte>)
    requires |bytes| == |mask| > 0
    requires mask[|mask| - 1] == 0xFF || (mask[|mask| - 1] == 0 && bytes[|bytes| - 1] == 0)
    ensures var n := |bytes| - 1;
            var last := if mask[n] == 0 then "**" else HexByte(bytes[n]);
            && PatternTokens(bytes, mask) == PatternTokens(bytes[..n], mask[..n]) + [last]
            && ParsedToken(last) == Some((bytes[n], mask[n]))
  {
    DigitsAreNoWildcard(bytes[|bytes| - 1]);
  }

  lemma {:induction false} PatternTokensRead(bytes: seq<Byte>, mask: seq<Byte>)
    requires |bytes| == |mask|
    requires forall k :: 0 <= k < |mask| ==> mask[k] == 0xFF || (mask[k] == 0 && bytes[k] == 0)
    ensures ParsedTokens(PatternTokens(bytes, mask)) == Ok(Pattern(bytes, mask))
  {
    hide ParsedToken, ParsedTokens, HexByte, PatternTokens;
    if bytes == [] {
      NoTokens();
      assert PatternTokens(bytes, mask) == [];
    } else {
      var n := |bytes| - 1;
      PatternTokensRead(bytes[..n], mask[..n]);
      PatternTokensSplit(bytes, mask);
      ParsedTokensAppend(PatternTokens(bytes[..n], mask[..n]), if mask[n] == 0 then "**" else HexByte(bytes[n]));
      assert bytes == bytes[..n] + [bytes[n]] && mask == mask[..n] + [mask[n]];
    }
  }

  lemma NoTokens()
    ensures ParsedTokens([]) == Ok(Pattern([], []))
  {
  }

  lemma {:induction false} ParsedIsSayable(tokens: seq<string>)
    requires ParsedTokens(tokens).Ok?
    ensures var p := ParsedTokens(tokens).value;
            forall k :: 0 <= k < |p.mask| ==> p.mask[k] == 0xFF || (p.mask[k] == 0 && p.bytes[k] == 0)
  {
    if tokens != [] { ParsedIsSayable(tokens[..|tokens| - 1]); }
  }

  /** Writing a pattern and reading it back is the identity exactly on the patterns text can say. */
  lemma PatternRoundTripsExactly(bytes: seq<Byte>, mask: seq<Byte>)
    ensures ParsedHexPattern(FormatHexPattern(bytes, mask)) == Ok(Pattern(bytes, mask)) <==> IsSayable(bytes, mask)
  {
    SpacedSplits(PatternTokens(bytes, mask));
    if IsSayable(bytes, mask) {
      PatternTokensRead(bytes, mask);
    }
    if ParsedHexPattern(FormatHexPattern(bytes, mask)) == Ok(Pattern(bytes, mask)) {
      ParsedIsSayable(PatternTokens(bytes, mask));
    }
  }

  // ---------------------------------------------------------------- overrides

  datatype EchoSpanDto = EchoSpanDto(requestOffset: Word, length: Word, responseOffset: Word)

  datatype ResponseOverrideDto = ResponseOverrideDto(
    requestHex: string,
    matchTrailingBytes: bool,
    action: string,
    responseHex: Option<string>,
    echoSpans: seq<EchoSpanDto>,
    enabled: bool,
    respondEvenIfSuppressed: bool,
    note: string)

  datatype FieldError = BadHex(error: HexError) | ResponseMissing | UnknownAction(action: string) | UnknownKeyPolicy(policy: string)

  function SpanDtos(spans: seq<EchoSpan>): (dtos: seq<EchoSpanDto>) {
    seq(|spans|, k requires 0 <= k < |spans| => EchoSpanDto(spans[k].requestOffset, spans[k].length, spans[k].responseOffset))
  }

  function Spans(dtos: seq<EchoSpanDto>): (spans: seq<EchoSpan>) {
    seq(|dtos|, k requires 0 <= k < |dtos| => EchoSpan(dtos[k].requestOffset, dtos[k].length, dtos[k].responseOffset))
  }

  function BuildOverrideDto(o: ResponseOverride): ResponseOverrideDto {
    var request := FormatHexPattern(o.pattern, o.mask);
    match o.action
    case Suppress =>
      ResponseOverrideDto(request, o.matchTrailingBytes, "suppress", None, [], o.isEnabled, o.respondEvenIfSuppressed, o.note)
    case Substitute(response, spans) =>
      ResponseOverrideDto(request, o.matchTrailingBytes, "substitute", Some(FormatHex(response)), SpanDtos(spans),
                          o.isEnabled, o.respondEvenIfSuppressed, o.note)
  }

  function BuildAction(dto: ResponseOverrideDto): Result<OverrideAction, FieldError> {
    if dto.action == "suppress" then Ok(Suppress)
    else if dto.action == "substitute" then
      match dto.responseHex
      case None => Err(ResponseMissing)
      case Some(text) =>
        match ParsedHex(text)
        case Err(e) => Err(BadHex(e))
        case Ok(response) => Ok(Substitute(response, Spans(dto.echoSpans)))
    else Err(UnknownAction(dto.action))
  }

  function BuildOverride(dto: ResponseOverrideDto): Result<ResponseOverride, FieldError> {
    match ParsedHexPattern(dto.requestHex)
    case Err(e) => Err(BadHex(e))
    case Ok(p) =>
      match BuildAction(dto)
      case Err(e) => Err(e)
      case Ok(action) =>
        Ok(ResponseOverride(p.bytes, p.mask, dto.matchTrailingBytes, action, dto.enabled, dto.respondEvenIfSuppressed, dto.note))
  }

  /** What a request body can say: a sayable pattern, and a substitute with at least one byte. */
  ghost predicate IsWritable(o: ResponseOverride) {
    IsSayable(o.pattern, o.mask) && (o.action.Substitute? ==> o.action.response != [])
  }

  lemma {:induction false} ParsedHexIsNotEmpty(text: string)
    ensures ParsedHex(text).Ok? ==> ParsedHex(text).value != []
  {
  }

  /** Writing an override out and reading it back is the identity exactly on the writable ones. */
  lemma OverrideRoundTripsExactly(o: ResponseOverride)
    ensures BuildOverride(BuildOverrideDto(o)) == Ok(o) <==> IsWritable(o)
  {
    PatternRoundTripsExactly(o.pattern, o.mask);
    if o.action.Substitute? {
      HexRoundTrips(o.action.response);
      ParsedHexIsNotEmpty(FormatHex(o.action.response));
      assert Spans(SpanDtos(o.action.echoSpans)) == o.action.echoSpans;
    }
    if BuildOverride(BuildOverrideDto(o)) == Ok(o) {
      assert ParsedHexPattern(FormatHexPattern(o.pattern, o.mask)) == Ok(Pattern(o.pattern, o.mask));
    }
  }

  /** So whatever a request body is read as, writing that out and reading it again changes nothing. */
  lemma AcceptedOverridesRoundTrip(dto: ResponseOverrideDto)
    requires BuildOverride(dto).Ok?
    ensures var o := BuildOverride(dto).value;
            IsWritable(o) && BuildOverride(BuildOverrideDto(o)) == Ok(o)
  {
    var o := BuildOverride(dto).value;
    ParsedIsSayable(SplitTokens(dto.requestHex));
    if dto.responseHex.Some? { ParsedHexIsNotEmpty(dto.responseHex.value); }
    OverrideRoundTripsExactly(o);
  }

  // ---------------------------------------------------------------- byte fields

  function ParsedByteTokens(tokens: seq<string>): Result<seq<Byte>, HexError> {
    if tokens == [] then Ok([])
    else
      match ParsedByteTokens(tokens[..|tokens| - 1])
      case Err(e) => Err(e)
      case Ok(bytes) =>
        var last := tokens[|tokens| - 1];
        if IsWildcardToken(last) then Err(WildcardHere(last))
        else
          match FromRadix16(last, 0xFF)
          case None => Err(NotAByte(last))
          case Some(b) => Ok(bytes + [b])
  }

  /** Blank text reads as no bytes at all. */
  function ParsedHexBytesField(input: string): Result<seq<Byte>, HexError> {
    if Trim(input) == [] then Ok([]) else ParsedByteTokens(SplitTokens(input))
  }

  method ParseHexBytesField(input: string) returns (parsed: Result<seq<Byte>, HexError>)
    ensures parsed == ParsedHexBytesField(input)
  {
    if Trim(input) == [] { return Ok([]); }
    var bytes: seq<Byte> := [];
    var tokens := SplitTokens(input);
    for k := 0 to |tokens|
      invariant ParsedByteTokens(tokens[..k]) == Ok(bytes)
    {
      assert tokens[..k + 1][..k] == tokens[..k];
      if IsWildcardToken(tokens[k]) {
        FirstBadByteDecides(tokens, k);
        return Err(WildcardHere(tokens[k]));
      }
      var value := FromRadix16(tokens[k], 0xFF);
      if value.None? {
        FirstBadByteDecides(tokens, k);
        return Err(NotAByte(tokens[k]));
      }
      bytes := bytes + [value.value];
    }
    assert tokens[..|tokens|] == tokens;
    return Ok(bytes);
  }

  lemma {:induction false} FirstBadByteDecides(tokens: seq<string>, k: nat)
    requires k < |tokens| && ParsedByteTokens(tokens[..k]).Ok? && ParsedByteTokens(tokens[..k + 1]).Err?
    ensures ParsedByteTokens(tokens) == ParsedByteTokens(tokens[..k + 1])
    decreases |tokens|
  {
    var earlier := tokens[..|tokens| - 1];
    if k < |earlier| {
      assert earlier[..k] == tokens[..k] && earlier[..k + 1] == tokens[..k + 1];
      FirstBadByteDecides(earlier, k);
    } else {
      assert tokens[..k + 1] == tokens;
    }
  }

  function ParsedHexByteField(input: string): Result<Byte, HexError> {
    match ParsedHexBytesField(input)
    case Err(e) => Err(e)
    case Ok(bytes) => if |bytes| == 1 then Ok(bytes[0]) else Err(WrongCount(|bytes|))
  }

  lemma {:induction false} ByteTokensRead(bytes: seq<Byte>)
    ensures ParsedByteTokens(HexBytes(bytes)) == Ok(bytes)
  {
    if bytes != [] {
      var n := |bytes| - 1;
      ByteTokensRead(bytes[..n]);
      assert HexBytes(bytes)[..n] == HexBytes(bytes[..n]);
      DigitsAreNoWildcard(bytes[n]);
      HexByteReads(bytes[n]);
      assert bytes == bytes[..n] + [bytes[n]];
    }
  }

  lemma BytesFieldRoundTrips(bytes: seq<Byte>)
    ensures ParsedHexBytesField(FormatHex(bytes)) == Ok(bytes)
  {
    SpacedSplits(HexBytes(bytes));
    ByteTokensRead(bytes);
    if Trim(FormatHex(bytes)) == [] {
      BlankHasNoTokens(FormatHex(bytes));
      assert |HexBytes(bytes)| == 0;
    }
  }

  lemma BlankHasNoTokens(s: string)
    requires Trim(s) == []
    ensures SplitTokens(s) == []
  {
    TrimStartIsBlank(s);
    TrimEndIsBlank(TrimStart(s));
  }

  lemma {:induction false} TrimStartIsBlank(s: string)
    ensures WithoutWhitespace(s) == WithoutWhitespace(TrimStart(s))
  {
    if s != [] && IsWhitespace(s[0]) {
      TrimStartIsBlank(s[1..]);
      WithoutWhitespaceJoins([s[0]], s[1..]);
      assert [s[0]] + s[1..] == s;
      assert [s[0]][..0] == [];
    }
  }

  lemma {:induction false} TrimEndIsBlank(s: string)
    ensures WithoutWhitespace(s) == WithoutWhitespace(TrimEnd(s))
  {
    if s != [] && IsWhitespace(s[|s| - 1]) {
      TrimEndIsBlank(s[..|s| - 1]);
    }
  }

  // ---------------------------------------------------------------- security levels

  datatype SecurityKeyPolicy = CompareWithExpectedKey | AcceptAnyKey | RefuseWith(nrc: Byte)

  datatype SecurityLevel = SecurityLevel(requestSeed: Byte, seed: seq<Byte>, expectedKey: seq<Byte>, keyPolicy: SecurityKeyPolicy)

  datatype SecurityLevelDto = SecurityLevelDto(
    requestSeedHex: string,
    seedHex: string,
    expectedKeyHex: string,
    keyPolicy: string,
    refusalNrcHex: Option<string>)

  function LowerCase(s: string): (lower: string)
    ensures |lower| == |s|
    ensures forall k :: 0 <= k < |s| ==> lower[k] == if 'A' <= s[k] <= 'Z' then s[k] - 'A' + 'a' else s[k]
  {
    seq(|s|, k requires 0 <= k < |s| => if 'A' <= s[k] <= 'Z' then s[k] - 'A' + 'a' else s[k])
  }

  function BuildSecurityLevelDto(level: SecurityLevel): SecurityLevelDto {
    var (policy, nrc) :=
      match level.keyPolicy
      case CompareWithExpectedKey => ("compare", None)
      case AcceptAnyKey => ("acceptAny", None)
      case RefuseWith(nrc) => ("refuse", Some(HexByte(nrc)));
    SecurityLevelDto(HexByte(level.requestSeed), FormatHex(level.seed), FormatHex(level.expectedKey), policy, nrc)
  }

  function BuildKeyPolicy(dto: SecurityLevelDto): Result<SecurityKeyPolicy, FieldError> {
    var policy := LowerCase(Trim(dto.keyPolicy));
    if policy == "compare" then Ok(CompareWithExpectedKey)
    else if policy == "acceptany" then Ok(AcceptAnyKey)
    else if policy == "refuse" then
      match dto.refusalNrcHex
      case None => Ok(RefuseWith(NRC_INVALID_KEY))
      case Some(text) =>
        match ParsedHexByteField(text)
        case Err(e) => Err(BadHex(e))
        case Ok(nrc) => Ok(RefuseWith(nrc))
    else Err(UnknownKeyPolicy(policy))
  }

  function BuildSecurityLevel(dto: SecurityLevelDto): Result<SecurityLevel, FieldError> {
    match ParsedHexByteField(dto.requestSeedHex)
    case Err(e) => Err(BadHex(e))
    case Ok(requestSeed) =>
      match ParsedHexBytesField(dto.seedHex)
      case Err(e) => Err(BadHex(e))
      case Ok(seed) =>
        match ParsedHexBytesField(dto.expectedKeyHex)
        case Err(e) => Err(BadHex(e))
        case Ok(key) =>
          match BuildKeyPolicy(dto)
          case Err(e) => Err(e)
          case Ok(policy) => Ok(SecurityLevel(requestSeed, seed, key, policy))
  }

  lemma ByteFieldRoundTrips(b: Byte)
    ensures ParsedHexByteField(HexByte(b)) == Ok(b)
  {
    BytesFieldRoundTrips([b]);
    assert HexBytes([b]) == [HexByte(b)];
  }

  /** Every security level, written out, reads back as itself. */
  lemma SecurityLevelRoundTrips(level: SecurityLevel)
    ensures BuildSecurityLevel(BuildSecurityLevelDto(level)) == Ok(level)
  {
    hide ParsedHexByteField, ParsedHexBytesField, HexByte, FormatHex, BuildKeyPolicy;
    ByteFieldRoundTrips(level.requestSeed);
    BytesFieldRoundTrips(level.seed);
    BytesFieldRoundTrips(level.expectedKey);
    KeyPolicyRoundTrips(level);
  }

  lemma KeyPolicyRoundTrips(level: SecurityLevel)
    ensures BuildKeyPolicy(BuildSecurityLevelDto(level)) == Ok(level.keyPolicy)
  {
    hide ParsedHexByteField, HexByte, FormatHex, LowerCase, Trim;
    if level.keyPolicy.RefuseWith? { ByteFieldRoundTrips(level.keyPolicy.nrc); }
    PolicyNamesRead();
  }

  lemma PolicyNamesRead()
    ensures LowerCase(Trim("compare")) == "compare"
    ensures LowerCase(Trim("acceptAny")) == "acceptany"
    ensures LowerCase(Trim("refuse")) == "refuse"
  {
    TrimKeepsDigits("compare");
    TrimKeepsDigits("acceptAny");
    TrimKeepsDigits("refuse");
  }

  // ---------------------------------------------------------------- handles

  datatype EcuKey = Can(requestCanId: CanId) | DoIp(logicalAddress: LogicalAddress)

  datatype HandleError = EmptyCanId | NotACanId | TooWide | NotALogicalAddress

  function FormatCanId(id: CanId): string {
    if id > 0x7FF then Padded(id, 8) else Padded(id, 3)
  }

  function ParseCanId(input: string): Result<CanId, HandleError> {
    var trimmed := Trim(input);
    if trimmed == [] then Err(EmptyCanId)
    else
      var digits := if "0x" <= trimmed || "0X" <= trimmed then trimmed[2..] else trimmed;
      match FromRadix16(digits, 0xFFFF_FFFF)
      case None => Err(NotACanId)
      case Some(id) => if id > WIDEST_CAN_ID then Err(TooWide) else Ok(id)
  }

  function FormatEcuHandle(key: EcuKey): string {
    match key
    case Can(id) => FormatCanId(id)
    case DoIp(address) => "doip-" + Padded(address, 4)
  }

  function ParseEcuHandle(handle: string): Result<EcuKey, HandleError> {
    var trimmed := Trim(handle);
    if "doip-" <= trimmed || "DOIP-" <= trimmed then
      match FromRadix16(trimmed[5..], 0xFFFF)
      case None => Err(NotALogicalAddress)
      case Some(address) => Ok(DoIp(address))
    else
      match ParseCanId(trimmed)
      case Err(e) => Err(e)
      case Ok(id) => Ok(Can(id))
  }

  /** A handle reads back as its key exactly when the key is a DoIP address or a CAN id of at most 29 bits. */
  lemma HandleRoundTripsExactly(key: EcuKey)
    ensures ParseEcuHandle(FormatEcuHandle(key)) == Ok(key) <==> (key.Can? ==> key.requestCanId <= 0x1FFF_FFFF)
  {
    match key
    case DoIp(address) => DoIpHandleRoundTrips(address);
    case Can(id) => CanHandleRoundTrips(id);
  }

  lemma DoIpHandleRoundTrips(address: LogicalAddress)
    ensures ParseEcuHandle(FormatEcuHandle(DoIp(address))) == Ok(DoIp(address))
  {
    var digits := Padded(address, 4);
    PaddedReads(address, 4, 0xFFFF);
    TrimKeepsDigits("doip-" + digits);
    assert ("doip-" + digits)[5..] == digits;
    hide Padded, FromRadix16, Trim, DigitsValue;
  }

  lemma CanHandleRoundTrips(id: CanId)
    ensures ParseEcuHandle(FormatCanId(id)) == if id <= WIDEST_CAN_ID then Ok(Can(id)) else Err(TooWide)
  {
    var s := FormatCanId(id);
    PaddedReads(id, if id > 0x7FF then 8 else 3, 0xFFFF_FFFF);
    assert |s| >= 3 && IsUpperDigit(s[0]) && IsUpperDigit(s[1]);
    assert Trim(s) == s && FromRadix16(s, 0xFFFF_FFFF) == Some(id);
    NoPrefix(s);
    hide FormatCanId, Padded, FromRadix16, Trim, DigitsValue, IsUpperDigit;
    assert ParseCanId(s) == if id <= WIDEST_CAN_ID then Ok(id) else Err(TooWide);
  }

  /** Text starting with two uppercase digits carries none of the prefixes handles know. */
  lemma NoPrefix(s: string)
    requires |s| >= 2 && IsUpperDigit(s[0]) && IsUpperDigit(s[1])
    ensures !("doip-" <= s) && !("DOIP-" <= s) && !("0x" <= s) && !("0X" <= s)
  {
    assert !IsUpperDigit('d') && !IsUpperDigit('O') && !IsUpperDigit('x') && !IsUpperDigit('X');
    assert s[0] != "doip-"[0] && s[1] != "DOIP-"[1] && s[1] != "0x"[1] && s[1] != "0X"[1];
  }

  /** No two ECU keys, of any width, share a handle. */
  lemma HandlesAreDistinct(a: EcuKey, b: EcuKey)
    requires FormatEcuHandle(a) == FormatEcuHandle(b)
    ensures a == b
  {
    ReadsBackDigits(a);
    ReadsBackDigits(b);
  }

  lemma ReadsBackDigits(key: EcuKey)
    ensures var handle := FormatEcuHandle(key);
            match key
            case Can(id) => |handle| > 0 && IsUpperDigit(handle[0]) && DigitsValue(handle) == Some(id)
            case DoIp(address) => |handle| > 5 && handle[0] == 'd' && DigitsValue(handle[5..]) == Some(address)
  {
    match key
    case Can(id) => PaddedReads(id, if id > 0x7FF then 8 else 3, 0xFFFF_FFFF);
    case DoIp(address) =>
      PaddedReads(address, 4, 0xFFFF);
      assert ("doip-" + Padded(address, 4))[5..] == Padded(address, 4);
  }
}
