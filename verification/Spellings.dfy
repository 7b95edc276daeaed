/** Which texts read alike and as what: digits, spacing, case, wildcards, prefixes, and the three byte readers against each other. */
module Spellings {
  import opened Basics
  import opened Hex
  import opened WireForm

  /** What a reader makes of a text, whatever it says of one it refuses. */
  ghost function Value<T>(parsed: Result<T, HexError>): Option<T> {
    if parsed.Ok? then Some(parsed.value) else None
  }

  /** Bytes are written in these digits, and read from them in either case. */
  lemma BytesAreSpelled(b: Byte)
    ensures HexByte(b) == ["0123456789ABCDEF"[b / 16], "0123456789ABCDEF"[b % 16]]
    ensures FromRadix16(["0123456789abcdef"[b / 16], "0123456789abcdef"[b % 16]], 0xFF) == Some(b)
  {
    DigitIsSpelled(b / 16);
    DigitIsSpelled(b % 16);
    HexByteReads(b);
    CaseDoesNotMatter(HexByte(b), 0xFF);
    hide DigitOf, FromRadix16;
    assert LowerCase(HexByte(b)) == ["0123456789abcdef"[b / 16], "0123456789abcdef"[b % 16]];
  }

  lemma DigitIsSpelled(n: nat)
    requires n < 16
    ensures DigitOf(n) == "0123456789ABCDEF"[n]
    ensures LowerCase([DigitOf(n)]) == ["0123456789abcdef"[n]]
  {
  }

  // ---------------------------------------------------------------- numbers

  lemma {:induction false} DigitsInEitherCase(s: string)
    ensures DigitsValue(LowerCase(s)) == DigitsValue(s)
  {
    if s != [] {
      DigitsInEitherCase(s[..|s| - 1]);
      assert LowerCase(s)[..|s| - 1] == LowerCase(s[..|s| - 1]);
    }
  }

  /** A number reads alike in either case. */
  lemma CaseDoesNotMatter(s: string, max: nat)
    ensures FromRadix16(LowerCase(s), max) == FromRadix16(s, max)
  {
    DigitsInEitherCase(s);
    if |s| > 1 && s[0] == '+' {
      DigitsInEitherCase(s[1..]);
      assert LowerCase(s)[1..] == LowerCase(s[1..]);
    }
  }

  /** One plus sign in front of digits changes nothing; a second one, or one alone, is no number. */
  lemma PlusSignIsSkipped(s: string, max: nat)
    ensures FromRadix16("+" + s, max) == if s != [] && s[0] == '+' then None else FromRadix16(s, max)
  {
    assert ("+" + s)[1..] == s;
    if s == [] {
      assert "+" + s == "+" && "+"[..0] == [];
      assert DigitsValue("+").None?;
    } else if s[0] == '+' {
      NoDigitFirst(s);
    }
  }

  lemma {:induction false} NoDigitFirst(s: string)
    requires s != [] && DigitValue(s[0]).None?
    ensures DigitsValue(s).None?
  {
    if |s| > 1 { NoDigitFirst(s[..|s| - 1]); }
  }

  // ---------------------------------------------------------------- pairs and tokens

  lemma {:induction false} ChunksAt(s: string)
    ensures |Chunks(s)| == (|s| + 1) / 2
    ensures forall k :: 0 <= k < |Chunks(s)| ==> Chunks(s)[k] == s[2 * k..if 2 * k + 2 <= |s| then 2 * k + 2 else |s|]
  {
    if |s| > 2 {
      var rest := s[2..];
      ChunksAt(rest);
      hide Chunks;
      assert Chunks(s) == [s[..2]] + Chunks(rest) by { ChunksStep(s); }
      forall k | 0 < k < |Chunks(s)| ensures Chunks(s)[k] == s[2 * k..if 2 * k + 2 <= |s| then 2 * k + 2 else |s|] {
        assert Chunks(s)[k] == Chunks(rest)[k - 1];
        PieceOfRest(s, 2 * (k - 1), if 2 * k <= |rest| then 2 * k else |rest|);
      }
    } else if |s| == 2 {
      assert s[2..] == [] && s[..2] == s;
    }
  }

  lemma ChunksStep(s: string)
    requires |s| > 1
    ensures Chunks(s) == [s[..2]] + Chunks(s[2..])
  {
  }

  lemma PieceOfRest(s: string, lo: nat, hi: nat)
    requires |s| >= 2 && lo <= hi <= |s| - 2
    ensures s[2..][lo..hi] == s[lo + 2..hi + 2]
  {
  }

  /** A pattern is read token by token. */
  lemma {:induction false} TokensReadApart(tokens: seq<string>)
    ensures ParsedTokens(tokens).Ok? <==> forall k :: 0 <= k < |tokens| ==> ParsedToken(tokens[k]).Some?
    ensures ParsedTokens(tokens).Ok? ==>
              forall k :: 0 <= k < |tokens| ==>
                ParsedToken(tokens[k]) == Some((ParsedTokens(tokens).value.bytes[k], ParsedTokens(tokens).value.mask[k]))
  {
    hide ParsedToken;
    if tokens != [] {
      TokensReadApart(tokens[..|tokens| - 1]);
      assert forall k :: 0 <= k < |tokens| - 1 ==> tokens[k] == tokens[..|tokens| - 1][k];
    }
  }

  /** So is a byte field, in which a wildcard is no number either. */
  lemma {:induction false} BytesReadApart(tokens: seq<string>)
    ensures ParsedByteTokens(tokens).Ok? <==> forall k :: 0 <= k < |tokens| ==> FromRadix16(tokens[k], 0xFF).Some?
    ensures ParsedByteTokens(tokens).Ok? ==>
              && |ParsedByteTokens(tokens).value| == |tokens|
              && forall k :: 0 <= k < |tokens| ==> FromRadix16(tokens[k], 0xFF) == Some(ParsedByteTokens(tokens).value[k])
  {
    hide FromRadix16, IsWildcardToken;
    if tokens != [] {
      BytesReadApart(tokens[..|tokens| - 1]);
      WildcardsAreNoNumbers(tokens[|tokens| - 1]);
      assert forall k :: 0 <= k < |tokens| - 1 ==> tokens[k] == tokens[..|tokens| - 1][k];
    }
  }

  lemma WildcardsAreNoNumbers(token: string)
    ensures IsWildcardToken(token) ==> FromRadix16(token, 0xFF).None?
  {
    if IsWildcardToken(token) { NoDigitFirst(token); }
  }

  lemma {:induction false} PairsReadApart(chars: string, j: nat)
    requires 2 * j <= |chars| && PairsFrom(chars, 2 * j).Ok?
    ensures |chars| == 2 * j + 2 * |PairsFrom(chars, 2 * j).value|
    ensures forall k :: j <= k && 2 * k + 2 <= |chars| ==> FromRadix16(chars[2 * k..2 * k + 2], 0xFF) == Some(PairsFrom(chars, 2 * j).value[k - j])
    decreases |chars| - j
  {
    hide FromRadix16;
    if 2 * j + 2 <= |chars| { PairsReadApart(chars, j + 1); }
  }

  /** The pairs of an even text are its tokens. */
  lemma PairsAreTokens(input: string)
    requires |WithoutWhitespace(input)| % 2 == 0
    ensures var clean, tokens := WithoutWhitespace(input), SplitTokens(input);
            && |clean| == 2 * |tokens|
            && (forall k :: 0 <= k < |tokens| ==> tokens[k] == clean[2 * k..2 * k + 2])
            && ((forall k :: 0 <= k && 2 * k + 2 <= |clean| ==> IsHexPairAt(clean, k)) <==>
                (forall k :: 0 <= k < |tokens| ==> FromRadix16(tokens[k], 0xFF).Some?))
  {
    var clean, tokens := WithoutWhitespace(input), SplitTokens(input);
    ChunksAt(clean);
    hide WithoutWhitespace, Chunks, FromRadix16;
    forall k | 0 <= k < |tokens| ensures IsHexPairAt(clean, k) <==> FromRadix16(tokens[k], 0xFF).Some? {
      assert tokens[k] == clean[2 * k..2 * k + 2];
    }
  }

  /**
   * The three readers agree: what the request reader takes is what the byte fields take that is not blank
   * and has an even number of characters, as the same bytes; and a pattern takes it with every byte fixed.
   */
  lemma ReadersAgree(input: string)
    ensures var clean, request, field, pattern := WithoutWhitespace(input), ParsedHex(input), ParsedHexBytesField(input), ParsedHexPattern(input);
            && (request.Ok? <==> field.Ok? && clean != [] && |clean| % 2 == 0)
            && (request.Ok? ==> field == request && pattern == Ok(Pattern(request.value, seq(|request.value|, _ => 0xFF))))
  {
    hide WithoutWhitespace, Chunks, FromRadix16, PairsFrom, ParsedTokens, ParsedByteTokens, ParsedToken, ByteLength, IsHexPairAt;
    ReadsExactly(input);
    BlankExactly(input);
    BytesReadApart(SplitTokens(input));
    if |WithoutWhitespace(input)| % 2 == 0 { PairsAreTokens(input); }
    if ParsedHex(input).Ok? {
      RequestAsField(input);
      RequestAsPattern(input);
    }
  }

  /** What the request reader makes of the tokens of a text. */
  lemma RequestByTokens(input: string)
    requires ParsedHex(input).Ok?
    ensures var tokens, bytes := SplitTokens(input), ParsedHex(input).value;
            && |bytes| == |tokens| > 0 && |WithoutWhitespace(input)| % 2 == 0
            && forall k :: 0 <= k < |tokens| ==> FromRadix16(tokens[k], 0xFF) == Some(bytes[k])
  {
    hide FromRadix16, ByteLength, IsHexPairAt, Chunks, WithoutWhitespace;
    ReadsExactly(input);
    PairsReadApart(WithoutWhitespace(input), 0);
    hide PairsFrom;
    PairsAreTokens(input);
  }

  lemma RequestAsField(input: string)
    requires ParsedHex(input).Ok?
    ensures ParsedByteTokens(SplitTokens(input)) == ParsedHex(input)
  {
    hide FromRadix16, ParsedByteTokens, ParsedHex, SplitTokens;
    RequestByTokens(input);
    BytesReadApart(SplitTokens(input));
    assert ParsedByteTokens(SplitTokens(input)).value == ParsedHex(input).value;
  }

  lemma RequestAsPattern(input: string)
    requires ParsedHex(input).Ok?
    ensures var bytes := ParsedHex(input).value;
            ParsedHexPattern(input) == Ok(Pattern(bytes, seq(|bytes|, _ => 0xFF)))
  {
    hide FromRadix16, ParsedTokens, ParsedHex, SplitTokens, IsWildcardToken;
    RequestByTokens(input);
    var tokens, bytes := SplitTokens(input), ParsedHex(input).value;
    TokensReadApart(tokens);
    forall k | 0 <= k < |tokens| ensures ParsedToken(tokens[k]) == Some((bytes[k], 0xFF)) {
      WildcardsAreNoNumbers(tokens[k]);
    }
    hide ParsedToken;
    var pattern := ParsedTokens(tokens).value;
    assert pattern.bytes == bytes && pattern.mask == seq(|bytes|, _ => 0xFF);
  }

  lemma BlankExactly(input: string)
    ensures Trim(input) == [] <==> WithoutWhitespace(input) == []
  {
    TrimStartIsBlank(input);
    TrimEndIsBlank(TrimStart(input));
    var trimmed := Trim(input);
    if trimmed != [] {
      TrimEndsInText(TrimStart(input));
      assert WithoutWhitespace(trimmed) != [];
    }
  }

  lemma {:induction false} TrimEndsInText(s: string)
    ensures TrimEnd(s) != [] ==> !IsWhitespace(TrimEnd(s)[|TrimEnd(s)| - 1])
  {
    if s != [] && IsWhitespace(s[|s| - 1]) { TrimEndsInText(s[..|s| - 1]); }
  }

  /** Spaces decide nothing: texts with the same characters otherwise are read alike, or refused alike, by all three. */
  lemma SpacingDoesNotMatter(a: string, b: string)
    requires WithoutWhitespace(a) == WithoutWhitespace(b)
    ensures ParsedHex(a) == ParsedHex(b) && ParsedHexPattern(a) == ParsedHexPattern(b) && ParsedHexBytesField(a) == ParsedHexBytesField(b)
  {
    BlankExactly(a);
    BlankExactly(b);
  }

  /** White space is these 25 characters: the ASCII ones, the two of Latin-1, and the others Unicode lists. */
  lemma WhitespaceListed(c: char)
    ensures IsWhitespace(c) <==>
            c as int in [9, 10, 11, 12, 13, 32, 133, 160, 5760, 8192, 8193, 8194, 8195, 8196, 8197, 8198, 8199, 8200, 8201, 8202,
                         8232, 8233, 8239, 8287, 12288]
  {
  }

  // ---------------------------------------------------------------- wildcards

  /** A byte is open in all these spellings; anything else that reads is fixed. */
  lemma OpenSpellings(token: string)
    ensures var read := ParsedToken(token);
            && (token in {"**", "??", "..", "xx", "XX"} ==> read == Some((0, 0)))
            && (token !in {"**", "??", "..", "xx", "XX"} ==> read == None || read.value.1 == 0xFF)
  {
  }

  /** Case matters for one thing: an x and an X together, which is no wildcard although two of either are. */
  predicate IsMixedX(token: string) {
    token == "xX" || token == "Xx"
  }

  lemma TokenInEitherCase(token: string)
    ensures IsMixedX(token) ==> ParsedToken(token).None? && ParsedToken(LowerCase(token)).Some?
    ensures !IsMixedX(token) ==> ParsedToken(LowerCase(token)) == ParsedToken(token)
  {
    CaseDoesNotMatter(token, 0xFF);
    if IsMixedX(token) {
      NoDigitFirst(token);
      assert LowerCase(token) == "xx";
    } else {
      WildcardInEitherCase(token);
    }
  }

  lemma WildcardInEitherCase(token: string)
    requires !IsMixedX(token)
    ensures IsWildcardToken(LowerCase(token)) <==> IsWildcardToken(token)
  {
    var lower := LowerCase(token);
    if IsWildcardToken(token) {
      assert token == "XX" ==> lower == "xx";
      assert token != "XX" ==> lower == token;
    }
    if IsWildcardToken(lower) {
      assert |token| == 2;
      assert token == [token[0], token[1]];
    }
  }

  lemma {:induction false} WithoutWhitespaceLower(s: string)
    ensures WithoutWhitespace(LowerCase(s)) == LowerCase(WithoutWhitespace(s))
  {
    if s != [] {
      WithoutWhitespaceLower(s[..|s| - 1]);
      assert LowerCase(s)[..|s| - 1] == LowerCase(s[..|s| - 1]);
    }
  }

  lemma TokensLower(input: string)
    ensures var tokens, lower := SplitTokens(input), SplitTokens(LowerCase(input));
            |lower| == |tokens| && forall k :: 0 <= k < |tokens| ==> lower[k] == LowerCase(tokens[k])
  {
    var clean := WithoutWhitespace(input);
    WithoutWhitespaceLower(input);
    ChunksAt(clean);
    ChunksAt(LowerCase(clean));
  }

  lemma TokensInLowerCase(tokens: seq<string>, lower: seq<string>)
    requires |lower| == |tokens| && forall k :: 0 <= k < |tokens| ==> lower[k] == LowerCase(tokens[k])
    ensures ParsedTokens(lower).Ok? <==> forall k :: 0 <= k < |tokens| ==> IsMixedX(tokens[k]) || ParsedToken(tokens[k]).Some?
    ensures ParsedTokens(tokens).Ok? ==> ParsedTokens(lower) == ParsedTokens(tokens)
    ensures ParsedTokens(tokens).Ok? <==>
            ParsedTokens(lower).Ok? && forall k :: 0 <= k < |tokens| ==> !IsMixedX(tokens[k])
  {
    forall k | 0 <= k < |tokens|
      ensures IsMixedX(tokens[k]) ==> ParsedToken(tokens[k]).None? && ParsedToken(lower[k]).Some?
      ensures !IsMixedX(tokens[k]) ==> ParsedToken(lower[k]) == ParsedToken(tokens[k])
    {
      TokenInEitherCase(tokens[k]);
    }
    hide ParsedToken, ParsedTokens, IsMixedX;
    TokensReadApart(tokens);
    TokensReadApart(lower);
    if ParsedTokens(tokens).Ok? {
      var p, q := ParsedTokens(tokens).value, ParsedTokens(lower).value;
      assert q.bytes == p.bytes && q.mask == p.mask;
    }
  }

  /** A pattern reads differently in lower case exactly when it has a mixed x and everything else in it reads. */
  lemma PatternCaseMattersExactly(input: string)
    ensures Value(ParsedHexPattern(LowerCase(input))) != Value(ParsedHexPattern(input)) <==>
            var tokens := SplitTokens(input);
            && (exists k :: 0 <= k < |tokens| && IsMixedX(tokens[k]))
            && (forall k :: 0 <= k < |tokens| ==> IsMixedX(tokens[k]) || ParsedToken(tokens[k]).Some?)
  {
    TokensLower(input);
    hide ParsedToken, ParsedTokens, IsMixedX, SplitTokens;
    TokensInLowerCase(SplitTokens(input), SplitTokens(LowerCase(input)));
    if SplitTokens(input) == [] { NoTokens(); }
  }

  /** For instance. */
  lemma MixedXIsRefused()
    ensures ParsedHexPattern("3ExX").Err?
    ensures ParsedHexPattern("3Exx") == Ok(Pattern([0x3E, 0], [0xFF, 0]))
  {
    hide ParsedToken, ParsedTokens, SplitTokens;
    TwoPairs("3ExX");
    TwoPairs("3Exx");
    assert "3ExX"[..2] == "3Exx"[..2] == "3E" && "3ExX"[2..] == "xX" && "3Exx"[2..] == "xx";
    TokensOfTheExample();
    TwoTokens("3E", "xX");
    TwoTokens("3E", "xx");
  }

  lemma TokensOfTheExample()
    ensures ParsedToken("3E") == Some((0x3E, 0xFF)) && ParsedToken("xX").None? && ParsedToken("xx") == Some((0, 0))
  {
    BytesAreSpelled(0x3E);
    DigitsAreNoWildcard(0x3E);
    TokenInEitherCase("xX");
  }

  lemma TwoTokens(first: string, second: string)
    requires ParsedToken(first).Some?
    ensures var read, a, b := ParsedTokens([first, second]), ParsedToken(first).value, ParsedToken(second);
            if b.None? then read.Err? else read == Ok(Pattern([a.0, b.value.0], [a.1, b.value.1]))
  {
    TokensReadApart([first, second]);
    hide ParsedToken, ParsedTokens;
    var read := ParsedTokens([first, second]);
    assert [first, second][1] == second;
    if read.Ok? {
      assert [first, second][0] == first;
      assert read.value.bytes == [read.value.bytes[0], read.value.bytes[1]] && read.value.mask == [read.value.mask[0], read.value.mask[1]];
    }
  }

  lemma TwoPairs(s: string)
    requires |s| == 4 && forall k :: 0 <= k < 4 ==> !IsWhitespace(s[k])
    ensures SplitTokens(s) == [s[..2], s[2..]]
  {
    WithoutWhitespaceKeeps(s);
    ChunksAt(s);
    assert Chunks(s)[0] == s[..2] && Chunks(s)[1] == s[2..];
  }

  lemma {:induction false} WithoutWhitespaceKeeps(s: string)
    requires forall k :: 0 <= k < |s| ==> !IsWhitespace(s[k])
    ensures WithoutWhitespace(s) == s
  {
    if s != [] { WithoutWhitespaceKeeps(s[..|s| - 1]); }
  }

  /** Requests and byte fields read alike in either case. */
  lemma BytesReadInEitherCase(input: string)
    ensures Value(ParsedHexBytesField(LowerCase(input))) == Value(ParsedHexBytesField(input))
    ensures Value(ParsedHex(LowerCase(input))) == Value(ParsedHex(input))
  {
    var tokens, lower := SplitTokens(input), SplitTokens(LowerCase(input));
    TokensLower(input);
    BytesReadApart(tokens);
    BytesReadApart(lower);
    forall k | 0 <= k < |tokens| ensures FromRadix16(lower[k], 0xFF) == FromRadix16(tokens[k], 0xFF) {
      CaseDoesNotMatter(tokens[k], 0xFF);
    }
    BlankExactly(input);
    BlankExactly(LowerCase(input));
    WithoutWhitespaceLower(input);
    ReadersAgree(input);
    ReadersAgree(LowerCase(input));
    hide FromRadix16, SplitTokens, WithoutWhitespace, Trim, ParsedByteTokens, ParsedHex;
    if ParsedByteTokens(tokens).Ok? {
      assert ParsedByteTokens(lower).value == ParsedByteTokens(tokens).value;
    }
  }

  // ---------------------------------------------------------------- printed patterns

  /** Every printed pattern reads back, open bytes as zero and every other byte as fixed throughout. */
  lemma PrintedPatternReadsAs(bytes: seq<Byte>, mask: seq<Byte>)
    requires bytes != [] && |mask| == |bytes|
    ensures ParsedHexPattern(FormatHexPattern(bytes, mask)) ==
            Ok(Pattern(seq(|bytes|, k requires 0 <= k < |bytes| => if mask[k] == 0 then 0 else bytes[k]),
                       seq(|bytes|, k requires 0 <= k < |bytes| => if mask[k] == 0 then 0 else 0xFF)))
  {
    var tokens := PatternTokens(bytes, mask);
    SpacedSplits(tokens);
    TokensReadApart(tokens);
    forall k | 0 <= k < |tokens| ensures ParsedToken(tokens[k]) == Some(if mask[k] == 0 then (0, 0) else (bytes[k], 0xFF)) {
      DigitsAreNoWildcard(bytes[k]);
    }
    hide ParsedToken, PatternTokens, ParsedTokens, SplitTokens;
    var pattern := ParsedTokens(tokens).value;
    assert pattern.bytes == seq(|bytes|, k requires 0 <= k < |bytes| => if mask[k] == 0 then 0 else bytes[k]);
    assert pattern.mask == seq(|bytes|, k requires 0 <= k < |bytes| => if mask[k] == 0 then 0 else 0xFF);
  }

  // ---------------------------------------------------------------- security levels

  /** A refusing level that names no code refuses with invalidKey; a policy by another name is reported in lower case. */
  lemma RefusalDefaultsToInvalidKey(dto: SecurityLevelDto)
    requires LowerCase(Trim(dto.keyPolicy)) == "refuse" && dto.refusalNrcHex == None
    ensures BuildKeyPolicy(dto) == Ok(RefuseWith(0x35))
  {
  }

  // ---------------------------------------------------------------- handles

  /** Standard identifiers take three digits, extended ones eight, DoIP addresses four behind their prefix. */
  lemma HandleLengths(key: EcuKey)
    ensures var handle := FormatEcuHandle(key);
            match key
            case Can(id) => |handle| == if id <= 0x7FF then 3 else 8
            case DoIp(address) => |handle| == 9 && handle[..5] == "doip-"
  {
    match key
    case Can(id) =>
      assert Sixteens(3) == 0x1000 && Sixteens(8) == 0x1_0000_0000;
      DigitCount(id, if id > 0x7FF then 8 else 3);
    case DoIp(address) =>
      assert Sixteens(4) == 0x1_0000;
      DigitCount(address, 4);
  }

  function Sixteens(width: nat): nat {
    if width == 0 then 1 else 16 * Sixteens(width - 1)
  }

  lemma {:induction false} DigitCount(n: nat, width: nat)
    requires 0 < width && n < Sixteens(width)
    ensures |HexDigits(n)| <= width && |Padded(n, width)| == width
  {
    if n >= 16 {
      DigitCount(n / 16, width - 1);
    }
  }

  /** An identifier may carry either prefix, and a DoIP address must carry either of two. */
  lemma PrefixesReadAlike(key: EcuKey)
    ensures key.Can? && key.requestCanId <= 0x1FFF_FFFF ==>
              ParseEcuHandle("0x" + FormatEcuHandle(key)) == ParseEcuHandle("0X" + FormatEcuHandle(key)) == Ok(key)
    ensures key.DoIp? ==> ParseEcuHandle("DOIP-" + FormatEcuHandle(key)[5..]) == Ok(key)
  {
    match key
    case DoIp(address) =>
      assert ("doip-" + Padded(address, 4))[5..] == Padded(address, 4);
      UpperPrefixReads(address);
    case Can(id) =>
      if id <= 0x1FFF_FFFF {
        PrefixedReads(id, "0x");
        PrefixedReads(id, "0X");
      }
  }

  /** Any number of any width: an identifier of 29 bits, too wide within 32, no identifier beyond; an address of 16 bits, or none. */
  lemma NumbersReadByWidth(n: nat, width: nat)
    ensures ParseCanId(Padded(n, width)) ==
            if n <= 0x1FFF_FFFF then Ok(n) else if n <= 0xFFFF_FFFF then Err(TooWide) else Err(NotACanId)
    ensures ParseEcuHandle("doip-" + Padded(n, width)) == if n <= 0xFFFF then Ok(DoIp(n)) else Err(NotALogicalAddress)
  {
    var digits := Padded(n, width);
    PaddedReads(n, width, n);
    TrimKeepsDigits("doip-" + digits);
    assert ("doip-" + digits)[5..] == digits;
    assert digits[0] != '+' && (|digits| > 1 ==> digits[1] != 'x' && digits[1] != 'X');
    hide Padded, Trim, DigitsValue;
  }

  lemma UpperPrefixReads(address: LogicalAddress)
    ensures ParseEcuHandle("DOIP-" + Padded(address, 4)) == Ok(DoIp(address))
  {
    var digits := Padded(address, 4);
    PaddedReads(address, 4, 0xFFFF);
    TrimKeepsDigits("DOIP-" + digits);
    hide Padded, FromRadix16, Trim, DigitsValue;
    assert ("DOIP-" + digits)[5..] == digits;
  }

  lemma PrefixedReads(id: CanId, prefix: string)
    requires id <= 0x1FFF_FFFF && (prefix == "0x" || prefix == "0X")
    ensures ParseEcuHandle(prefix + FormatCanId(id)) == Ok(Can(id))
  {
    var s := FormatCanId(id);
    var text := prefix + s;
    PaddedReads(id, if id > 0x7FF then 8 else 3, 0xFFFF_FFFF);
    TrimKeepsDigits(text);
    assert text[2..] == s;
    assert prefix <= text && text[0] == '0';
    assert !("doip-" <= text) && !("DOIP-" <= text) by { assert "doip-"[0] != '0' && "DOIP-"[0] != '0'; }
  }
}
