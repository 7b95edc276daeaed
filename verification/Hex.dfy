/** Hexadecimal text: digits, tokens, padding and how each is read back. */
module Hex {
  import opened Basics

  // ---------------------------------------------------------------- characters

  /** The characters with the Unicode White_Space property. */
  predicate IsWhitespace(c: char) {
    var n := c as int;
    || 0x09 <= n <= 0x0D || n == 0x20 || n == 0x85 || n == 0xA0 || n == 0x1680
    || 0x2000 <= n <= 0x200A || n == 0x2028 || n == 0x2029 || n == 0x202F || n == 0x205F || n == 0x3000
  }

  /** Bytes one character takes in UTF-8. */
  function Utf8Length(c: char): nat {
    var n := c as int;
    if n < 0x80 then 1 else if n < 0x800 then 2 else if n < 0x1_0000 then 3 else 4
  }

  function ByteLength(s: string): nat {
    if s == [] then 0 else ByteLength(s[..|s| - 1]) + Utf8Length(s[|s| - 1])
  }

  function WithoutWhitespace(s: string): string {
    if s == [] then []
    else WithoutWhitespace(s[..|s| - 1]) + (if IsWhitespace(s[|s| - 1]) then [] else [s[|s| - 1]])
  }

  function TrimStart(s: string): string {
    if s != [] && IsWhitespace(s[0]) then TrimStart(s[1..]) else s
  }

  function TrimEnd(s: string): string {
    if s != [] && IsWhitespace(s[|s| - 1]) then TrimEnd(s[..|s| - 1]) else s
  }

  function Trim(s: string): string {
    TrimEnd(TrimStart(s))
  }

  // ---------------------------------------------------------------- digits

  function DigitOf(n: nat): (c: char)
    requires n < 16
    ensures DigitValue(c) == Some(n) && !IsWhitespace(c) && IsUpperDigit(c)
  {
    if n < 10 then '0' + n as char else 'A' + (n - 10) as char
  }

  predicate IsUpperDigit(c: char) {
    '0' <= c <= '9' || 'A' <= c <= 'F'
  }

  function DigitValue(c: char): Option<nat> {
    if '0' <= c <= '9' then Some(c as int - '0' as int)
    else if 'A' <= c <= 'F' then Some(c as int - 'A' as int + 10)
    else if 'a' <= c <= 'f' then Some(c as int - 'a' as int + 10)
    else None
  }

  function DigitsValue(s: string): Option<nat> {
    if s == [] then Some(0)
    else
      var upper, last := DigitsValue(s[..|s| - 1]), DigitValue(s[|s| - 1]);
      if upper.None? || last.None? then None else Some(16 * upper.value + last.value)
  }

  /** Reading an unsigned number in base 16: one leading plus sign is allowed, an empty text is not, nor is a value above `max`. */
  function FromRadix16(s: string, max: nat): (n: Option<nat>)
    ensures n.Some? ==> n.value <= max
  {
    var digits := if |s| > 1 && s[0] == '+' then s[1..] else s;
    if digits == [] then None
    else
      match DigitsValue(digits)
      case None => None
      case Some(n) => if n <= max then Some(n) else None
  }

  function HexDigits(n: nat): (s: string)
    ensures s != [] && forall k :: 0 <= k < |s| ==> IsUpperDigit(s[k])
  {
    if n < 16 then [DigitOf(n)] else HexDigits(n / 16) + [DigitOf(n % 16)]
  }

  /** Uppercase digits, padded with zeros on the left to at least `width`. */
  function Padded(n: nat, width: nat): (s: string)
    ensures |s| >= width && s != [] && forall k :: 0 <= k < |s| ==> IsUpperDigit(s[k])
  {
    var digits := HexDigits(n);
    if |digits| < width then seq(width - |digits|, _ => '0') + digits else digits
  }

  lemma {:induction false} HexDigitsRead(n: nat)
    ensures DigitsValue(HexDigits(n)) == Some(n)
  {
    if n >= 16 {
      HexDigitsRead(n / 16);
      var s := HexDigits(n);
      assert s[..|s| - 1] == HexDigits(n / 16);
    }
  }

  lemma {:induction false} LeadingZerosRead(zeros: nat, s: string)
    ensures DigitsValue(seq(zeros, _ => '0') + s) == DigitsValue(s)
  {
    var padded := seq(zeros, _ => '0') + s;
    if s != [] {
      assert padded[..|padded| - 1] == seq(zeros, _ => '0') + s[..|s| - 1];
      LeadingZerosRead(zeros, s[..|s| - 1]);
    } else if zeros > 0 {
      assert padded[..|padded| - 1] == seq(zeros - 1, _ => '0') + s;
      LeadingZerosRead(zeros - 1, s);
    } else {
      assert padded == s;
    }
  }

  /** A padded number reads back as itself, whatever the width. */
  lemma PaddedReads(n: nat, width: nat, max: nat)
    requires n <= max
    ensures FromRadix16(Padded(n, width), max) == Some(n)
    ensures DigitsValue(Padded(n, width)) == Some(n)
    ensures Trim(Padded(n, width)) == Padded(n, width)
  {
    HexDigitsRead(n);
    if |HexDigits(n)| < width { LeadingZerosRead(width - |HexDigits(n)|, HexDigits(n)); }
    TrimKeepsDigits(Padded(n, width));
  }

  lemma TrimKeepsDigits(s: string)
    requires s != [] && !IsWhitespace(s[0]) && !IsWhitespace(s[|s| - 1])
    ensures Trim(s) == s
  {
  }

  // ---------------------------------------------------------------- tokens

  /** Two-character pieces, the last one shorter if the text runs out. */
  function Chunks(s: string): (chunks: seq<string>)
    ensures forall k :: 0 <= k < |chunks| ==> 1 <= |chunks[k]| <= 2
    ensures s != [] <==> chunks != []
  {
    if s == [] then [] else if |s| == 1 then [s] else [s[..2]] + Chunks(s[2..])
  }

  function SplitTokens(s: string): seq<string> {
    Chunks(WithoutWhitespace(s))
  }

  /** Tokens with one space between them. */
  function Spaced(tokens: seq<string>): string {
    if tokens == [] then []
    else if |tokens| == 1 then tokens[0]
    else Spaced(tokens[..|tokens| - 1]) + " " + tokens[|tokens| - 1]
  }

  ghost predicate ArePairs(tokens: seq<string>) {
    forall k :: 0 <= k < |tokens| ==> |tokens[k]| == 2 && !IsWhitespace(tokens[k][0]) && !IsWhitespace(tokens[k][1])
  }

  function Flat(tokens: seq<string>): string {
    if tokens == [] then [] else Flat(tokens[..|tokens| - 1]) + tokens[|tokens| - 1]
  }

  lemma {:induction false} WithoutWhitespaceJoins(a: string, b: string)
    ensures WithoutWhitespace(a + b) == WithoutWhitespace(a) + WithoutWhitespace(b)
  {
    if b == [] {
      assert a + b == a;
    } else {
      var ab := a + b;
      assert ab[..|ab| - 1] == a + b[..|b| - 1];
      WithoutWhitespaceJoins(a, b[..|b| - 1]);
    }
  }

  lemma PairHasNoWhitespace(pair: string)
    requires |pair| == 2 && !IsWhitespace(pair[0]) && !IsWhitespace(pair[1])
    ensures WithoutWhitespace(pair) == pair
  {
    assert pair[..1] == [pair[0]] && pair[..1][..0] == [];
    assert WithoutWhitespace(pair[..1]) == [pair[0]];
  }

  lemma {:induction false} SpacedIsFlat(tokens: seq<string>)
    requires ArePairs(tokens)
    ensures WithoutWhitespace(Spaced(tokens)) == Flat(tokens)
  {
    if tokens != [] {
      var earlier, last := tokens[..|tokens| - 1], tokens[|tokens| - 1];
      SpacedIsFlat(earlier);
      PairHasNoWhitespace(last);
      if |tokens| > 1 {
        WithoutWhitespaceJoins(Spaced(earlier) + " ", last);
        WithoutWhitespaceJoins(Spaced(earlier), " ");
        assert WithoutWhitespace(" ") == [] by { assert " "[..0] == []; }
      } else {
        assert earlier == [];
      }
    }
  }

  lemma {:induction false} FlatLength(tokens: seq<string>)
    requires ArePairs(tokens)
    ensures |Flat(tokens)| == 2 * |tokens|
  {
    if tokens != [] { FlatLength(tokens[..|tokens| - 1]); }
  }

  lemma {:induction false} ChunksJoin(a: string, b: string)
    requires |a| % 2 == 0
    ensures Chunks(a + b) == Chunks(a) + Chunks(b)
  {
    if a == [] {
      assert a + b == b;
    } else {
      var ab := a + b;
      assert ab[..2] == a[..2] && ab[2..] == a[2..] + b;
      ChunksJoin(a[2..], b);
    }
  }

  lemma {:induction false} FlatChunks(tokens: seq<string>)
    requires ArePairs(tokens)
    ensures Chunks(Flat(tokens)) == tokens
  {
    if tokens != [] {
      var earlier, last := tokens[..|tokens| - 1], tokens[|tokens| - 1];
      FlatChunks(earlier);
      FlatLength(earlier);
      ChunksJoin(Flat(earlier), last);
      assert last[..2] == last && last[2..] == [];
      assert Chunks(last) == [last];
    }
  }

  /** Writing pairs with spaces between them and splitting again gives the pairs back. */
  lemma SpacedSplits(tokens: seq<string>)
    requires ArePairs(tokens)
    ensures SplitTokens(Spaced(tokens)) == tokens
  {
    SpacedIsFlat(tokens);
    FlatChunks(tokens);
  }

  // ---------------------------------------------------------------- bytes

  function HexByte(b: Byte): (s: string)
    ensures |s| == 2 && IsUpperDigit(s[0]) && IsUpperDigit(s[1])
  {
    [DigitOf(b / 16), DigitOf(b % 16)]
  }

  lemma HexByteReads(b: Byte)
    ensures FromRadix16(HexByte(b), 0xFF) == Some(b)
  {
    var s := HexByte(b);
    assert s[..1] == [s[0]] && s[..1][..0] == [];
    assert DigitsValue(s[..1]) == Some(b / 16);
  }

  function HexBytes(bytes: seq<Byte>): (tokens: seq<string>)
    ensures |tokens| == |bytes| && forall k :: 0 <= k < |bytes| ==> tokens[k] == HexByte(bytes[k])
  {
    seq(|bytes|, k requires 0 <= k < |bytes| => HexByte(bytes[k]))
  }

  /** Space-separated uppercase hex. */
  function FormatHex(bytes: seq<Byte>): string {
    Spaced(HexBytes(bytes))
  }

  datatype HexError =
    | Empty
    | OddLength
    | NotAByte(token: string)
    | WildcardHere(token: string)
    | WrongCount(count: nat)
    | IndexPanic

  /** Reading the pairs of a cleaned text from a position on; a lone last character is indexed out of range. */
  function PairsFrom(chars: string, i: nat): Result<seq<Byte>, HexError>
    requires i <= |chars|
    decreases |chars| - i
  {
    if i == |chars| then Ok([])
    else if i + 2 > |chars| then Err(IndexPanic)
    else
      match FromRadix16(chars[i..i + 2], 0xFF)
      case None => Err(NotAByte(chars[i..i + 2]))
      case Some(b) =>
        var rest := PairsFrom(chars, i + 2);
        if rest.Err? then rest else Ok([b] + rest.value)
  }

  function ParsedHex(input: string): Result<seq<Byte>, HexError> {
    var clean := WithoutWhitespace(input);
    if clean == [] then Err(Empty)
    else if ByteLength(clean) % 2 != 0 then Err(OddLength)
    else PairsFrom(clean, 0)
  }

  method ParseHex(input: string) returns (parsed: Result<seq<Byte>, HexError>)
    ensures parsed == ParsedHex(input)
  {
    var chars := WithoutWhitespace(input);
    if chars == [] { return Err(Empty); }
    if ByteLength(chars) % 2 != 0 { return Err(OddLength); }
    var bytes: seq<Byte> := [];
    var i := 0;
    assert PairsFrom(chars, 0).Ok? ==> bytes + PairsFrom(chars, 0).value == PairsFrom(chars, 0).value;
    while i < |chars|
      invariant i <= |chars|
      invariant PairsFrom(chars, 0) == (var rest := PairsFrom(chars, i); if rest.Err? then rest else Ok(bytes + rest.value))
    {
      if i + 2 > |chars| { return Err(IndexPanic); }
      var token := chars[i..i + 2];
      var b := FromRadix16(token, 0xFF);
      if b.None? { return Err(NotAByte(token)); }
      ghost var rest := PairsFrom(chars, i + 2);
      assert rest.Ok? ==> bytes + ([b.value] + rest.value) == (bytes + [b.value]) + rest.value;
      bytes := bytes + [b.value];
      i := i + 2;
    }
    assert bytes + [] == bytes;
    return Ok(bytes);
  }

  lemma {:induction false} PairsFromFormatted(bytes: seq<Byte>, chars: string, i: nat)
    requires i <= |bytes| && |chars| == 2 * |bytes|
    requires forall k {:trigger bytes[k]} :: 0 <= k < |bytes| ==> chars[2 * k..2 * k + 2] == HexByte(bytes[k])
    ensures PairsFrom(chars, 2 * i) == Ok(bytes[i..])
    decreases |bytes| - i
  {
    if i < |bytes| {
      PairsFromFormatted(bytes, chars, i + 1);
      HexByteReads(bytes[i]);
      assert [bytes[i]] + bytes[i + 1..] == bytes[i..];
    } else {
      assert bytes[i..] == [];
    }
  }

  lemma {:induction false} FlatAt(tokens: seq<string>, i: nat)
    requires ArePairs(tokens) && i < |tokens|
    ensures |Flat(tokens)| == 2 * |tokens| && Flat(tokens)[2 * i..2 * i + 2] == tokens[i]
  {
    FlatLength(tokens);
    var earlier := tokens[..|tokens| - 1];
    FlatLength(earlier);
    if i < |earlier| {
      FlatAt(earlier, i);
      assert Flat(tokens)[2 * i..2 * i + 2] == Flat(earlier)[2 * i..2 * i + 2];
    }
  }

  /** Bytes written out and read back are the same bytes, except that no bytes read back as an empty request. */
  lemma HexRoundTrips(bytes: seq<Byte>)
    ensures ParsedHex(FormatHex(bytes)) == if bytes == [] then Err(Empty) else Ok(bytes)
  {
    hide FormatHex, WithoutWhitespace, ByteLength, Flat, HexBytes, HexByte, PairsFrom;
    FormattedIsFlat(bytes);
    FormattedPairs(bytes);
    PairsFromFormatted(bytes, Flat(HexBytes(bytes)), 0);
    assert bytes[0..] == bytes;
  }

  lemma FormattedIsFlat(bytes: seq<Byte>)
    ensures WithoutWhitespace(FormatHex(bytes)) == Flat(HexBytes(bytes))
    ensures ByteLength(Flat(HexBytes(bytes))) == |Flat(HexBytes(bytes))| == 2 * |bytes|
  {
    hide WithoutWhitespace, ByteLength, Flat, Spaced, HexByte;
    SpacedIsFlat(HexBytes(bytes));
    AsciiLength(Flat(HexBytes(bytes)), HexBytes(bytes));
    FlatLength(HexBytes(bytes));
  }

  lemma FormattedPairs(bytes: seq<Byte>)
    ensures var chars := Flat(HexBytes(bytes));
            |chars| == 2 * |bytes| && forall k {:trigger bytes[k]} :: 0 <= k < |bytes| ==> chars[2 * k..2 * k + 2] == HexByte(bytes[k])
  {
    var chars := Flat(HexBytes(bytes));
    FlatLength(HexBytes(bytes));
    hide Flat, HexByte;
    forall k {:trigger bytes[k]} | 0 <= k < |bytes| ensures chars[2 * k..2 * k + 2] == HexByte(bytes[k]) {
      FlatAt(HexBytes(bytes), k);
    }
  }

  lemma {:induction false} AsciiLength(s: string, tokens: seq<string>)
    requires s == Flat(tokens)
    requires forall k :: 0 <= k < |tokens| ==> |tokens[k]| == 2 && IsUpperDigit(tokens[k][0]) && IsUpperDigit(tokens[k][1])
    ensures ByteLength(s) == 2 * |tokens|
    decreases |tokens|
  {
    if tokens != [] {
      var earlier, last := tokens[..|tokens| - 1], tokens[|tokens| - 1];
      AsciiLength(Flat(earlier), earlier);
      assert s[..|s| - 1][..|s| - 2] == Flat(earlier);
      assert s[..|s| - 1][|s| - 2] == last[0] && s[|s| - 1] == last[1];
    }
  }

  lemma {:induction false} ByteLengthOfAscii(s: string)
    requires forall k :: 0 <= k < |s| ==> Utf8Length(s[k]) == 1
    ensures ByteLength(s) == |s|
  {
    if s != [] { ByteLengthOfAscii(s[..|s| - 1]); }
  }

  /** Reading indexes out of range exactly when an even number of bytes makes an odd number of characters and every whole pair is a byte. */
  lemma PanicsExactly(input: string)
    ensures var clean := WithoutWhitespace(input);
            ParsedHex(input) == Err(IndexPanic) <==>
            ByteLength(clean) % 2 == 0 && |clean| % 2 == 1 && forall k :: 0 <= 2 * k && 2 * k + 2 <= |clean| ==> IsHexPairAt(clean, k)
  {
    var clean := WithoutWhitespace(input);
    if clean != [] { PairsPanicExactly(clean, 0); }
  }

  /** For instance a single accented letter: two bytes, one character. */
  lemma AccentedLetterPanics()
    ensures ParsedHex("\U{E9}") == Err(IndexPanic)
  {
    var input := "\U{E9}";
    assert input[..0] == [];
    assert WithoutWhitespace(input) == input && ByteLength(input) == 2;
  }

  /** A text of one character panics exactly when UTF-8 takes two bytes for it, or four. */
  lemma LoneCharacterPanicsExactly(c: char)
    ensures Utf8Length(c) == if c as int < 128 then 1 else if c as int < 2048 then 2 else if c as int < 65536 then 3 else 4
    ensures ParsedHex([c]) == Err(IndexPanic) <==> !IsWhitespace(c) && (128 <= c as int < 2048 || 65536 <= c as int)
  {
    hide IsWhitespace;
    var input := [c];
    assert input[..0] == [];
    assert WithoutWhitespace(input) == if IsWhitespace(c) then [] else input;
    assert ByteLength(input) == Utf8Length(c);
  }

  predicate IsHexPairAt(chars: string, k: int)
    requires 0 <= 2 * k && 2 * k + 2 <= |chars|
  {
    FromRadix16(chars[2 * k..2 * k + 2], 0xFF).Some?
  }

  lemma {:induction false} PairsPanicExactly(chars: string, j: nat)
    requires 2 * j <= |chars|
    ensures PairsFrom(chars, 2 * j) == Err(IndexPanic) <==>
            |chars| % 2 == 1 && forall k :: j <= k && 2 * k + 2 <= |chars| ==> IsHexPairAt(chars, k)
    decreases |chars| - j
  {
    if 2 * j + 2 <= |chars| {
      PairsPanicExactly(chars, j + 1);
      assert IsHexPairAt(chars, j) <==> FromRadix16(chars[2 * j..2 * j + 2], 0xFF).Some?;
    }
  }

  lemma PairIsAscii(pair: string)
    requires |pair| == 2 && FromRadix16(pair, 0xFF).Some?
    ensures Utf8Length(pair[0]) == 1 && Utf8Length(pair[1]) == 1
  {
    if pair[0] == '+' {
      assert pair[1..][0] == pair[1];
      assert DigitsValue(pair[1..]).Some?;
    } else {
      assert DigitsValue(pair).Some?;
      assert DigitsValue(pair[..1]).Some? && pair[..1][0] == pair[0];
    }
  }

  lemma {:induction false} PairsReadExactly(chars: string, j: nat)
    requires 2 * j <= |chars|
    ensures PairsFrom(chars, 2 * j).Ok? <==>
            |chars| % 2 == 0 && forall k :: j <= k && 2 * k + 2 <= |chars| ==> IsHexPairAt(chars, k)
    decreases |chars| - j
  {
    if 2 * j + 2 <= |chars| {
      PairsReadExactly(chars, j + 1);
      assert IsHexPairAt(chars, j) <==> FromRadix16(chars[2 * j..2 * j + 2], 0xFF).Some?;
    }
  }

  /** Text is read exactly when, whitespace aside, it is one or more whole pairs and each of them is a byte. */
  lemma ReadsExactly(input: string)
    ensures var clean := WithoutWhitespace(input);
            ParsedHex(input).Ok? <==>
            clean != [] && |clean| % 2 == 0 && forall k :: 0 <= k && 2 * k + 2 <= |clean| ==> IsHexPairAt(clean, k)
  {
    var clean := WithoutWhitespace(input);
    PairsReadExactly(clean, 0);
    hide WithoutWhitespace, ByteLength, PairsFrom, IsHexPairAt;
    if |clean| % 2 == 0 && forall k :: 0 <= k && 2 * k + 2 <= |clean| ==> IsHexPairAt(clean, k) {
      PairsAreAscii(clean);
    }
  }

  lemma PairsAreAscii(chars: string)
    requires |chars| % 2 == 0 && forall k :: 0 <= k && 2 * k + 2 <= |chars| ==> IsHexPairAt(chars, k)
    ensures ByteLength(chars) == |chars|
  {
    hide FromRadix16, Utf8Length;
    forall i | 0 <= i < |chars| ensures Utf8Length(chars[i]) == 1 {
      var k := i / 2;
      assert IsHexPairAt(chars, k);
      PairIsAscii(chars[2 * k..2 * k + 2]);
    }
    ByteLengthOfAscii(chars);
  }
}
