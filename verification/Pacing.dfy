/**
 * How fast a sender may be told to go: separation times (ISO 15765-2 clause 9.6.5.4), and what a slow
 * serial adapter makes of them.
 */
module Pacing {
  import opened Basics

  type U32 = x: int | 0 <= x < 0x1_0000_0000

  datatype IsoTpParameters = IsoTpParameters(blockSize: Byte, separationTimeMin: Byte, padding: Option<Byte>)

  datatype EcuTiming = EcuTiming(blockSize: Byte, separationTimeMin: Byte)

  datatype LinkCapacity = LinkCapacity(linkFramesPerSecond: nat, busFramesPerSecond: nat)

  const SERIAL_BITS_PER_BYTE := 10
  const SLCAN_LINE_BYTES := 27
  const CAN_BITS_PER_FRAME := 135

  function CapacityOf(serialBaud: U32, canBitrate: U32): LinkCapacity {
    LinkCapacity(serialBaud / (SERIAL_BITS_PER_BYTE * SLCAN_LINE_BYTES), canBitrate / CAN_BITS_PER_FRAME)
  }

  /** Rounding a quotient up. */
  function DivCeil(a: nat, b: nat): (q: nat)
    requires b > 0
    ensures q * b >= a
    ensures a > 0 ==> q > 0 && (q - 1) * b < a
  {
    CeilingBounds(a, b);
    (a + b - 1) / b
  }

  lemma CeilingBounds(a: nat, b: nat)
    requires b > 0
    ensures var q := (a + b - 1) / b; q * b >= a && (a > 0 ==> q > 0 && (q - 1) * b < a)
  {
    var n := a + b - 1;
    var q, r := n / b, n % b;
    assert n == q * b + r && 0 <= r < b;
    assert (q - 1) * b == q * b - b;
    assert q == 0 ==> n == r;
  }

  /** How long a sender should be told to pause between frames, if the link is the slower side. */
  function SafeSeparationTime(capacity: LinkCapacity): Option<Byte> {
    if capacity.linkFramesPerSecond == 0 || capacity.linkFramesPerSecond >= capacity.busFramesPerSecond then None
    else
      var milliseconds := DivCeil(1000, capacity.linkFramesPerSecond);
      Some(if milliseconds + 1 < 0x7F then milliseconds + 1 else 0x7F)
  }

  /** Not a reserved value (ISO 15765-2, clause 9.6.5.4). */
  predicate IsMeaningful(separationTime: Byte) {
    separationTime <= 0x7F || 0xF1 <= separationTime <= 0xF9
  }

  /** Microseconds a separation-time byte stands for; a reserved one reads as the slowest. */
  function DecodeSeparationTime(separationTime: Byte): (microseconds: nat) {
    if separationTime <= 0x7F then separationTime * 1000
    else if 0xF1 <= separationTime <= 0xF9 then (separationTime - 0xF0) * 100
    else 0x7F * 1000
  }

  /** 0x00 to 0x7F are milliseconds, 0xF1 to 0xF9 hundreds of microseconds, and everything else is 127 milliseconds. */
  lemma SeparationTimesDecoded(separationTime: Byte)
    ensures var us := DecodeSeparationTime(separationTime);
            && (separationTime <= 127 ==> us == 1000 * separationTime)
            && (241 <= separationTime <= 249 ==> us == 100 * (separationTime - 240))
            && (127 < separationTime < 241 || 249 < separationTime ==> us == 127_000)
    ensures IsMeaningful(separationTime) <==> separationTime <= 127 || 241 <= separationTime <= 249
  {
  }

  /** A frame costs the link 27 bytes of ten bits, and the bus 135 bits. */
  lemma CapacityExactly(serialBaud: U32, canBitrate: U32)
    ensures var capacity := CapacityOf(serialBaud, canBitrate);
            && capacity.linkFramesPerSecond * 270 <= serialBaud < capacity.linkFramesPerSecond * 270 + 270
            && capacity.busFramesPerSecond * 135 <= canBitrate < capacity.busFramesPerSecond * 135 + 135
  {
  }

  /** No separation time, meaningful or reserved, is ever taken for one slower than the slowest. */
  lemma ReservedIsSlowest(separationTime: Byte, other: Byte)
    requires !IsMeaningful(separationTime)
    ensures DecodeSeparationTime(other) <= DecodeSeparationTime(separationTime)
  {
  }

  function ParametersFor(timing: EcuTiming, link: IsoTpParameters): IsoTpParameters {
    IsoTpParameters(timing.blockSize, timing.separationTimeMin, link.padding)
  }

  /** The parameters an ECU gets: its own, unless it leaves the pace open and the link cannot follow the bus. */
  function PacedForLink(timing: EcuTiming, link: IsoTpParameters, capacity: Option<LinkCapacity>): IsoTpParameters {
    var params := ParametersFor(timing, link);
    if params.blockSize != 0 || params.separationTimeMin != 0 then params
    else
      match capacity
      case None => params
      case Some(known) =>
        match SafeSeparationTime(known)
        case None => params
        case Some(needed) => params.(separationTimeMin := needed)
  }

  /**
   * The time returned is a separation time of 2 to 127 ms. It fits the link with the promised
   * millisecond to spare exactly when the link carries at least eight frames a second, and then no
   * smaller whole value would; slower links get the slowest value there is.
   */
  lemma SafeTimeIsTight(serialBaud: U32, canBitrate: U32)
    ensures var capacity := CapacityOf(serialBaud, canBitrate);
            var rate := capacity.linkFramesPerSecond;
            match SafeSeparationTime(capacity)
            case None => rate == 0 || rate >= capacity.busFramesPerSecond
            case Some(s) =>
              && 0 < rate < capacity.busFramesPerSecond
              && 2 <= s <= 127 && IsMeaningful(s)
              && ((s - 1) * rate >= 1000 <==> rate >= 8)
              && (rate >= 8 ==> (s - 2) * rate < 1000)
              && (rate < 8 ==> s == 127)
  {
    var rate := CapacityOf(serialBaud, canBitrate).linkFramesPerSecond;
    if rate > 0 {
      TightFor(rate);
    }
  }

  /** A line of 1890 baud carries seven frames a second; even the slowest separation time lets through more. */
  lemma SlowLinkDoesNotFit()
    ensures var capacity := CapacityOf(1890, 500_000);
            capacity.linkFramesPerSecond == 7 && SafeSeparationTime(capacity) == Some(127) && 127 * 7 < 1000
  {
    TightFor(7);
  }

  lemma TightFor(rate: nat)
    requires rate > 0
    ensures var ms := DivCeil(1000, rate);
            && 1 <= ms
            && (rate >= 8 ==> ms <= 125 && ms * rate >= 1000 && (ms - 1) * rate < 1000)
            && (rate < 8 ==> ms > 126 && 126 * rate < 1000)
  {
    var ms := DivCeil(1000, rate);
    if rate >= 8 {
      NotMoreThan(125, ms - 1, rate);
    } else {
      NotMoreThan(ms, 126, rate);
    }
  }

  lemma NotMoreThan(a: nat, b: nat, c: nat)
    ensures a <= b ==> a * c <= b * c
  {
    if a <= b {
      assert b * c == a * c + (b - a) * c;
    }
  }

  /** Pacing touches nothing but the separation time of an ECU that asked for no pacing on a link too slow for the bus. */
  lemma PacingObeysTheEcu(timing: EcuTiming, link: IsoTpParameters, serialBaud: U32, canBitrate: U32)
    ensures var capacity := CapacityOf(serialBaud, canBitrate);
            var paced := PacedForLink(timing, link, Some(capacity));
            var tooSlow := 0 < capacity.linkFramesPerSecond < capacity.busFramesPerSecond;
            && paced.blockSize == timing.blockSize && paced.padding == link.padding
            && (paced.separationTimeMin != timing.separationTimeMin <==> timing == EcuTiming(0, 0) && tooSlow)
            && (IsMeaningful(timing.separationTimeMin) <==> IsMeaningful(paced.separationTimeMin))
            && (timing == EcuTiming(0, 0) && tooSlow && capacity.linkFramesPerSecond >= 8 ==>
                  DecodeSeparationTime(paced.separationTimeMin) * capacity.linkFramesPerSecond
                  >= 1_000_000 + 1000 * capacity.linkFramesPerSecond)
    ensures PacedForLink(timing, link, None) == ParametersFor(timing, link)
  {
    SafeTimeIsTight(serialBaud, canBitrate);
    var capacity := CapacityOf(serialBaud, canBitrate);
    var rate := capacity.linkFramesPerSecond;
    if timing == EcuTiming(0, 0) && 8 <= rate < capacity.busFramesPerSecond {
      var s := SafeSeparationTime(capacity).value;
      assert (s - 1) * rate == s * rate - rate;
      assert DecodeSeparationTime(s) * rate == 1000 * (s * rate);
    }
  }
}
