/** CAN frames and how many bits they occupy on the wire (ISO 11898-1 clause 10.4). */
module CanFrames {
  import opened Basics

  const STANDARD_OVERHEAD_BITS := 47
  const EXTENDED_OVERHEAD_BITS := 67
  const UNSTUFFED_TRAILER_BITS := 13

  type CanId = x: int | 0 <= x < 0x1_0000_0000

  datatype CanFrame = CanFrame(timestamp: real, canId: CanId, isExtended: bool, data: seq<Byte>, isRemote: bool, remoteLength: nat) {

    function BitsOnWire(): (bits: nat) {
      (if isExtended then EXTENDED_OVERHEAD_BITS else STANDARD_OVERHEAD_BITS) + (if isRemote then 0 else |data| * 8)
    }

    /** One stuff bit at worst per four bits before the fixed-form trailer. */
    function MaxStuffBits(): nat {
      var stuffable := if BitsOnWire() >= UNSTUFFED_TRAILER_BITS then BitsOnWire() - UNSTUFFED_TRAILER_BITS else 0;
      stuffable / 4
    }
  }

  function NewClassic(timestamp: real, canId: CanId, data: seq<Byte>): CanFrame {
    CanFrame(timestamp, canId, canId > 0x7FF, data, false, 0)
  }

  /** The protocol control information says flow control. */
  predicate IsFlowControl(frame: CanFrame) {
    frame.data != [] && frame.data[0] / 16 == 3
  }

  /**
   * A data frame takes 47 bits and its data, or 67 with an extended identifier, a remote frame no data;
   * stuffing costs one bit for every whole four before the 13 of the trailer.
   */
  lemma FrameLengths(frame: CanFrame)
    ensures var bits := frame.BitsOnWire();
            && bits == (if frame.isExtended then 67 else 47) + (if frame.isRemote then 0 else 8 * |frame.data|)
            && 4 * frame.MaxStuffBits() <= bits - 13 < 4 * frame.MaxStuffBits() + 4
  {
  }

  /** A frame is extended exactly when its identifier needs more than eleven bits. */
  lemma ExtendedBeyondElevenBits(timestamp: real, canId: CanId, data: seq<Byte>)
    ensures var frame := NewClassic(timestamp, canId, data);
            && (frame.isExtended <==> canId >= 2048) && !frame.isRemote && frame.remoteLength == 0
            && frame.canId == canId && frame.data == data && frame.timestamp == timestamp
  {
  }

  /** Stuffing never costs more than a quarter of the frame. */
  lemma StuffingIsAtMostAQuarter(frame: CanFrame)
    ensures 47 <= frame.BitsOnWire()
    ensures 4 * (frame.BitsOnWire() + frame.MaxStuffBits()) <= 5 * frame.BitsOnWire()
  {
  }
}
