/**
 * `calcNumberLostPacket` of the example application (and the identical copy
 * its unit test exercises): the first byte of each notification is an 8-bit
 * sequence number, and the gap to the previous one is the number of packets
 * lost in between.
 */
module LostPackets {
  import opened Wrappers
  import opened JavaTypes
  import ByteUtils

  /**
   * `calcNumberLostPacket(currentIndex, packet)` in 32-bit `int` arithmetic:
   * 0 for an empty packet; otherwise, with `newIndex` the first byte read
   * unsigned, `newIndex - currentIndex + 255` when the index went down,
   * `newIndex - currentIndex - 1` when it went up, 0 when it is unchanged.
   * A `null` packet throws.
   */
  function CalcNumberLostPacket(currentIndex: Int32, packet: ByteUtils.ByteArray): (r: Result<Int32, JavaException>)
    ensures packet.None? <==> r == Failure(NullPointer)
    ensures packet == Some([]) ==> r == Success(0)
    ensures packet.Some? && |packet.value| > 0 && 0 <= currentIndex <= 255 ==>
              r.Success? && 0 <= r.value <= 254
  {
    match packet
    case None => Failure(NullPointer)
    case Some(p) =>
      if |p| == 0 then Success(0)
      else
        var newIndex := p[0];
        if newIndex < currentIndex then Success(Wrap32(newIndex - currentIndex + 255))
        else if newIndex > currentIndex then Success(Wrap32(newIndex - currentIndex - 1))
        else Success(0)
  }

  /**
   * For sequence numbers that wrap from 255 to 0, the result is the number of
   * indices strictly between the two, counted modulo 256; a repeated index
   * counts as no loss.
   */
  lemma LossIsModularGap(currentIndex: Int32, b: Byte, rest: ByteUtils.Bytes)
    requires 0 <= currentIndex <= 255
    ensures var r := CalcNumberLostPacket(currentIndex, Some([b] + rest));
            r.Success? &&
            (b == currentIndex ==> r.value == 0) &&
            (b != currentIndex ==> r.value == (b - currentIndex - 1) % 256)
  {
  }

  /** Only the first byte matters. */
  lemma LossReadsFirstByteOnly(currentIndex: Int32, b: Byte, rest1: ByteUtils.Bytes, rest2: ByteUtils.Bytes)
    ensures CalcNumberLostPacket(currentIndex, Some([b] + rest1)) == CalcNumberLostPacket(currentIndex, Some([b] + rest2))
  {
    assert ([b] + rest1)[0] == ([b] + rest2)[0];
  }

  /**
   * Consecutive indices lose nothing, including across the wrap from 255 to 0,
   * and a step of `k + 1` loses `k`.
   */
  lemma ConsecutiveLosesNothing(currentIndex: Int32, k: nat)
    requires 0 <= currentIndex <= 255 && k <= 254
    ensures CalcNumberLostPacket(currentIndex, Some([((currentIndex + 1 + k) % 256) as Byte])) == Success(k)
  {
    LossIsModularGap(currentIndex, ((currentIndex + 1 + k) % 256) as Byte, []);
    assert [((currentIndex + 1 + k) % 256) as Byte] + [] == [((currentIndex + 1 + k) % 256) as Byte];
  }

  /** The samples of `ExampleUnitTest`, with the results its copy of the function yields. */
  lemma UnitTestSamples()
    ensures CalcNumberLostPacket(0, Some([0])) == Success(0)
    ensures CalcNumberLostPacket(0, Some([])) == Success(0)
    ensures CalcNumberLostPacket(0xff, Some([0])) == Success(0)
    ensures CalcNumberLostPacket(0xfe, Some([1])) == Success(2)
    ensures CalcNumberLostPacket(0, Some([1])) == Success(0)
    ensures CalcNumberLostPacket(0, Some([2])) == Success(1)
    ensures CalcNumberLostPacket(0, Some([4])) == Success(3)
    ensures CalcNumberLostPacket(0xfa, Some([1])) == Success(6)
  {
  }

  /**
   * Outside the byte range `currentIndex` takes the `int` arithmetic to its
   * limits: from `Integer.MIN_VALUE` every new index above 0 wraps to a
   * negative count.
   */
  lemma MinValueIndexWraps(b: Byte)
    requires b > 0
    ensures var r := CalcNumberLostPacket(INT_MIN, Some([b]));
            r.Success? && r.value < 0
  {
  }
}
