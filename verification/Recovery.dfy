/** Demodulating a modulated message gives it back. */
module Recovery {
  import opened Common
  import opened Bits
  import opened Slicer
  import opened Ppm
  import opened Scoring

  lemma BitOfByte(msg: seq<bv8>, k: nat, j: nat)
    requires k < |msg| && j < 8
    ensures ToBits(msg)[8 * k + j] == BitAt(msg[k], j)
  {
    hide BitAt;
    assert (8 * k + j) / 8 == k && (8 * k + j) % 8 == j;
  }

  lemma ByteRecovered(mag: seq<u16>, s: Signal, noise: real, msg: seq<bv8>, k: nat)
    requires s.Valid() && s.bits == ToBits(msg)
    requires Bearable(s.amplitude, noise) && Received(mag, s, noise)
    requires k < |msg| && Holds(mag, s.start, k)
    ensures SlicedByte(mag, s.start + 96 * k) == msg[k]
  {
    hide BitAt, SlicedByte, ToBits, Received, Bearable, Decision;
    var t := s.start + 96 * k;
    forall j | 0 <= j < 8
      ensures ByteBits(SlicedByte(mag, t))[j] == ByteBits(msg[k])[j]
    {
      GuardReadable(mag, t, j);
      assert t + 12 * j == s.start + 12 * (8 * k + j);
      BitOfReceived(mag, s, noise, 8 * k + j);
      BitRecovered(mag, s, noise, 8 * k + j);
      SlicedBit(mag, t, j);
      BitOfByte(msg, k, j);
    }
    ByteExtensional(SlicedByte(mag, t), msg[k]);
  }

  /**
    * Every message of a length that fits its format comes back exactly, from any preamble position and phase, as long
    * as the buffer holds its last byte and no sample is off by more than 38/41 of a tick's amplitude.
    */
  lemma ModulatedMessageRecovered(rx: Receiver, mag: seq<u16>, s: Signal, noise: real, msg: seq<bv8>, tryPhase: nat,
                                  pa: nat)
    requires s.Valid() && s.bits == ToBits(msg) && s.start == StartTick(tryPhase, pa)
    requires Bearable(s.amplitude, noise) && Received(mag, s, noise)
    requires WellFormed(msg) && Holds(mag, s.start, |msg| - 1)
    ensures PhaseResult(rx, tryPhase, mag, pa) == Some(Scored(ScoreModesMessage(rx, msg, 8 * |msg|), msg))
    ensures ScoreModesMessage(rx, msg, 8 * |msg|) >= 0
  {
    hide SlicedByte, ScoreModesMessage, MessageLength, Received, Bearable, ToBits;
    forall k | 0 <= k < |msg|
      ensures SlicedBytes(mag, s.start, |msg|)[k] == msg[k]
    {
      HoldsBefore(mag, s.start, k, |msg| - 1);
      ByteRecovered(mag, s, noise, msg, k);
    }
    assert SlicedBytes(mag, s.start, |msg|) == msg;
    HoldsBefore(mag, s.start, 0, |msg| - 1);
    ByteRecovered(mag, s, noise, msg, 0);
  }
}
