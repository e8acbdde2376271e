/**
 * `_set_dio_delay`: a DIO delay of 0..6 sample clocks is realised by
 * delaying either the strobe bit (delays 4..6) or the data bits (delays
 * 0..2) by up to three clocks; delay 3 delays nothing.  The device writes
 * are returned as a list of (bit, delay value) pairs, one per DIO bit.
 */
module DioDelay {

  import opened DioBits

  /** The largest delay the sweep uses; larger requests are clamped to it. */
  const MaxDelay: int := 6

  /** The delay at which neither the strobe nor the data is delayed. */
  const NeutralDelay: int := 3

  /** The number of DIO bits whose delay is programmed. */
  const DioBitCount: nat := 32

  /** The per-bit delays: one for the strobe bit, one for the data bits. */
  datatype DelaySplit = DelaySplit(strobe: int, data: int)

  /** One device write: the delay value programmed for one DIO bit. */
  datatype DelayWrite = DelayWrite(bit: nat, value: int)

  /** The split the source computes: a delay above 6 becomes 6, a negative one is kept. */
  function SplitDelayAsWritten(delay: int): DelaySplit
  {
    var d := if delay > MaxDelay then MaxDelay else delay;
    if d > NeutralDelay then DelaySplit(d - NeutralDelay, 0) else DelaySplit(0, NeutralDelay - d)
  }

  /** A requested delay brought into 0..6, as the source's two warnings announce. */
  function ClampDelay(delay: int): (r: int)
    ensures 0 <= r <= MaxDelay
    ensures 0 <= delay <= MaxDelay ==> r == delay
  {
    if delay < 0 then 0 else if delay > MaxDelay then MaxDelay else delay
  }

  /** The split of the clamped delay: the strobe leads or lags the data by delay - 3. */
  function SplitDelay(delay: int): (r: DelaySplit)
    ensures 0 <= r.strobe <= 3 && 0 <= r.data <= 3
    ensures r.strobe == 0 || r.data == 0
    ensures r.strobe - r.data == ClampDelay(delay) - NeutralDelay
  {
    var d := ClampDelay(delay);
    if d > NeutralDelay then DelaySplit(d - NeutralDelay, 0) else DelaySplit(0, NeutralDelay - d)
  }

  /** The split is the only pair of delays in 0..3, one of them 0, with that difference. */
  lemma SplitDelayUnique(delay: int, s: DelaySplit)
    requires 0 <= s.strobe <= 3 && 0 <= s.data <= 3 && (s.strobe == 0 || s.data == 0)
    requires s.strobe - s.data == ClampDelay(delay) - NeutralDelay
    ensures SplitDelay(delay) == s
  {
  }

  /** Both splits agree on every delay that is not negative, which is all the sweep requests. */
  lemma AsWrittenAgreesOnNonNegative(delay: int)
    requires delay >= 0
    ensures SplitDelayAsWritten(delay) == SplitDelay(delay)
  {
  }

  /**
   * The source warns that it clamps a negative delay to 0 but does not: -1
   * delays the data bits by 4 clocks, outside the range 0..3 of a single
   * part, where clamping gives the 3 clocks of delay 0.
   */
  lemma NegativeDelayNotClamped()
    ensures SplitDelayAsWritten(-1) == DelaySplit(0, 4)
    ensures SplitDelay(-1) == DelaySplit(0, 3) == SplitDelay(0)
  {
  }

  /** The delay programmed for DIO bit i: the strobe part takes precedence over the data part. */
  function BitDelay(strbMask: Word, dataMask: Word, split: DelaySplit, i: nat): int
  {
    if AnySet(strbMask, Bit(i)) then split.strobe
    else if AnySet(dataMask, Bit(i)) then split.data
    else 0
  }

  /** The writes of `_set_dio_delay`: bits 0..31 in order, each with its delay. */
  function DelayWrites(strbMask: Word, dataMask: Word, delay: int): seq<DelayWrite>
  {
    seq(DioBitCount, i requires 0 <= i < DioBitCount =>
      DelayWrite(i, BitDelay(strbMask, dataMask, SplitDelay(delay), i)))
  }

  /** `_set_dio_delay`: clamp and split the delay, then program all 32 bits. */
  method SetDioDelay(strbMask: Word, dataMask: Word, delay: int) returns (writes: seq<DelayWrite>)
    ensures writes == DelayWrites(strbMask, dataMask, delay)
  {
    var d := delay;
    if d < 0 {
      d := 0;
    }
    if d > MaxDelay {
      d := MaxDelay;
    }
    var strbDelay, dataDelay := 0, 0;
    if d > NeutralDelay {
      strbDelay := d - NeutralDelay;
    } else {
      dataDelay := NeutralDelay - d;
    }
    writes := [];
    for i := 0 to DioBitCount
      invariant |writes| == i
      invariant forall k :: 0 <= k < i ==> writes[k] == DelayWrites(strbMask, dataMask, delay)[k]
    {
      if AnySet(strbMask, Bit(i)) {
        writes := writes + [DelayWrite(i, strbDelay)];
      } else if AnySet(dataMask, Bit(i)) {
        writes := writes + [DelayWrite(i, dataDelay)];
      } else {
        writes := writes + [DelayWrite(i, 0)];
      }
    }
  }

  /**
   * Relative to every data bit that is not also the strobe, the strobe bit is
   * delayed by exactly (clamped delay - 3) clocks; every programmed value lies
   * in 0..3, and bits outside both masks are not delayed.
   */
  lemma DelayWritesTiming(strbMask: Word, dataMask: Word, delay: int, i: nat, j: nat)
    requires i < DioBitCount && j < DioBitCount
    requires AnySet(strbMask, Bit(i))
    requires !AnySet(strbMask, Bit(j)) && AnySet(dataMask, Bit(j))
    ensures DelayWrites(strbMask, dataMask, delay)[i].value
            - DelayWrites(strbMask, dataMask, delay)[j].value == ClampDelay(delay) - NeutralDelay
  {
  }

  /** Every write names its own bit and a value in 0..3; unmasked bits get 0. */
  lemma DelayWritesRange(strbMask: Word, dataMask: Word, delay: int, i: nat)
    requires i < DioBitCount
    ensures DelayWrites(strbMask, dataMask, delay)[i].bit == i
    ensures 0 <= DelayWrites(strbMask, dataMask, delay)[i].value <= 3
    ensures !AnySet(strbMask, Bit(i)) && !AnySet(dataMask, Bit(i)) ==>
              DelayWrites(strbMask, dataMask, delay)[i].value == 0
  {
  }
}
