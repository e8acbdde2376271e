/**
 * `_analyze_dio_data`: decoding a captured train of DIO samples into the
 * codewords the AWG would latch and the sample positions where the strobe
 * edge coincides with a change of the valid bit or of a codeword bit.
 */
module DioAnalysis {

  import opened DioBits

  /**
   * The DIO protocol settings of one AWG, as `_find_valid_delays` reads them
   * from the device: strobe and valid masks (one bit each), strobe slope
   * (0 every sample, 1 rising, 2 falling, otherwise both edges), valid
   * polarity (0 none, 1 active low, 2 active high, 3 always), and the
   * codeword mask applied after shifting right by `cwShift`.
   */
  datatype DioConfig = DioConfig(
    strbMask: Word, strbSlope: int,
    vldMask: Word, vldPolarity: int,
    cwMask: Word, cwShift: nat)

  /** Whether the strobe edge selected by the slope occurs between two samples. */
  function StrobeEvent(d: Word, last: Word, c: DioConfig): (r: bool)
    ensures c.strbSlope == 0 ==> r
    ensures c.strbSlope == 1 ==> (r <==> AnyRose(d, last, c.strbMask))
    ensures c.strbSlope == 2 ==> (r <==> AnyFell(d, last, c.strbMask))
    ensures c.strbSlope !in {0, 1, 2} ==> (r <==> AnyChanged(d, last, c.strbMask))
  {
    if c.strbSlope == 0 then true
    else if c.strbSlope == 1 then
      RisingIffRose(d, last, c.strbMask);
      GetEdges(d, last, c.strbMask).rising != 0
    else if c.strbSlope == 2 then
      FallingIffFell(d, last, c.strbMask);
      GetEdges(d, last, c.strbMask).falling != 0
    else
      var e := GetEdges(d, last, c.strbMask);
      EdgeIffChange(d, last, c.strbMask);
      e.rising != 0 || e.falling != 0
  }

  /** An edge of the valid bit, looked for only when a valid polarity is configured. */
  function ValidEdge(d: Word, last: Word, c: DioConfig): (r: bool)
    ensures r <==> c.vldPolarity != 0 && AnyChanged(d, last, c.vldMask)
  {
    if c.vldPolarity != 0 then
      var e := GetEdges(d, last, c.vldMask);
      EdgeIffChange(d, last, c.vldMask);
      e.rising != 0 || e.falling != 0
    else false
  }

  /** An edge of a codeword bit, looked for only when the codeword mask is not 0. */
  function CodewordEdge(d: Word, last: Word, c: DioConfig): (r: bool)
    ensures r <==> c.cwMask != 0 && AnyChanged(d, last, ShiftLeft(c.cwMask, c.cwShift))
  {
    if c.cwMask != 0 then
      var e := GetEdges(d, last, ShiftLeft(c.cwMask, c.cwShift));
      EdgeIffChange(d, last, ShiftLeft(c.cwMask, c.cwShift));
      e.rising != 0 || e.falling != 0
    else false
  }

  /** Whether the valid bit of a sample is active under the configured polarity. */
  function ValidActive(d: Word, c: DioConfig): (r: bool)
    ensures c.vldPolarity == 0 ==> !r
    ensures c.vldPolarity == 1 ==> (r <==> !AnySet(d, c.vldMask))
    ensures c.vldPolarity == 2 ==> (r <==> AnySet(d, c.vldMask))
    ensures c.vldPolarity == 3 ==> r
  {
    // bit 0 of the polarity selects "active low", bit 1 "active high"
    (c.vldPolarity % 2 == 1 && !AnySet(d, c.vldMask))
    || ((c.vldPolarity / 2) % 2 == 1 && AnySet(d, c.vldMask))
  }

  /** The codeword carried by a sample: `(d >> cw_shift) & cw_mask`. */
  function Codeword(d: Word, c: DioConfig): (r: Word)
    ensures InMask(r, c.cwMask)
  {
    ShiftRight(d, c.cwShift) & c.cwMask
  }

  /** A timing violation at sample n: the strobe edge meets a valid or codeword edge. */
  predicate IsViolation(data: seq<Word>, c: DioConfig, n: nat)
    requires 1 <= n < |data|
  {
    StrobeEvent(data[n], data[n - 1], c)
    && (ValidEdge(data[n], data[n - 1], c) || CodewordEdge(data[n], data[n - 1], c))
  }

  /** Sample n is latched as a codeword: a strobe event while the valid bit is active. */
  predicate IsLatched(data: seq<Word>, c: DioConfig, n: nat)
    requires 1 <= n < |data|
  {
    StrobeEvent(data[n], data[n - 1], c) && ValidActive(data[n], c)
  }

  /** Positions below n that are timing violations, in increasing order. */
  function Violations(data: seq<Word>, c: DioConfig, n: nat): seq<nat>
    requires n <= |data|
  {
    if n <= 1 then []
    else Violations(data, c, n - 1) + (if IsViolation(data, c, n - 1) then [n - 1] else [])
  }

  /** Positions below n whose sample is latched as a codeword, in increasing order. */
  function LatchedPositions(data: seq<Word>, c: DioConfig, n: nat): seq<nat>
    requires n <= |data|
  {
    if n <= 1 then []
    else LatchedPositions(data, c, n - 1) + (if IsLatched(data, c, n - 1) then [n - 1] else [])
  }

  /** The codewords latched from the samples below n, in sampling order. */
  function Codewords(data: seq<Word>, c: DioConfig, n: nat): seq<Word>
    requires n <= |data|
  {
    if n <= 1 then []
    else Codewords(data, c, n - 1)
         + (if IsLatched(data, c, n - 1) then [Codeword(data[n - 1], c)] else [])
  }

  /**
   * `_analyze_dio_data`: one pass over the samples, comparing each with its
   * predecessor; sample 0 only provides the first predecessor.
   */
  method AnalyzeDioData(data: seq<Word>, c: DioConfig)
    returns (codewords: seq<Word>, timingViolations: seq<nat>)
    ensures codewords == Codewords(data, c, |data|)
    ensures timingViolations == Violations(data, c, |data|)
  {
    codewords, timingViolations := [], [];
    var lastD: Word := 0;
    for n := 0 to |data|
      invariant codewords == Codewords(data, c, n)
      invariant timingViolations == Violations(data, c, n)
      invariant 0 < n ==> lastD == data[n - 1]
    {
      var d := data[n];
      if n > 0 {
        var strobe := StrobeEvent(d, lastD, c);
        var validEdge := ValidEdge(d, lastD, c);
        var codewordEdge := CodewordEdge(d, lastD, c);
        if strobe && validEdge {
          timingViolations := timingViolations + [n];
        } else if strobe && codewordEdge {
          timingViolations := timingViolations + [n];
        }
        if strobe && ValidActive(d, c) {
          codewords := codewords + [Codeword(d, c)];
        }
      }
      lastD := d;
    }
  }

  /**
   * The violations are exactly the positions 1..n-1 where the strobe edge
   * coincides with a valid or codeword edge, listed once each in increasing
   * order; sample 0 is never examined.
   */
  lemma {:induction false} ViolationsExactly(data: seq<Word>, c: DioConfig, n: nat)
    requires n <= |data|
    ensures forall k :: 0 <= k < |Violations(data, c, n)| ==> 1 <= Violations(data, c, n)[k] < n
    ensures forall k, l :: 0 <= k < l < |Violations(data, c, n)|
              ==> Violations(data, c, n)[k] < Violations(data, c, n)[l]
    ensures forall m :: 1 <= m < n ==> (m in Violations(data, c, n) <==> IsViolation(data, c, m))
  {
    if n > 1 {
      ViolationsExactly(data, c, n - 1);
    }
  }

  /** The latched positions are exactly the positions 1..n-1 of latched samples, increasing. */
  lemma {:induction false} LatchedPositionsExactly(data: seq<Word>, c: DioConfig, n: nat)
    requires n <= |data|
    ensures forall k :: 0 <= k < |LatchedPositions(data, c, n)| ==> 1 <= LatchedPositions(data, c, n)[k] < n
    ensures forall k, l :: 0 <= k < l < |LatchedPositions(data, c, n)|
              ==> LatchedPositions(data, c, n)[k] < LatchedPositions(data, c, n)[l]
    ensures forall m :: 1 <= m < n ==> (m in LatchedPositions(data, c, n) <==> IsLatched(data, c, m))
  {
    if n > 1 {
      LatchedPositionsExactly(data, c, n - 1);
    }
  }

  /** The k-th codeword is the codeword of the sample at the k-th latched position. */
  lemma {:induction false} CodewordsAtLatchedPositions(data: seq<Word>, c: DioConfig, n: nat)
    requires n <= |data|
    ensures |Codewords(data, c, n)| == |LatchedPositions(data, c, n)|
    ensures forall k :: 0 <= k < |Codewords(data, c, n)| ==>
              LatchedPositions(data, c, n)[k] < |data| &&
              Codewords(data, c, n)[k] == Codeword(data[LatchedPositions(data, c, n)[k]], c)
  {
    if n > 1 {
      CodewordsAtLatchedPositions(data, c, n - 1);
      LatchedPositionsExactly(data, c, n - 1);
    }
  }

  /**
   * Every codeword uses only bits of the codeword mask, and at most one is
   * latched per sample after the first.
   */
  lemma {:induction false} CodewordsBounded(data: seq<Word>, c: DioConfig, n: nat)
    requires 0 < n <= |data|
    ensures forall k :: 0 <= k < |Codewords(data, c, n)| ==> InMask(Codewords(data, c, n)[k], c.cwMask)
    ensures |Codewords(data, c, n)| <= n - 1
  {
    if n > 1 {
      CodewordsBounded(data, c, n - 1);
    }
  }

  /** Every codeword, read as a number, is at most the codeword mask. */
  lemma CodewordsAtMostMask(data: seq<Word>, c: DioConfig, n: nat)
    requires 0 < n <= |data|
    ensures forall k :: 0 <= k < |Codewords(data, c, n)| ==> Codewords(data, c, n)[k] <= c.cwMask
  {
    CodewordsBounded(data, c, n);
    AllInMaskBounded(Codewords(data, c, n), c.cwMask);
  }

  /** With valid polarity 0 nothing is ever latched. */
  lemma {:induction false} NoCodewordsWithoutValidPolarity(data: seq<Word>, c: DioConfig, n: nat)
    requires n <= |data| && c.vldPolarity == 0
    ensures Codewords(data, c, n) == []
  {
    if n > 1 {
      NoCodewordsWithoutValidPolarity(data, c, n - 1);
    }
  }

  /**
   * With strobe slope 0 every sample after the first is a strobe event, so
   * with valid polarity 3 every one of them is latched.
   */
  lemma {:induction false} FreeRunningLatchesEverySample(data: seq<Word>, c: DioConfig, n: nat)
    requires 0 < n <= |data| && c.strbSlope == 0 && c.vldPolarity == 3
    ensures Codewords(data, c, n) == seq(n - 1, k requires 0 <= k < n - 1 => Codeword(data[k + 1], c))
  {
    if n > 1 {
      FreeRunningLatchesEverySample(data, c, n - 1);
    }
  }

  /**
   * With strobe slope 0 a violation is recorded at every sample where the
   * valid bit (if used) or a codeword bit (if used) changes.
   */
  lemma {:induction false} FreeRunningViolations(data: seq<Word>, c: DioConfig, n: nat)
    requires n <= |data| && c.strbSlope == 0
    ensures forall m :: 1 <= m < n ==>
              (m in Violations(data, c, n) <==>
                 (c.vldPolarity != 0 && AnyChanged(data[m], data[m - 1], c.vldMask))
                 || (c.cwMask != 0 && AnyChanged(data[m], data[m - 1], ShiftLeft(c.cwMask, c.cwShift))))
  {
    ViolationsExactly(data, c, n);
  }
}
