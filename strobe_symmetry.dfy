/**
 * `_is_dio_strb_symmetric`: whether the strobe bits toggle with equal high
 * and low times in a captured train of DIO samples.
 *
 * The source counts run lengths with flags and counters.  The reference
 * definition here speaks of edges instead: a run is the stretch from one
 * edge of the strobe bit to the next, and the capture is rejected at the
 * first edge that ends a run whose length differs from that of the run
 * before it, provided that earlier run was itself bounded by an edge on
 * both sides and was longer than one sample (a one-sample run leaves the
 * source's counter at 0, which the source reads as "nothing to compare").
 */
module StrobeSymmetry {

  import opened DioBits
  import opened Wrappers

  /** The strobe level toggles between samples n-1 and n. */
  predicate IsEdge(data: seq<Word>, m: Word, n: nat)
  {
    1 <= n < |data| && AnySet(data[n], m) != AnySet(data[n - 1], m)
  }

  /** The latest edge strictly before position n, if any. */
  function LastEdge(data: seq<Word>, m: Word, n: nat): (r: Option<nat>)
    requires n <= |data|
    ensures r.Some? ==> r.value < n && IsEdge(data, m, r.value)
    ensures r.Some? ==> forall k :: r.value < k < n ==> !IsEdge(data, m, k)
    ensures r.None? ==> forall k :: 0 <= k < n ==> !IsEdge(data, m, k)
  {
    if n == 0 then None
    else if IsEdge(data, m, n - 1) then Some(n - 1)
    else LastEdge(data, m, n - 1)
  }

  /**
   * The edge at e3 ends a run whose length differs from the preceding run,
   * which is bounded by edges and is longer than one sample.
   */
  predicate RunMismatchAt(data: seq<Word>, m: Word, e3: nat)
    requires e3 < |data|
  {
    IsEdge(data, m, e3) &&
    match LastEdge(data, m, e3)
    case None => false
    case Some(e2) =>
      match LastEdge(data, m, e2)
      case None => false
      case Some(e1) => e2 - e1 > 1 && e3 - e2 != e2 - e1
  }

  /** Some edge before position n ends a mismatching run. */
  predicate AsymmetricBefore(data: seq<Word>, m: Word, n: nat)
    requires n <= |data|
  {
    n > 0 && (AsymmetricBefore(data, m, n - 1) || RunMismatchAt(data, m, n - 1))
  }

  /** The capture is accepted for the strobe bit with index `bit`. */
  predicate BitSymmetric(data: seq<Word>, bit: nat)
  {
    !AsymmetricBefore(data, Bit(bit), |data|)
  }

  /** The capture is accepted for every listed strobe bit. */
  predicate Symmetric(data: seq<Word>, bits: seq<nat>)
  {
    forall i :: 0 <= i < |bits| ==> BitSymmetric(data, bits[i])
  }

  /** The counter the source keeps for the run that ended at edge e. */
  function PrevRunCount(data: seq<Word>, m: Word, e: nat): int
    requires e < |data|
  {
    match LastEdge(data, m, e)
    case None => 0
    case Some(e1) => e - 1 - e1
  }

  /**
   * The flags and counters of the source after it has looked at the samples
   * before n: nothing is counted before the first edge; afterwards the flag
   * of the current level is set, its counter holds the samples seen since the
   * last edge, and the other counter holds the length of the run before
   * (minus one, as the source counts).
   */
  ghost predicate ScanState(data: seq<Word>, m: Word, n: nat,
                            countHigh: bool, countLow: bool, strobeHigh: int, strobeLow: int)
    requires n <= |data|
  {
    match LastEdge(data, m, n)
    case None => !countHigh && !countLow && strobeHigh == 0 && strobeLow == 0
    case Some(e) =>
      if AnySet(data[e], m) then
        countHigh && !countLow && strobeHigh == n - 1 - e && strobeLow == PrevRunCount(data, m, e)
      else
        countLow && !countHigh && strobeLow == n - 1 - e && strobeHigh == PrevRunCount(data, m, e)
  }

  /** Without an edge in between, the level at n-1 is the level at e. */
  lemma {:induction false} SameLevelSince(data: seq<Word>, m: Word, e: nat, n: nat)
    requires e < n <= |data|
    requires forall k :: e < k < n ==> !IsEdge(data, m, k)
    ensures AnySet(data[n - 1], m) == AnySet(data[e], m)
  {
    if n - 1 > e {
      SameLevelSince(data, m, e, n - 1);
      assert !IsEdge(data, m, n - 1);
    }
  }

  /** Once a mismatch has been seen it stays seen. */
  lemma {:induction false} AsymmetricMonotone(data: seq<Word>, m: Word, n: nat, n': nat)
    requires n <= n' <= |data| && AsymmetricBefore(data, m, n)
    ensures AsymmetricBefore(data, m, n')
  {
    if n < n' {
      AsymmetricMonotone(data, m, n, n' - 1);
    }
  }

  /** How the reference definitions move from position n to n + 1. */
  lemma ScanFacts(data: seq<Word>, m: Word, n: nat)
    requires n < |data|
    ensures LastEdge(data, m, n + 1) == if IsEdge(data, m, n) then Some(n) else LastEdge(data, m, n)
    ensures AsymmetricBefore(data, m, n + 1) == (AsymmetricBefore(data, m, n) || RunMismatchAt(data, m, n))
    ensures LastEdge(data, m, n).Some? ==>
              AnySet(data[n - 1], m) == AnySet(data[LastEdge(data, m, n).value], m)
    ensures IsEdge(data, m, n) ==>
              PrevRunCount(data, m, n) == match LastEdge(data, m, n) case None => 0 case Some(e) => n - 1 - e
  {
    if LastEdge(data, m, n).Some? {
      SameLevelSince(data, m, LastEdge(data, m, n).value, n);
    }
  }

  /** A mismatch at the edge n makes the whole capture asymmetric for that bit. */
  lemma MismatchFound(data: seq<Word>, m: Word, n: nat)
    requires n < |data| && RunMismatchAt(data, m, n)
    ensures AsymmetricBefore(data, m, |data|)
  {
    AsymmetricMonotone(data, m, n + 1, |data|);
  }

  /**
   * `_is_dio_strb_symmetric`: the strobe bits are examined in turn and the
   * first rejected one ends the search.
   */
  method IsDioStrbSymmetric(data: seq<Word>, bits: seq<nat>) returns (countOk: bool)
    ensures countOk == Symmetric(data, bits)
  {
    countOk := true;
    for i := 0 to |bits|
      invariant countOk
      invariant forall j :: 0 <= j < i ==> BitSymmetric(data, bits[j])
    {
      countOk := ScanStrobeBit(data, bits[i]);
      if !countOk {
        break;
      }
    }
  }

  /**
   * The inner loop of `_is_dio_strb_symmetric` for one strobe bit: its flags
   * and run counters, and the early exit at the first mismatch.
   */
  method ScanStrobeBit(data: seq<Word>, bit: nat) returns (countOk: bool)
    ensures countOk == BitSymmetric(data, bit)
  {
    countOk := true;
    var strobeMask := Bit(bit);
    var countLow, countHigh := false, false;
    var strobeLow, strobeHigh := 0, 0;
    var lastStrobe: Option<bool> := None;
    for n := 0 to |data|
      invariant countOk
      invariant !AsymmetricBefore(data, strobeMask, n)
      invariant lastStrobe == if n == 0 then None else Some(AnySet(data[n - 1], strobeMask))
      invariant ScanState(data, strobeMask, n, countHigh, countLow, strobeHigh, strobeLow)
    {
      ScanFacts(data, strobeMask, n);
      var currStrobe := AnySet(data[n], strobeMask);
      if countHigh {
        if currStrobe {
          strobeHigh := strobeHigh + 1;
        } else if strobeLow > 0 && strobeLow != strobeHigh {
          countOk := false;
          MismatchFound(data, strobeMask, n);
          break;
        }
      }
      if countLow {
        if !currStrobe {
          strobeLow := strobeLow + 1;
        } else if strobeHigh > 0 && strobeLow != strobeHigh {
          countOk := false;
          MismatchFound(data, strobeMask, n);
          break;
        }
      }
      if lastStrobe.Some? {
        if currStrobe && !lastStrobe.value {
          strobeHigh := 0;
          countHigh := true;
          countLow := false;
        } else if !currStrobe && lastStrobe.value {
          strobeLow := 0;
          countLow := true;
          countHigh := false;
        }
      }
      lastStrobe := Some(currStrobe);
    }
  }

  /** An edge at b whose previous edge is a. */
  predicate Consecutive(data: seq<Word>, m: Word, a: nat, b: nat)
  {
    a < b && IsEdge(data, m, a) && IsEdge(data, m, b)
    && forall k :: a < k < b ==> !IsEdge(data, m, k)
  }

  lemma ConsecutiveIsLastEdge(data: seq<Word>, m: Word, a: nat, b: nat)
    requires Consecutive(data, m, a, b)
    ensures LastEdge(data, m, b) == Some(a)
  {
  }

  /** A mismatch at e3 is a pair of earlier consecutive edges with unequal runs. */
  lemma RunMismatchIff(data: seq<Word>, m: Word, e3: nat)
    requires e3 < |data|
    ensures RunMismatchAt(data, m, e3) <==>
              exists e1: nat, e2: nat :: Consecutive(data, m, e1, e2) && Consecutive(data, m, e2, e3)
                               && e2 - e1 > 1 && e3 - e2 != e2 - e1
  {
    if RunMismatchAt(data, m, e3) {
      var e2 := LastEdge(data, m, e3).value;
      var e1 := LastEdge(data, m, e2).value;
      assert Consecutive(data, m, e1, e2) && Consecutive(data, m, e2, e3);
    }
    forall e1: nat, e2: nat | Consecutive(data, m, e1, e2) && Consecutive(data, m, e2, e3)
      ensures LastEdge(data, m, e3) == Some(e2) && LastEdge(data, m, e2) == Some(e1)
    {
      ConsecutiveIsLastEdge(data, m, e2, e3);
      ConsecutiveIsLastEdge(data, m, e1, e2);
    }
  }

  /**
   * The capture is rejected for a strobe mask exactly when three consecutive
   * edges e1 < e2 < e3 bound two adjacent complete runs of different length,
   * the first of them longer than one sample.
   */
  lemma {:induction false} AsymmetricIffUnequalRuns(data: seq<Word>, m: Word, n: nat)
    requires n <= |data|
    ensures AsymmetricBefore(data, m, n) <==>
              exists e1: nat, e2: nat, e3: nat :: e3 < n && Consecutive(data, m, e1, e2) && Consecutive(data, m, e2, e3)
                                   && e2 - e1 > 1 && e3 - e2 != e2 - e1
  {
    if n > 0 {
      AsymmetricIffUnequalRuns(data, m, n - 1);
      RunMismatchIff(data, m, n - 1);
    }
  }

  /** A strobe that never changes level is never rejected, whatever the counters. */
  lemma {:induction false} SteadyStrobeSymmetric(data: seq<Word>, m: Word, n: nat)
    requires n <= |data|
    requires forall k :: 0 <= k < |data| ==> AnySet(data[k], m) == AnySet(data[0], m)
    ensures !AsymmetricBefore(data, m, n)
  {
    if n > 0 {
      SteadyStrobeSymmetric(data, m, n - 1);
      assert !IsEdge(data, m, n - 1);
    }
  }

  /**
   * An empty capture, or one in which no strobe bit ever changes, is reported
   * symmetric: the source accepts a capture that shows no strobe at all.
   */
  lemma SilentCaptureAccepted(data: seq<Word>, bits: seq<nat>)
    requires forall i, k :: 0 <= i < |bits| && 0 <= k < |data| ==>
               AnySet(data[k], Bit(bits[i])) == AnySet(data[0], Bit(bits[i]))
    ensures Symmetric(data, bits)
  {
    forall i | 0 <= i < |bits|
      ensures BitSymmetric(data, bits[i])
    {
      SteadyStrobeSymmetric(data, Bit(bits[i]), |data|);
    }
  }

  /**
   * A strobe high for one sample and then low for three is accepted, since
   * a one-sample run is never compared; high for two and then low for three
   * is rejected.
   */
  lemma OneSampleRunNotCompared()
    ensures Symmetric([0, 1, 0, 0, 0, 1], [0])
    ensures !Symmetric([0, 1, 1, 0, 0, 0, 1], [0])
  {
    var a: seq<Word> := [0, 1, 0, 0, 0, 1];
    assert Bit(0) == 1;
    assert LastEdge(a, 1, 2) == Some(1);
    assert LastEdge(a, 1, 5) == Some(2);
    assert !RunMismatchAt(a, 1, 5);
    assert !AsymmetricBefore(a, 1, 6);
    var b: seq<Word> := [0, 1, 1, 0, 0, 0, 1];
    assert LastEdge(b, 1, 3) == Some(1);
    assert LastEdge(b, 1, 6) == Some(3);
    assert RunMismatchAt(b, 1, 6);
    assert AsymmetricBefore(b, 1, 7);
    assert !BitSymmetric(b, 0);
    var bits: seq<nat> := [0];
    assert bits[0] == 0;
  }
}
