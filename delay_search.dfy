/**
 * `_find_valid_delays`: for each DIO delay 0..6 the AWG's DIO input is
 * captured (and re-captured up to six times while no codeword is seen),
 * decoded, and the delay is accepted when the capture shows no timing
 * violation and its codewords walk the expected sequence cyclically.
 * The device captures are an input: `captures[delay][k]` is what the k-th
 * read of the DIO data returns after that delay has been programmed.
 */
module DelaySearch {

  import opened DioBits
  import opened DioAnalysis
  import opened DioDelay

  /** The delays the sweep tries: 0 up to but excluding this. */
  const DelayCount: nat := 7

  /** One capture plus at most six retries while no codeword is decoded. */
  const CaptureAttempts: nat := 7

  /** The data bits whose delay follows the data part: codeword bits and the valid bit. */
  function DataMask(c: DioConfig): Word
  {
    ShiftLeft(c.cwMask, c.cwShift) | c.vldMask
  }

  /** Codewords compared as the integers the expected sequence holds. */
  function Values(cws: seq<Word>): (r: seq<int>)
    ensures |r| == |cws|
    ensures forall k :: 0 <= k < |cws| ==> r[k] == cws[k] as int
  {
    seq(|cws|, k requires 0 <= k < |cws| => cws[k] as int)
  }

  /** The index of the first occurrence of x, as a list lookup finds it. */
  function IndexOf(s: seq<int>, x: int): (r: nat)
    requires x in s
    ensures r < |s| && s[r] == x
    ensures forall k :: 0 <= k < r ==> s[k] != x
  {
    if s[0] == x then 0 else 1 + IndexOf(s[1..], x)
  }

  /** The codewords follow the expected sequence from position i on, wrapping around at its end. */
  predicate WalkFrom(cws: seq<int>, expected: seq<int>, i: nat)
    requires i < |expected|
    decreases |cws|
  {
    cws == [] ||
    (cws[0] == expected[i] && WalkFrom(cws[1..], expected, (i + 1) % |expected|))
  }

  /**
   * The codewords are found in the expected sequence: the first one at its
   * first occurrence, and each next one at the next position, wrapping
   * around at the end.
   */
  predicate CyclicWalk(cws: seq<int>, expected: seq<int>)
  {
    cws == [] || (cws[0] in expected && WalkFrom(cws, expected, IndexOf(expected, cws[0])))
  }

  /** The sequence comparison at the end of `_find_valid_delays`. */
  method MatchesExpected(cws: seq<int>, expected: seq<int>) returns (validSequence: bool)
    ensures validSequence == CyclicWalk(cws, expected)
  {
    validSequence := true;
    var index: nat := 0;
    for n := 0 to |cws|
      invariant n > 0 ==> cws[0] in expected && index < |expected| && cws[n - 1] == expected[index]
      invariant n > 0 ==> (CyclicWalk(cws, expected) <==> WalkFrom(cws[n - 1..], expected, index))
    {
      if n == 0 {
        if cws[0] !in expected {
          validSequence := false;
          break;
        }
        index := IndexOf(expected, cws[0]);
      } else {
        assert cws[n - 1..][1..] == cws[n..];
        index := (index + 1) % |expected|;
        if cws[n] != expected[index] {
          validSequence := false;
          break;
        }
      }
    }
    if validSequence && |cws| > 0 {
      assert cws[|cws| - 1..][1..] == [];
    }
  }

  /** Along a walk, every pair of successive codewords is a pair of successive entries of the cycle. */
  lemma {:induction false} WalkFromSteps(cws: seq<int>, expected: seq<int>, i: nat, k: nat) returns (j: nat)
    requires i < |expected| && WalkFrom(cws, expected, i) && k + 1 < |cws|
    ensures j < |expected| && expected[j] == cws[k]
    ensures expected[(j + 1) % |expected|] == cws[k + 1]
  {
    if k == 0 {
      j := i;
    } else {
      j := WalkFromSteps(cws[1..], expected, (i + 1) % |expected|, k - 1);
    }
  }

  /** Every codeword on a walk is an entry of the expected sequence. */
  lemma {:induction false} WalkFromMembers(cws: seq<int>, expected: seq<int>, i: nat, k: nat)
    requires i < |expected| && WalkFrom(cws, expected, i) && k < |cws|
    ensures cws[k] in expected
  {
    if k > 0 {
      WalkFromMembers(cws[1..], expected, (i + 1) % |expected|, k - 1);
    }
  }

  /** Every pair of successive codewords of an accepted sequence is a pair of successive entries of the cycle. */
  lemma CyclicWalkSteps(cws: seq<int>, expected: seq<int>, k: nat) returns (j: nat)
    requires CyclicWalk(cws, expected) && k + 1 < |cws|
    ensures j < |expected| && expected[j] == cws[k]
    ensures expected[(j + 1) % |expected|] == cws[k + 1]
  {
    j := WalkFromSteps(cws, expected, IndexOf(expected, cws[0]), k);
  }

  /** The len entries of the cycle from position start on, wrapping around at its end. */
  function CycleWindow(expected: seq<int>, start: nat, len: nat): (w: seq<int>)
    requires start < |expected|
    ensures |w| == len
    decreases len
  {
    if len == 0 then [] else [expected[start]] + CycleWindow(expected, (start + 1) % |expected|, len - 1)
  }

  lemma MulAtLeast(d: int, len: int)
    requires d >= 1 && len > 0
    ensures d * len >= len
  {
    var e := d - 1;
    assert e * len >= 0;
    assert d * len == e * len + len;
  }

  /** Euclidean remainder is unique: x == q * len + r with 0 <= r < len gives x % len == r. */
  lemma ModUnique(x: int, len: int, q: int, r: int)
    requires len > 0 && 0 <= r < len && x == q * len + r
    ensures x % len == r
  {
    var q' := x / len;
    var r' := x % len;
    assert x == q' * len + r';
    assert (q - q') * len == r' - r;
    if q > q' {
      MulAtLeast(q - q', len);
    } else if q < q' {
      MulAtLeast(q' - q, len);
    }
  }

  /** Stepping the cyclic index once is adding one before taking the remainder. */
  lemma ModNext(a: int, len: int)
    requires len > 0
    ensures (a % len + 1) % len == (a + 1) % len
  {
    var q := a / len;
    var r := a % len;
    assert a == q * len + r;
    if r + 1 < len {
      ModUnique(a + 1, len, q, r + 1);
      ModUnique(r + 1, len, 0, r + 1);
    } else {
      assert a + 1 == (q + 1) * len;
      ModUnique(a + 1, len, q + 1, 0);
      ModUnique(r + 1, len, 1, 0);
    }
  }

  /** The k-th entry of a window is the entry (start + k) mod the cycle length. */
  lemma {:induction false} CycleWindowAt(expected: seq<int>, start: nat, len: nat, k: nat)
    requires start < |expected| && k < len
    ensures CycleWindow(expected, start, len)[k] == expected[(start + k) % |expected|]
    decreases k
  {
    if k == 0 {
      ModUnique(start, |expected|, 0, start);
    } else {
      var next := (start + 1) % |expected|;
      CycleWindowAt(expected, next, len - 1, k - 1);
      ModUnique(start, |expected|, 0, start);
      ModNext(start + (k - 1) + 1 - 1, |expected|);
      ModNext(start, |expected|);
      ModAddShift(start, k - 1, |expected|);
    }
  }

  /** Adding after a remainder: ((a + 1) % len + b) % len == (a + 1 + b) % len. */
  lemma {:induction false} ModAddShift(a: nat, b: nat, len: int)
    requires len > 0
    ensures ((a + 1) % len + b) % len == (a + 1 + b) % len
    decreases b
  {
    if b == 0 {
      ModNext(a, len);
      ModUnique((a + 1) % len, len, 0, (a + 1) % len);
    } else {
      ModAddShift(a, b - 1, len);
      ModNext((a + 1) % len + b - 1, len);
      ModNext(a + 1 + b - 1, len);
    }
  }

  /** A window of the cycle is walked from its start position. */
  lemma {:induction false} WalkFromWindow(expected: seq<int>, start: nat, len: nat)
    requires start < |expected|
    ensures WalkFrom(CycleWindow(expected, start, len), expected, start)
    decreases len
  {
    if len > 0 {
      var w := CycleWindow(expected, start, len);
      WalkFromWindow(expected, (start + 1) % |expected|, len - 1);
      assert w[1..] == CycleWindow(expected, (start + 1) % |expected|, len - 1);
    }
  }

  /** A walk from position i is the window of the cycle from i of the walk's length. */
  lemma {:induction false} WalkFromIsWindow(cws: seq<int>, expected: seq<int>, i: nat)
    requires i < |expected| && WalkFrom(cws, expected, i)
    ensures cws == CycleWindow(expected, i, |cws|)
    decreases |cws|
  {
    if cws != [] {
      WalkFromIsWindow(cws[1..], expected, (i + 1) % |expected|);
    }
  }

  /**
   * An accepted list of codewords is exactly the window of the cycle that
   * starts at the first occurrence of its first codeword.
   */
  lemma CyclicWalkIffWindow(cws: seq<int>, expected: seq<int>)
    ensures CyclicWalk(cws, expected) <==>
              cws == [] || (cws[0] in expected && cws == CycleWindow(expected, IndexOf(expected, cws[0]), |cws|))
  {
    if cws != [] && cws[0] in expected {
      var start := IndexOf(expected, cws[0]);
      if WalkFrom(cws, expected, start) {
        WalkFromIsWindow(cws, expected, start);
      }
      if cws == CycleWindow(expected, start, |cws|) {
        WalkFromWindow(expected, start, |cws|);
      }
    }
  }

  /** The entries of a sequence are pairwise different. */
  predicate Distinct(s: seq<int>)
  {
    forall i, j :: 0 <= i < j < |s| ==> s[i] != s[j]
  }

  /** Any window of a cycle of distinct codewords, from any start and of any length, is accepted. */
  lemma WindowAccepted(expected: seq<int>, start: nat, len: nat)
    requires Distinct(expected) && start < |expected|
    ensures CyclicWalk(CycleWindow(expected, start, len), expected)
  {
    var w := CycleWindow(expected, start, len);
    if len > 0 {
      assert w[0] == expected[start];
      assert IndexOf(expected, w[0]) == start;
      WalkFromWindow(expected, start, len);
    }
  }

  /**
   * With a repeated entry the walk starts at the first occurrence: in the
   * cycle 1 2 1 3 the step 1 then 3 occurs, yet the codewords 1 3 are
   * rejected.
   */
  lemma RepeatedEntryStartsAtFirst()
    ensures !CyclicWalk([1, 3], [1, 2, 1, 3])
  {
    var cws, expected := [1, 3], [1, 2, 1, 3];
    assert IndexOf(expected, cws[0]) == 0;
    assert (0 + 1) % |expected| == 1;
    assert cws[1..] == [3];
    assert !WalkFrom(cws[1..], expected, 1);
  }

  /** The codewords decoded from one capture. */
  function CapturedCodewords(data: seq<Word>, c: DioConfig): seq<Word>
  {
    Codewords(data, c, |data|)
  }

  /** The first capture from k on with a codeword, or the last one. */
  function FirstWithCodewords(attempts: seq<seq<Word>>, c: DioConfig, k: nat): (r: nat)
    requires |attempts| >= CaptureAttempts && k < CaptureAttempts
    ensures k <= r < CaptureAttempts
    ensures forall j :: k <= j < r ==> CapturedCodewords(attempts[j], c) == []
    ensures r < CaptureAttempts - 1 ==> CapturedCodewords(attempts[r], c) != []
    decreases CaptureAttempts - k
  {
    if k == CaptureAttempts - 1 || CapturedCodewords(attempts[k], c) != [] then k
    else FirstWithCodewords(attempts, c, k + 1)
  }

  /**
   * The capture the retry loop ends with: the first one when the codeword
   * mask is 0, else the first with a codeword, else the seventh.
   */
  function UsedCapture(attempts: seq<seq<Word>>, c: DioConfig): (r: nat)
    requires |attempts| >= CaptureAttempts
    ensures r < CaptureAttempts
  {
    if c.cwMask == 0 then 0 else FirstWithCodewords(attempts, c, 0)
  }

  /** Whether the sweep accepts a delay, given the captures read after programming it. */
  predicate DelayAccepted(attempts: seq<seq<Word>>, c: DioConfig, expected: seq<int>)
    requires |attempts| >= CaptureAttempts
  {
    var data := attempts[UsedCapture(attempts, c)];
    (c.cwMask == 0 || CapturedCodewords(data, c) != [])
    && Violations(data, c, |data|) == []
    && CyclicWalk(Values(CapturedCodewords(data, c)), expected)
  }

  /** Enough captures for every delay and every retry. */
  predicate WellSized(captures: seq<seq<seq<Word>>>)
  {
    |captures| >= DelayCount && forall d :: 0 <= d < DelayCount ==> |captures[d]| >= CaptureAttempts
  }

  /** The retry loop: analyse captures until a codeword is seen or six retries are spent. */
  method CaptureWithRetry(attempts: seq<seq<Word>>, c: DioConfig)
    returns (data: seq<Word>, codewords: seq<Word>, timingViolations: seq<nat>)
    requires |attempts| >= CaptureAttempts
    ensures data == attempts[UsedCapture(attempts, c)]
    ensures codewords == CapturedCodewords(data, c)
    ensures timingViolations == Violations(data, c, |data|)
  {
    data := attempts[0];
    codewords, timingViolations := AnalyzeDioData(data, c);
    var timeoutCnt := 0;
    while c.cwMask != 0 && |codewords| == 0
      invariant 0 <= timeoutCnt < CaptureAttempts
      invariant c.cwMask == 0 ==> timeoutCnt == 0
      invariant data == attempts[timeoutCnt]
      invariant codewords == CapturedCodewords(data, c)
      invariant timingViolations == Violations(data, c, |data|)
      invariant c.cwMask != 0 ==> FirstWithCodewords(attempts, c, 0) == FirstWithCodewords(attempts, c, timeoutCnt)
      decreases CaptureAttempts - timeoutCnt
    {
      if timeoutCnt > 5 {
        break;
      }
      data := attempts[timeoutCnt + 1];
      codewords, timingViolations := AnalyzeDioData(data, c);
      timeoutCnt := timeoutCnt + 1;
    }
    if c.cwMask != 0 {
      assert FirstWithCodewords(attempts, c, timeoutCnt) == timeoutCnt;
    }
  }

  /** The body of the sweep for one delay: capture with retries, then the three tests. */
  method TryDelay(attempts: seq<seq<Word>>, c: DioConfig, expected: seq<int>) returns (accepted: bool)
    requires |attempts| >= CaptureAttempts
    ensures accepted == DelayAccepted(attempts, c, expected)
  {
    var data, codewords, timingViolations := CaptureWithRetry(attempts, c);
    if c.cwMask != 0 && |codewords| == 0 {
      return false;
    }
    if |timingViolations| > 0 {
      return false;
    }
    accepted := MatchesExpected(Values(codewords), expected);
  }

  /** The device writes of the sweep for the delays below n, one list per delay. */
  function SweepWrites(c: DioConfig, n: nat): (r: seq<seq<DelayWrite>>)
    ensures |r| == n
  {
    if n == 0 then [] else SweepWrites(c, n - 1) + [DelayWrites(c.strbMask, DataMask(c), n - 1)]
  }

  /** The sweep programs delay d, for each d below n, with the writes of `_set_dio_delay`. */
  lemma {:induction false} SweepWritesAt(c: DioConfig, n: nat, d: nat)
    requires d < n
    ensures SweepWrites(c, n)[d] == DelayWrites(c.strbMask, DataMask(c), d)
  {
    if d < n - 1 {
      SweepWritesAt(c, n - 1, d);
    }
  }

  /** The delays below n that the sweep accepts. */
  function AcceptedBelow(captures: seq<seq<seq<Word>>>, c: DioConfig, expected: seq<int>, n: nat): set<nat>
    requires WellSized(captures) && n <= DelayCount
  {
    if n == 0 then {}
    else
      AcceptedBelow(captures, c, expected, n - 1)
      + (if DelayAccepted(captures[n - 1], c, expected) then {n - 1} else {})
  }

  /** A delay is in the accepted set exactly when it is below n and the sweep accepts it. */
  lemma {:induction false} AcceptedBelowExactly(captures: seq<seq<seq<Word>>>, c: DioConfig, expected: seq<int>, n: nat)
    requires WellSized(captures) && n <= DelayCount
    ensures forall d: nat :: d in AcceptedBelow(captures, c, expected, n) <==>
              d < n && DelayAccepted(captures[d], c, expected)
  {
    if n > 0 {
      AcceptedBelowExactly(captures, c, expected, n - 1);
    }
  }

  /** The delays of 0..6 the sweep accepts. */
  function ValidDelays(captures: seq<seq<seq<Word>>>, c: DioConfig, expected: seq<int>): set<nat>
    requires WellSized(captures)
  {
    AcceptedBelow(captures, c, expected, DelayCount)
  }

  /**
   * `_find_valid_delays`: the accepted delays are exactly those of 0..6
   * whose used capture has codewords (when a codeword mask is set), no
   * timing violation and a cyclic walk of the expected sequence.  The
   * second result holds the device writes made for each tried delay.
   */
  method FindValidDelays(c: DioConfig, expected: seq<int>, captures: seq<seq<seq<Word>>>)
    returns (validDelays: set<nat>, programmed: seq<seq<DelayWrite>>)
    requires WellSized(captures)
    ensures validDelays == ValidDelays(captures, c, expected)
    ensures programmed == SweepWrites(c, DelayCount)
  {
    validDelays := {};
    programmed := [];
    for delay := 0 to DelayCount
      invariant validDelays == AcceptedBelow(captures, c, expected, delay)
      invariant programmed == SweepWrites(c, delay)
    {
      var writes := SetDioDelay(c.strbMask, DataMask(c), delay);
      programmed := programmed + [writes];
      var accepted := TryDelay(captures[delay], c, expected);
      if accepted {
        validDelays := validDelays + {delay};
      }
    }
  }

  /** An accepted delay's capture latched only codewords of the expected sequence, inside the mask. */
  lemma AcceptedCodewordsExpected(attempts: seq<seq<Word>>, c: DioConfig, expected: seq<int>, k: nat)
    requires |attempts| >= CaptureAttempts && DelayAccepted(attempts, c, expected)
    requires k < |CapturedCodewords(attempts[UsedCapture(attempts, c)], c)|
    ensures CapturedCodewords(attempts[UsedCapture(attempts, c)], c)[k] as int in expected
    ensures InMask(CapturedCodewords(attempts[UsedCapture(attempts, c)], c)[k], c.cwMask)
  {
    var data := attempts[UsedCapture(attempts, c)];
    var cws := Values(CapturedCodewords(data, c));
    WalkFromMembers(cws, expected, IndexOf(expected, cws[0]), k);
    CodewordsBounded(data, c, |data|);
  }

  /** With a codeword mask set, a delay whose seven captures show no codeword is rejected. */
  lemma SilentDelayRejected(attempts: seq<seq<Word>>, c: DioConfig, expected: seq<int>)
    requires |attempts| >= CaptureAttempts && c.cwMask != 0
    requires forall k :: 0 <= k < CaptureAttempts ==> CapturedCodewords(attempts[k], c) == []
    ensures !DelayAccepted(attempts, c, expected)
  {
    var k := UsedCapture(attempts, c);
    assert CapturedCodewords(attempts[k], c) == [];
  }
}
