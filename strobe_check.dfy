/**
 * `_ensure_symmetric_strobe`: the raw DIO input is captured shot after
 * shot; six symmetric shots in a row accept the strobe, six asymmetric
 * shots in a row reject it, and any other shot restarts the opposite
 * count.  Between asymmetric shots the source switches the reference clock
 * to internal and back; that has no effect on the outcome computed here.
 * `shots[k]` is the k-th capture of the raw DIO data; when the captures
 * run out before a verdict the model answers None, where the device loop
 * would go on reading.
 */
module StrobeCheck {

  import opened DioBits
  import opened Wrappers
  import opened StrobeSymmetry

  /** A verdict needs more than five shots of the same kind in a row. */
  const RunNeeded: nat := 6

  /** Whether each shot is symmetric on every strobe bit. */
  function Outcomes(shots: seq<seq<Word>>, strbBits: seq<nat>): (r: seq<bool>)
    ensures |r| == |shots|
    ensures forall k :: 0 <= k < |shots| ==> r[k] == Symmetric(shots[k], strbBits)
  {
    seq(|shots|, k requires 0 <= k < |shots| => Symmetric(shots[k], strbBits))
  }

  /** The number of shots with outcome b that end the first n shots. */
  function Trailing(s: seq<bool>, n: nat, b: bool): nat
    requires n <= |s|
  {
    if n == 0 || s[n - 1] != b then 0 else Trailing(s, n - 1, b) + 1
  }

  /** One more shot extends the count of its own kind and clears the other. */
  lemma TrailingStep(s: seq<bool>, n: nat)
    requires n < |s|
    ensures Trailing(s, n + 1, s[n]) == Trailing(s, n, s[n]) + 1
    ensures Trailing(s, n + 1, !s[n]) == 0
  {
  }

  /** At least k shots end the first n shots, and they all have outcome b. */
  lemma {:induction false} TrailingAtLeast(s: seq<bool>, n: nat, b: bool, k: nat)
    requires n <= |s|
    ensures Trailing(s, n, b) >= k <==> (k <= n && forall j :: n - k <= j < n ==> s[j] == b)
    decreases k
  {
    if k > 0 && n > 0 {
      TrailingAtLeast(s, n - 1, b, k - 1);
    }
  }

  /** Shot i closes a run of six equal outcomes. */
  predicate SixAlike(s: seq<bool>, i: nat)
    requires i < |s|
  {
    i + 1 >= RunNeeded && forall j :: i + 1 - RunNeeded <= j <= i ==> s[j] == s[i]
  }

  /** Shot i closes a run of six exactly when six shots of its kind end the first i + 1. */
  lemma SixAlikeIffTrailing(s: seq<bool>, i: nat)
    requires i < |s|
    ensures SixAlike(s, i) <==> Trailing(s, i + 1, s[i]) >= RunNeeded
  {
    TrailingAtLeast(s, i + 1, s[i], RunNeeded);
  }

  /** The first shot from i on that closes a run of six equal outcomes. */
  function FirstVerdictFrom(s: seq<bool>, i: nat): (r: Option<nat>)
    requires i <= |s|
    ensures r.Some? ==> i <= r.value < |s| && SixAlike(s, r.value)
                        && forall j :: i <= j < r.value ==> !SixAlike(s, j)
    ensures r.None? ==> forall j :: i <= j < |s| ==> !SixAlike(s, j)
    decreases |s| - i
  {
    if i == |s| then None
    else if SixAlike(s, i) then Some(i)
    else FirstVerdictFrom(s, i + 1)
  }

  /** A run closed at i, with none closed before, is the first verdict. */
  lemma FirstVerdictAt(s: seq<bool>, i: nat)
    requires i < |s| && SixAlike(s, i) && forall j :: 0 <= j < i ==> !SixAlike(s, j)
    ensures FirstVerdictFrom(s, 0) == Some(i)
  {
  }

  /** The verdict on a series of outcomes: the kind of the first run of six, if any. */
  function StrobeVerdict(s: seq<bool>): Option<bool>
  {
    match FirstVerdictFrom(s, 0)
    case None => None
    case Some(i) => Some(s[i])
  }

  /**
   * `_ensure_symmetric_strobe` over the given captures: the verdict and the
   * number of captures read.  The result is true when the loop ends with
   * good shots and no bad one, that is after six symmetric shots in a row.
   */
  method EnsureSymmetricStrobe(shots: seq<seq<Word>>, strbBits: seq<nat>)
    returns (verdict: Option<bool>, used: nat)
    ensures verdict == StrobeVerdict(Outcomes(shots, strbBits))
    ensures used <= |shots|
    ensures verdict.None? ==> used == |shots|
    ensures verdict.Some? ==> FirstVerdictFrom(Outcomes(shots, strbBits), 0) == Some(used - 1)
  {
    ghost var outs := Outcomes(shots, strbBits);
    var done := false;
    var goodShots, badShots := 0, 0;
    used := 0;
    while !done && used < |shots|
      invariant used <= |shots|
      invariant goodShots == Trailing(outs, used, true)
      invariant badShots == Trailing(outs, used, false)
      invariant !done ==> goodShots < RunNeeded && badShots < RunNeeded
      invariant !done ==> forall j :: 0 <= j < used ==> !SixAlike(outs, j)
      invariant done ==> used > 0 && SixAlike(outs, used - 1)
                         && (forall j :: 0 <= j < used - 1 ==> !SixAlike(outs, j))
                         && (goodShots > 0 && badShots == 0 <==> outs[used - 1])
      decreases |shots| - used
    {
      var data := shots[used];
      var ok := IsDioStrbSymmetric(data, strbBits);
      assert ok == outs[used];
      TrailingStep(outs, used);
      if ok {
        badShots := 0;
        goodShots := goodShots + 1;
        if goodShots > 5 {
          done := true;
        }
      } else {
        goodShots := 0;
        badShots := badShots + 1;
        if badShots > 5 {
          done := true;
        }
      }
      SixAlikeIffTrailing(outs, used);
      used := used + 1;
    }
    if done {
      FirstVerdictAt(outs, used - 1);
      verdict := Some(goodShots > 0 && badShots == 0);
    } else {
      verdict := None;
    }
  }

  /** Outcomes that alternate from shot to shot never reach a verdict. */
  lemma AlternatingUndecided(s: seq<bool>)
    requires forall i :: 0 <= i < |s| - 1 ==> s[i] != s[i + 1]
    ensures StrobeVerdict(s) == None
  {
    forall i | 0 <= i < |s| ensures !SixAlike(s, i) {
      if i >= 1 {
        assert s[i - 1] != s[i];
      }
    }
  }

  /** Six symmetric shots from the first one on accept the strobe after exactly six captures. */
  lemma SixGoodShotsAccept(s: seq<bool>)
    requires |s| >= RunNeeded && forall i :: 0 <= i < RunNeeded ==> s[i]
    ensures StrobeVerdict(s) == Some(true)
    ensures FirstVerdictFrom(s, 0) == Some(RunNeeded - 1)
  {
    assert SixAlike(s, RunNeeded - 1);
    FirstVerdictAt(s, RunNeeded - 1);
  }

  /** A verdict is the outcome of six consecutive shots, all of that kind. */
  lemma VerdictHasSixWitnesses(s: seq<bool>)
    requires StrobeVerdict(s).Some?
    ensures exists i :: RunNeeded - 1 <= i < |s| && SixAlike(s, i) && s[i] == StrobeVerdict(s).value
  {
    var i := FirstVerdictFrom(s, 0).value;
    assert SixAlike(s, i);
  }

  /**
   * The strobe is accepted exactly when some shot closes six symmetric
   * shots in a row and no earlier shot closes six asymmetric ones.
   */
  lemma AcceptedIffGoodRunFirst(s: seq<bool>)
    ensures StrobeVerdict(s) == Some(true) <==>
            exists i :: 0 <= i < |s| && SixAlike(s, i) && s[i]
                        && forall j :: 0 <= j < i ==> !(SixAlike(s, j) && !s[j])
  {
    if StrobeVerdict(s) == Some(true) {
      var i := FirstVerdictFrom(s, 0).value;
      assert SixAlike(s, i) && s[i];
    }
    if exists i :: 0 <= i < |s| && SixAlike(s, i) && s[i]
                   && forall j :: 0 <= j < i ==> !(SixAlike(s, j) && !s[j]) {
      var i :| 0 <= i < |s| && SixAlike(s, i) && s[i]
               && forall j :: 0 <= j < i ==> !(SixAlike(s, j) && !s[j]);
      var f := FirstVerdictFrom(s, 0);
      assert f.Some?;
      assert f.value <= i;
    }
  }

  /** The order and repetition of the strobe bits do not matter. */
  lemma StrobeBitsAsSet(data: seq<Word>, a: seq<nat>, b: seq<nat>)
    requires forall x :: x in a <==> x in b
    ensures Symmetric(data, a) == Symmetric(data, b)
  {
    if Symmetric(data, a) {
      forall i | 0 <= i < |b| ensures BitSymmetric(data, b[i]) {
        assert b[i] in a;
      }
    }
    if Symmetric(data, b) {
      forall i | 0 <= i < |a| ensures BitSymmetric(data, a[i]) {
        assert a[i] in b;
      }
    }
  }
}
