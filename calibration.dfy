/**
 * `calibrate_dio_protocol`: check the strobe, find the valid delays of
 * every AWG, and program all of them with the largest delay valid for all.
 * The device registers each AWG's protocol is read from, and every capture
 * the procedure reads, are inputs.
 */
module Calibration {

  import opened DioBits
  import opened Wrappers
  import opened DioAnalysis
  import opened DioDelay
  import opened StrobeCheck
  import opened DelaySearch

  /** The DIO registers of one AWG: bit indices of valid and strobe, polarity, slope, codeword mask and shift. */
  datatype DioRegisters = DioRegisters(
    validIndex: nat, validPolarity: int,
    strobeIndex: nat, strobeSlope: int,
    maskValue: Word, maskShift: nat)

  /** The protocol settings as the masks `1 << index` built from the registers. */
  function ConfigOf(r: DioRegisters): (c: DioConfig)
    ensures c.strbSlope == r.strobeSlope && c.vldPolarity == r.validPolarity
    ensures c.cwMask == r.maskValue && c.cwShift == r.maskShift
  {
    DioConfig(Bit(r.strobeIndex), r.strobeSlope, Bit(r.validIndex), r.validPolarity, r.maskValue, r.maskShift)
  }

  /**
   * The strobe and valid masks select exactly the DIO bit their register
   * names (no bit of a sample when the index lies beyond bit 31), and the
   * codeword mask and shift are used as read.
   */
  lemma ConfigOfSelectsIndexedBits(r: DioRegisters)
    ensures r.strobeIndex < 32 ==>
              forall j: nat :: j < 32 ==> (AnySet(ConfigOf(r).strbMask, Bit(j)) <==> j == r.strobeIndex)
    ensures r.validIndex < 32 ==>
              forall j: nat :: j < 32 ==> (AnySet(ConfigOf(r).vldMask, Bit(j)) <==> j == r.validIndex)
    ensures r.strobeIndex >= 32 ==> ConfigOf(r).strbMask == 0
    ensures r.validIndex >= 32 ==> ConfigOf(r).vldMask == 0
    ensures ConfigOf(r).cwMask == r.maskValue && ConfigOf(r).cwShift == r.maskShift
  {
    forall j: nat | j < 32
      ensures r.strobeIndex < 32 ==> (AnySet(ConfigOf(r).strbMask, Bit(j)) <==> j == r.strobeIndex)
      ensures r.validIndex < 32 ==> (AnySet(ConfigOf(r).vldMask, Bit(j)) <==> j == r.validIndex)
    {
      if r.strobeIndex < 32 {
        BitsOverlapIffSame(r.strobeIndex, j);
      }
      if r.validIndex < 32 {
        BitsOverlapIffSame(r.validIndex, j);
      }
    }
  }

  /** One entry of the calibration list: an AWG, its expected codeword sequence, its registers and its captures. */
  datatype AwgSetup = AwgSetup(awg: nat, expected: seq<int>, regs: DioRegisters, captures: seq<seq<seq<Word>>>)

  /** The writes programmed into one AWG at the end. */
  datatype AwgDelay = AwgDelay(awg: nat, writes: seq<DelayWrite>)

  /** The writes of one AWG's delay sweep: those of delays 0..6, in order. */
  datatype AwgSweep = AwgSweep(awg: nat, writes: seq<seq<DelayWrite>>)

  /**
   * The outcome of a calibration.  `StrobeUndecided` stands for captures
   * running out before six equal shots; `NoAwgs` and `NoCommonDelay` are
   * the errors the source raises when the list is empty or when no delay is
   * valid for all AWGs.  Every outcome reached after the sweeps carries the
   * sweep writes made so far, which leave each swept AWG at delay 6.
   */
  datatype Outcome =
    | StrobeUndecided
    | StrobeAsymmetric
    | NoValidDelays(awg: nat, swept: seq<AwgSweep>)
    | NoAwgs
    | NoCommonDelay(swept: seq<AwgSweep>)
    | Calibrated(delay: nat, swept: seq<AwgSweep>, settings: seq<AwgDelay>)

  /** Every AWG comes with captures for every delay and retry. */
  predicate SetupsWellSized(setups: seq<AwgSetup>)
  {
    forall i :: 0 <= i < |setups| ==> WellSized(setups[i].captures)
  }

  /** The delays the sweep accepts for one AWG. */
  function SetupDelays(s: AwgSetup): set<nat>
    requires WellSized(s.captures)
  {
    ValidDelays(s.captures, ConfigOf(s.regs), s.expected)
  }

  /** The intersection of a non-empty list of sets. */
  function IntersectAll(sets: seq<set<nat>>): (r: set<nat>)
    requires |sets| > 0
    ensures forall x :: x in r <==> forall i :: 0 <= i < |sets| ==> x in sets[i]
  {
    if |sets| == 1 then sets[0] else sets[0] * IntersectAll(sets[1..])
  }

  /** The largest element of a non-empty set bounded by `bound`. */
  function MaxOf(s: set<nat>, bound: nat): (m: nat)
    requires s != {} && forall x :: x in s ==> x <= bound
    ensures m in s && forall x :: x in s ==> x <= m
    decreases bound
  {
    if bound in s then bound else MaxOf(s, bound - 1)
  }

  /** Delay d is valid for every AWG of the list. */
  predicate ValidForAll(setups: seq<AwgSetup>, d: nat)
    requires SetupsWellSized(setups)
  {
    forall i :: 0 <= i < |setups| ==> d in SetupDelays(setups[i])
  }

  /** The delays valid for every AWG of the list. */
  ghost function CommonDelays(setups: seq<AwgSetup>): set<nat>
    requires SetupsWellSized(setups)
  {
    set d: nat | d < DelayCount && ValidForAll(setups, d)
  }

  /** The strobe verdict, the first input calibration depends on. */
  function StrobeOk(strobeShots: seq<seq<Word>>, strbBits: seq<nat>): Option<bool>
  {
    StrobeVerdict(Outcomes(strobeShots, strbBits))
  }

  /** Every AWG before position n has a valid delay. */
  predicate AllFoundBelow(setups: seq<AwgSetup>, n: nat)
    requires SetupsWellSized(setups) && n <= |setups|
  {
    forall i :: 0 <= i < n ==> SetupDelays(setups[i]) != {}
  }

  /** The sweep writes of the first n AWGs of the list, in list order. */
  function SweepLog(setups: seq<AwgSetup>, n: nat): (r: seq<AwgSweep>)
    requires n <= |setups|
    ensures |r| == n
  {
    if n == 0 then []
    else SweepLog(setups, n - 1) + [AwgSweep(setups[n - 1].awg, SweepWrites(ConfigOf(setups[n - 1].regs), DelayCount))]
  }

  /** Entry k of the log is AWG k's sweep, whose last write leaves that AWG at delay 6. */
  lemma {:induction false} SweepLogAt(setups: seq<AwgSetup>, n: nat, k: nat)
    requires k < n <= |setups|
    ensures SweepLog(setups, n)[k].awg == setups[k].awg
    ensures SweepLog(setups, n)[k].writes == SweepWrites(ConfigOf(setups[k].regs), DelayCount)
    ensures SweepLog(setups, n)[k].writes[DelayCount - 1]
            == DelayWrites(ConfigOf(setups[k].regs).strbMask, DataMask(ConfigOf(setups[k].regs)), MaxDelay)
  {
    if k < n - 1 {
      SweepLogAt(setups, n - 1, k);
    }
    SweepWritesAt(ConfigOf(setups[k].regs), DelayCount, DelayCount - 1);
  }

  /** The valid delays of the first n AWGs of the list, in list order. */
  function SweptDelays(setups: seq<AwgSetup>, n: nat): (r: seq<set<nat>>)
    requires SetupsWellSized(setups) && n <= |setups|
    ensures |r| == n
  {
    if n == 0 then [] else SweptDelays(setups, n - 1) + [SetupDelays(setups[n - 1])]
  }

  /** Entry i of the swept delays is the set of AWG i. */
  lemma {:induction false} SweptDelaysAt(setups: seq<AwgSetup>, n: nat)
    requires SetupsWellSized(setups) && n <= |setups|
    ensures forall i :: 0 <= i < n ==> SweptDelays(setups, n)[i] == SetupDelays(setups[i])
  {
    if n > 0 {
      SweptDelaysAt(setups, n - 1);
    }
  }

  /**
   * Sweep every AWG in order, stopping at the first without a valid delay;
   * `swept` holds the writes of every sweep made, the failing one included.
   */
  method CollectValidDelays(setups: seq<AwgSetup>)
    returns (all: seq<set<nat>>, failed: Option<nat>, swept: seq<AwgSweep>)
    requires SetupsWellSized(setups)
    ensures failed.None? ==> |all| == |setups| && AllFoundBelow(setups, |setups|)
    ensures failed.None? ==> forall i :: 0 <= i < |setups| ==> all[i] == SetupDelays(setups[i])
    ensures failed.None? ==> swept == SweepLog(setups, |setups|)
    ensures failed.Some? ==> failed.value < |setups| && SetupDelays(setups[failed.value]) == {}
                             && AllFoundBelow(setups, failed.value)
    ensures failed.Some? ==> swept == SweepLog(setups, failed.value + 1)
  {
    all := [];
    swept := [];
    for i := 0 to |setups|
      invariant |all| == i && AllFoundBelow(setups, i)
      invariant all == SweptDelays(setups, i)
      invariant swept == SweepLog(setups, i)
    {
      var c := ConfigOf(setups[i].regs);
      var validDelays, programmed := FindValidDelays(c, setups[i].expected, setups[i].captures);
      swept := swept + [AwgSweep(setups[i].awg, programmed)];
      if validDelays == {} {
        return all, Some(i), swept;
      }
      all := all + [validDelays];
    }
    SweptDelaysAt(setups, |setups|);
    failed := None;
  }

  /** The writes that program every AWG with one delay, in list order. */
  function FinalSettings(setups: seq<AwgSetup>, delay: nat): (r: seq<AwgDelay>)
    ensures |r| == |setups|
  {
    if setups == [] then []
    else
      var c := ConfigOf(setups[0].regs);
      [AwgDelay(setups[0].awg, DelayWrites(c.strbMask, DataMask(c), delay))] + FinalSettings(setups[1..], delay)
  }

  /** Entry k of the final settings programs AWG k of the list with its own masks and the chosen delay. */
  lemma {:induction false} FinalSettingsAt(setups: seq<AwgSetup>, delay: nat, k: nat)
    requires k < |setups|
    ensures FinalSettings(setups, delay)[k].awg == setups[k].awg
    ensures FinalSettings(setups, delay)[k].writes
            == DelayWrites(ConfigOf(setups[k].regs).strbMask, DataMask(ConfigOf(setups[k].regs)), delay)
  {
    if k > 0 {
      FinalSettingsAt(setups[1..], delay, k - 1);
      assert setups[1..][k - 1] == setups[k];
    }
  }

  /**
   * `calibrate_dio_protocol`: the strobe must be accepted, every AWG must
   * have a valid delay, and then every AWG is programmed with the largest
   * delay valid for all of them.
   */
  method CalibrateDioProtocol(strobeShots: seq<seq<Word>>, strbBits: seq<nat>, setups: seq<AwgSetup>)
    returns (outcome: Outcome)
    requires SetupsWellSized(setups)
    ensures outcome == StrobeUndecided <==> StrobeOk(strobeShots, strbBits) == None
    ensures outcome == StrobeAsymmetric <==> StrobeOk(strobeShots, strbBits) == Some(false)
    ensures outcome.NoValidDelays? ==>
              StrobeOk(strobeShots, strbBits) == Some(true) &&
              exists i :: 0 <= i < |setups| && setups[i].awg == outcome.awg
                          && SetupDelays(setups[i]) == {} && AllFoundBelow(setups, i)
                          && outcome.swept == SweepLog(setups, i + 1)
    ensures StrobeOk(strobeShots, strbBits) == Some(true) && !AllFoundBelow(setups, |setups|) ==>
              outcome.NoValidDelays?
    ensures outcome == NoAwgs <==> StrobeOk(strobeShots, strbBits) == Some(true) && |setups| == 0
    ensures outcome.NoCommonDelay? <==>
              StrobeOk(strobeShots, strbBits) == Some(true) && |setups| > 0
              && AllFoundBelow(setups, |setups|) && CommonDelays(setups) == {}
    ensures outcome.NoCommonDelay? ==> outcome.swept == SweepLog(setups, |setups|)
    ensures outcome.Calibrated? ==>
              StrobeOk(strobeShots, strbBits) == Some(true) && |setups| > 0
              && outcome.delay in CommonDelays(setups)
              && (forall d :: d in CommonDelays(setups) ==> d <= outcome.delay)
              && outcome.swept == SweepLog(setups, |setups|)
              && outcome.settings == FinalSettings(setups, outcome.delay)
  {
    var strobe, _ := EnsureSymmetricStrobe(strobeShots, strbBits);
    if strobe.None? {
      return StrobeUndecided;
    }
    if !strobe.value {
      return StrobeAsymmetric;
    }
    var allValidDelays, failed, swept := CollectValidDelays(setups);
    if failed.Some? {
      return NoValidDelays(setups[failed.value].awg, swept);
    }
    if |allValidDelays| == 0 {
      return NoAwgs;
    }
    var combined := IntersectAll(allValidDelays);
    CommonDelaysAre(setups, allValidDelays, combined);
    if combined == {} {
      return NoCommonDelay(swept);
    }
    var maxValidDelay := MaxOf(combined, DelayCount - 1);
    var settings := ProgramAll(setups, maxValidDelay);
    outcome := Calibrated(maxValidDelay, swept, settings);
  }

  /** The intersection of the swept sets is the set of delays valid for every AWG. */
  lemma CommonDelaysAre(setups: seq<AwgSetup>, all: seq<set<nat>>, combined: set<nat>)
    requires SetupsWellSized(setups) && |all| == |setups| > 0
    requires forall i :: 0 <= i < |setups| ==> all[i] == SetupDelays(setups[i])
    requires forall x :: x in combined <==> forall i :: 0 <= i < |all| ==> x in all[i]
    ensures combined == CommonDelays(setups)
    ensures forall x :: x in combined ==> x < DelayCount
  {
    var s0 := setups[0];
    AcceptedBelowExactly(s0.captures, ConfigOf(s0.regs), s0.expected, DelayCount);
    assert forall x :: x in combined ==> x in SetupDelays(setups[0]);
  }

  /** The final loop: program every AWG of the list with the chosen delay. */
  method ProgramAll(setups: seq<AwgSetup>, delay: nat) returns (settings: seq<AwgDelay>)
    ensures settings == FinalSettings(setups, delay)
  {
    settings := [];
    for i := 0 to |setups|
      invariant settings + FinalSettings(setups[i..], delay) == FinalSettings(setups, delay)
    {
      var c := ConfigOf(setups[i].regs);
      var writes := SetDioDelay(c.strbMask, DataMask(c), delay);
      assert setups[i..][1..] == setups[i + 1..];
      settings := settings + [AwgDelay(setups[i].awg, writes)];
    }
    assert setups[|setups|..] == [];
  }
}
