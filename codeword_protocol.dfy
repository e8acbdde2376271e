/**
 * The codeword protocol side of the driver: the DIO registers
 * `configure_codeword_protocol` writes for each AWG, and the flux-mode
 * waveform table `upload_codeword_program` builds from a split codeword.
 */
module CodewordProtocol {

  import opened DioBits
  import opened Wrappers
  import opened DioAnalysis
  import opened DelaySearch
  import opened Calibration

  /** The value of the codeword-protocol setting; any other string is `Unknown`. */
  datatype Protocol = Identical | Microwave | Flux | Unknown

  /** The DIO bit that carries the valid signal. */
  const ValidBit: nat := 31

  /** The DIO bit that carries the strobe (toggle) signal. */
  const StrobeBit: nat := 30

  /** Valid polarity "high". */
  const ValidHigh: int := 2

  /** Strobe on both edges. */
  const BothEdges: int := 3

  /** The flux protocol's codeword mask: three bits. */
  const FluxMask: Word := 7

  /** The microwave protocol's shift for AWGs 2 and 3: DIO bit 8 is not connected. */
  const MicrowaveUpperShift: nat := 9

  /**
   * The registers of AWG `awg` after `configure_codeword_protocol`: fixed
   * valid and strobe settings, the mask `numCodewords - 1` (three bits for
   * flux), and a shift by protocol; where the source sets no shift the
   * previous one stays.
   */
  function ConfigureAwg(p: Protocol, awg: nat, numCodewords: Word, previous: DioRegisters): (r: DioRegisters)
    ensures r.validIndex == ValidBit && r.validPolarity == ValidHigh
    ensures r.strobeIndex == StrobeBit && r.strobeSlope == BothEdges
    ensures p == Flux ==> r.maskValue == FluxMask
    ensures p != Flux ==> r.maskValue == numCodewords - 1
    ensures p == Identical || p == Flux || (p == Microwave && awg in {0, 1}) ==> r.maskShift == 0
    ensures p == Microwave && awg in {2, 3} ==> r.maskShift == MicrowaveUpperShift
    ensures p == Unknown || (p == Microwave && awg !in {0, 1, 2, 3}) ==> r.maskShift == previous.maskShift
  {
    var mask := numCodewords - 1;
    var base := DioRegisters(ValidBit, ValidHigh, StrobeBit, BothEdges, mask, previous.maskShift);
    match p
    case Identical => base.(maskShift := 0)
    case Microwave =>
      if awg in {0, 1} then base.(maskShift := 0)
      else if awg in {2, 3} then base.(maskShift := MicrowaveUpperShift)
      else base
    case Flux => base.(maskValue := FluxMask, maskShift := 0)
    case Unknown => base
  }

  /**
   * For a known protocol and one of the four AWGs of the device the
   * registers written do not depend on what was set before.
   */
  lemma ConfigureAwgIgnoresPrevious(p: Protocol, awg: nat, numCodewords: Word, r1: DioRegisters, r2: DioRegisters)
    requires p != Unknown && awg < 4
    ensures ConfigureAwg(p, awg, numCodewords, r1) == ConfigureAwg(p, awg, numCodewords, r2)
  {
  }

  /** Configuring twice leaves the registers as configuring once does. */
  lemma ConfigureAwgIdempotent(p: Protocol, awg: nat, numCodewords: Word, previous: DioRegisters)
    ensures ConfigureAwg(p, awg, numCodewords, ConfigureAwg(p, awg, numCodewords, previous))
            == ConfigureAwg(p, awg, numCodewords, previous)
  {
  }

  /** The strobe and valid masks of every configured AWG. */
  lemma ConfiguredStrobeAndValidMasks(p: Protocol, awg: nat, numCodewords: Word, previous: DioRegisters)
    ensures ConfigOf(ConfigureAwg(p, awg, numCodewords, previous)).strbMask == 0x4000_0000
    ensures ConfigOf(ConfigureAwg(p, awg, numCodewords, previous)).vldMask == 0x8000_0000
  {
    BitThirty();
    BitThirtyOne();
  }

  lemma BitThirty()
    ensures Bit(30) == 0x4000_0000
  {
  }

  lemma BitThirtyOne()
    ensures Bit(31) == 0x8000_0000
  {
  }

  /**
   * In flux mode the data bits calibrated are DIO bits 0..2 and the valid
   * bit; the strobe bit is not among them.
   */
  lemma FluxDataMask(awg: nat, numCodewords: Word, previous: DioRegisters)
    ensures DataMask(ConfigOf(ConfigureAwg(Flux, awg, numCodewords, previous))) == 0x8000_0007
  {
    BitThirtyOne();
    FluxDataMaskValue();
  }

  lemma FluxDataMaskValue()
    ensures ShiftLeft(FluxMask, 0) | 0x8000_0000 == 0x8000_0007
  {
  }

  /** A flux codeword split into the parts for the pair's two channels. */
  datatype FluxCodeword = FluxCodeword(ch0: int, ch1: int)

  /** `cw & 0b000111` and `(cw & 0b111000) >> 3`, for a codeword that is not negative. */
  function FluxSplit(cw: nat): (r: FluxCodeword)
    ensures 0 <= r.ch0 < 8 && 0 <= r.ch1 < 8
  {
    FluxCodeword(cw % 8, (cw / 8) % 8)
  }

  /** The six-bit codeword the two parts stand for. */
  function FluxJoin(f: FluxCodeword): int
  {
    f.ch0 + 8 * f.ch1
  }

  /** Splitting keeps the low six bits: joining the parts gives the codeword back modulo 64. */
  lemma FluxSplitJoin(cw: nat)
    ensures FluxJoin(FluxSplit(cw)) == cw % 64
  {
    var q := cw / 8;
    assert cw == 8 * q + cw % 8;
    assert q == 8 * (q / 8) + q % 8;
    assert cw == 64 * (q / 8) + (cw % 8 + 8 * (q % 8));
    ModUnique(cw, 64, q / 8, cw % 8 + 8 * (q % 8));
  }

  /** Joining two parts in 0..7 and splitting again gives the parts back. */
  lemma FluxJoinSplit(f: FluxCodeword)
    requires 0 <= f.ch0 < 8 && 0 <= f.ch1 < 8
    ensures FluxSplit(FluxJoin(f)) == f
  {
    var cw := FluxJoin(f);
    ModUnique(cw, 8, f.ch1, f.ch0);
    assert cw / 8 == f.ch1;
    ModUnique(f.ch1, 8, 0, f.ch1);
  }

  /** The split the table uses: the second part forced equal to the first, so both channels play alike. */
  function DuplicatedSplit(cw: nat): (r: FluxCodeword)
    ensures r.ch0 == r.ch1 == FluxSplit(cw).ch0
  {
    var f := FluxSplit(cw);
    f.(ch1 := f.ch0)
  }

  /** A waveform of a table entry: a stored wave, zeros as long as a stored wave, or a fixed number of zeros. */
  datatype WaveRef = Named(channel: nat, cw: int) | ZerosLike(channel: nat, cw: int) | Zeros(len: nat)

  /** The two waveforms played for one codeword. */
  datatype TableEntry = TableEntry(cw: nat, wave0: WaveRef, wave1: WaveRef)

  /** The length of the all-zero waveforms played for an empty codeword. */
  const ZeroWaveLength: nat := 48

  /** The entry for codeword `cw` on the channel pair starting at `ch`, given the two parts. */
  function FluxEntry(ch: nat, cw: nat, f: FluxCodeword): (e: TableEntry)
    ensures e.cw == cw
    ensures f.ch0 != 0 ==> e.wave0 == Named(ch, f.ch0)
    ensures f.ch1 != 0 ==> e.wave1 == Named(ch + 1, f.ch1)
    ensures f.ch0 == 0 && f.ch1 != 0 ==> e.wave0 == ZerosLike(ch, f.ch1)
    ensures f.ch0 != 0 && f.ch1 == 0 ==> e.wave1 == ZerosLike(ch, f.ch0)
    ensures f.ch0 == 0 && f.ch1 == 0 ==> e.wave0 == e.wave1 == Zeros(ZeroWaveLength)
  {
    if f.ch0 != 0 && f.ch1 != 0 then TableEntry(cw, Named(ch, f.ch0), Named(ch + 1, f.ch1))
    else if f.ch0 == 0 && f.ch1 != 0 then TableEntry(cw, ZerosLike(ch, f.ch1), Named(ch + 1, f.ch1))
    else if f.ch0 != 0 && f.ch1 == 0 then TableEntry(cw, Named(ch, f.ch0), ZerosLike(ch, f.ch0))
    else TableEntry(cw, Zeros(ZeroWaveLength), Zeros(ZeroWaveLength))
  }

  /** The number of codewords the flux table defines. */
  const FluxTableSize: nat := 8

  /** The flux waveform table of the channel pair starting at `ch`. */
  function FluxTable(ch: nat): (t: seq<TableEntry>)
    ensures |t| == FluxTableSize
  {
    seq(FluxTableSize, cw requires 0 <= cw < FluxTableSize => FluxEntry(ch, cw, DuplicatedSplit(cw)))
  }

  /**
   * Every entry of the flux table plays wave `cw` on both channels of the
   * pair, and codeword 0 plays zeros on both.
   */
  lemma FluxTableDuplicates(ch: nat, cw: nat)
    requires cw < FluxTableSize
    ensures FluxTable(ch)[cw].cw == cw
    ensures cw != 0 ==> FluxTable(ch)[cw].wave0 == Named(ch, cw) && FluxTable(ch)[cw].wave1 == Named(ch + 1, cw)
    ensures cw == 0 ==> FluxTable(ch)[cw].wave0 == FluxTable(ch)[cw].wave1 == Zeros(ZeroWaveLength)
  {
    ModUnique(cw, 8, 0, cw);
  }

  /** Without the duplication every table codeword would leave the second channel silent. */
  lemma SecondPartEmptyInTable(cw: nat)
    requires cw < FluxTableSize
    ensures FluxSplit(cw).ch1 == 0
  {
    ModUnique(cw, 8, 0, cw);
    assert cw / 8 == 0;
  }
}
