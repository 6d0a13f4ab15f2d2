/** Samples, feature frames, and the three ways the eight window statistics are computed. */
module Telemetry {
  import opened Basics
  import opened Statistics

  const WINDOW_N: nat := 60
  const BER_FLOOR: real := 0.000000000000001
  const EDFA_PUMP_DEFAULT: real := 0.0
  const RX_POWER_DEFAULT: real := -99.0
  const CHANNEL_DEFAULT := "C1"

  /** A JSON field that should hold a string; `printed` is what `str` makes of a null, a number and the like. */
  datatype GivenText = Missing | Text(value: string) | OtherText(printed: string)

  /**
   * A JSON field that may hold a number, absent if missing or null; `converted` is what `float`
   * makes of a boolean, a string and the like, and None if it raises an error.
   */
  datatype GivenNumber = Absent | Number(number: real) | OtherNumber(converted: Option<real>)

  /** A sample as sent. */
  datatype Raw = Raw(tsUnixMs: int, linkId: string, channelId: GivenText, osnrDb: real, ber: real,
                     laserBiasMa: real, edfaPumpMa: GivenNumber, rxPowerDbm: GivenNumber)

  /** A sample the ingest process accepted, defaults filled in. */
  datatype Sample = Sample(tsUnixMs: int, linkId: string, channelId: string, osnrDb: real, ber: real,
                           laserBiasMa: real, edfaPumpMa: real, rxPowerDbm: real)

  function Fill(r: Raw): Sample {
    Sample(r.tsUnixMs, r.linkId,
           if r.channelId.Text? && r.channelId.value != "" then r.channelId.value else CHANNEL_DEFAULT,
           r.osnrDb, r.ber, r.laserBiasMa,
           if r.edfaPumpMa.Number? then r.edfaPumpMa.number else EDFA_PUMP_DEFAULT,
           if r.rxPowerDbm.Number? then r.rxPowerDbm.number else RX_POWER_DEFAULT)
  }

  /** The feature-frame contract between ingest and inference. */
  datatype Frame = Frame(tsUnixMs: int, linkId: string, channelId: string, n: int,
                         series: map<string, seq<real>>, stats: map<string, real>)

  /** The two library functions the statistics use, kept abstract. */
  datatype Library = Library(log10: real -> real, sqrt: real -> real)

  function LogBer(lib: Library, ber: real): real {
    lib.log10(if ber > BER_FLOOR then ber else BER_FLOOR)
  }

  /** The logarithm is taken of the bit error rate itself from 1e-15 on, and of that number below. */
  lemma LogBerByValue(lib: Library, ber: real)
    ensures ber >= 0.000000000000001 ==> LogBer(lib, ber) == lib.log10(ber)
    ensures ber <= 0.000000000000001 ==> LogBer(lib, ber) == lib.log10(0.000000000000001)
  {
  }

  /** What the ingest process puts where a sample says nothing usable. */
  lemma DefaultsByValue(r: Raw)
    ensures var s := Fill(r);
      && (r.channelId == Text("") || !r.channelId.Text? ==> s.channelId == "C1")
      && (!r.edfaPumpMa.Number? ==> s.edfaPumpMa == 0.0) && (!r.rxPowerDbm.Number? ==> s.rxPowerDbm == -99.0)
  {
  }

  datatype Channel = OsnrDb | Log10Ber | LaserBiasMa | EdfaPumpMa | RxPowerDbm

  function ChannelName(c: Channel): string {
    match c
    case OsnrDb => "osnr_db"
    case Log10Ber => "log10_ber"
    case LaserBiasMa => "laser_bias_ma"
    case EdfaPumpMa => "edfa_pump_ma"
    case RxPowerDbm => "rx_power_dbm"
  }

  function Value(lib: Library, c: Channel, s: Sample): real {
    match c
    case OsnrDb => s.osnrDb
    case Log10Ber => LogBer(lib, s.ber)
    case LaserBiasMa => s.laserBiasMa
    case EdfaPumpMa => s.edfaPumpMa
    case RxPowerDbm => s.rxPowerDbm
  }

  function Series(lib: Library, c: Channel, w: seq<Sample>): (r: seq<real>)
    ensures |r| == |w|
  {
    Map(w, (s: Sample) => Value(lib, c, s))
  }

  function Std(lib: Library, s: seq<real>): real {
    if s == [] then 0.0 else lib.sqrt(Variance(s))
  }

  /** The eight statistics of a window, by name. */
  function StatsOf(lib: Library, w: seq<Sample>): map<string, real> {
    var osnr, lber, bias := Series(lib, OsnrDb, w), Series(lib, Log10Ber, w), Series(lib, LaserBiasMa, w);
    map["osnr_mean" := Average(osnr), "osnr_std" := Std(lib, osnr), "osnr_slope" := Slope(osnr),
        "log10_ber_mean" := Average(lber), "log10_ber_std" := Std(lib, lber), "log10_ber_slope" := Slope(lber),
        "laser_bias_mean" := Average(bias), "laser_bias_slope" := Slope(bias)]
  }

  /** The frame the ingest process builds from a non-empty window. */
  function FrameOf(lib: Library, w: seq<Sample>): Frame
    requires w != []
  {
    var last := w[|w| - 1];
    Frame(last.tsUnixMs, last.linkId, last.channelId, |w|,
          map["osnr_db" := Series(lib, OsnrDb, w), "log10_ber" := Series(lib, Log10Ber, w),
              "laser_bias_ma" := Series(lib, LaserBiasMa, w),
              "edfa_pump_ma" := Series(lib, EdfaPumpMa, w), "rx_power_dbm" := Series(lib, RxPowerDbm, w)],
          StatsOf(lib, w))
  }

  // ------------------------------------------------------------------ the Python reference

  /** The reference reads an optional number of any kind, or raises an error. */
  function Converted(g: GivenNumber, default: real): Option<real> {
    match g
    case Absent => Some(default)
    case Number(number) => Some(number)
    case OtherNumber(converted) => converted
  }

  predicate Convertible(raws: seq<Raw>) {
    forall r :: r in raws ==>
      Converted(r.edfaPumpMa, EDFA_PUMP_DEFAULT).Some? && Converted(r.rxPowerDbm, RX_POWER_DEFAULT).Some?
  }

  function SequencesFromSamples(lib: Library, raws: seq<Raw>): map<string, seq<real>>
    requires Convertible(raws)
  {
    map["osnr_db" := Map(raws, (r: Raw) => r.osnrDb),
        "log10_ber" := Map(raws, (r: Raw) => lib.log10(if r.ber < BER_FLOOR then BER_FLOOR else r.ber)),
        "laser_bias_ma" := Map(raws, (r: Raw) => r.laserBiasMa),
        "edfa_pump_ma" := ConvertedSeries(Map(raws, (r: Raw) => r.edfaPumpMa), EDFA_PUMP_DEFAULT),
        "rx_power_dbm" := ConvertedSeries(Map(raws, (r: Raw) => r.rxPowerDbm), RX_POWER_DEFAULT)]
  }

  function ConvertedSeries(given: seq<GivenNumber>, default: real): (r: seq<real>)
    requires forall i :: 0 <= i < |given| ==> Converted(given[i], default).Some?
    ensures |r| == |given|
    ensures forall i :: 0 <= i < |given| ==> r[i] == Converted(given[i], default).value
  {
    seq(|given|, i requires 0 <= i < |given| => Converted(given[i], default).value)
  }

  predicate HasSeries(series: map<string, seq<real>>) {
    forall name :: name in ["osnr_db", "log10_ber", "laser_bias_ma"] ==> name in series && series[name] != []
  }

  function ComputeStats(lib: Library, series: map<string, seq<real>>): map<string, real>
    requires HasSeries(series)
  {
    var osnr, lber, bias := series["osnr_db"], series["log10_ber"], series["laser_bias_ma"];
    map["osnr_mean" := Average(osnr), "osnr_std" := lib.sqrt(VarianceArray(osnr)), "osnr_slope" := SlopeArray(osnr),
        "log10_ber_mean" := Average(lber), "log10_ber_std" := lib.sqrt(VarianceArray(lber)),
        "log10_ber_slope" := SlopeArray(lber),
        "laser_bias_mean" := Average(bias), "laser_bias_slope" := SlopeArray(bias)]
  }

  /** None when the reference raises: a wrong number of samples, no last sample, or a value it cannot convert. */
  function MakeFrame(lib: Library, raws: seq<Raw>, windowN: int): Option<Frame> {
    if |raws| != windowN || raws == [] || !Convertible(raws) then None
    else
      var last := raws[|raws| - 1];
      var series := SequencesFromSamples(lib, raws);
      Some(Frame(last.tsUnixMs, last.linkId,
                 match last.channelId {
                   case Missing => CHANNEL_DEFAULT
                   case Text(value) => value
                   case OtherText(printed) => printed
                 },
                 windowN, series, ComputeStats(lib, series)))
  }

  const FEATURE_NAMES: seq<string> := [
    "osnr_mean", "osnr_std", "osnr_slope", "log10_ber_mean", "log10_ber_std", "log10_ber_slope",
    "laser_bias_mean", "laser_bias_slope"]

  predicate HasFeatures(stats: map<string, real>) {
    forall name :: name in FEATURE_NAMES ==> name in stats
  }

  function StatsVector(stats: map<string, real>): (v: seq<real>)
    requires HasFeatures(stats)
    ensures |v| == |FEATURE_NAMES|
  {
    seq(|FEATURE_NAMES|, i requires 0 <= i < |FEATURE_NAMES| => stats[FEATURE_NAMES[i]])
  }

  /** Both sides read the same channel id. */
  predicate SameText(g: GivenText) {
    match g
    case Missing => true
    case Text(value) => value != ""
    case OtherText(printed) => printed == CHANNEL_DEFAULT
  }

  /** Both sides read the same optional number: the ingest process replaces whatever is no number by the default. */
  predicate SameNumber(g: GivenNumber, default: real) {
    g.OtherNumber? ==> g.converted == Some(default)
  }

  predicate SameNumbers(raws: seq<Raw>) {
    forall i :: 0 <= i < |raws| ==>
      SameNumber(raws[i].edfaPumpMa, EDFA_PUMP_DEFAULT) && SameNumber(raws[i].rxPowerDbm, RX_POWER_DEFAULT)
  }

  lemma RequiredSeriesMatch(lib: Library, raws: seq<Raw>)
    requires Convertible(raws)
    ensures var py, w := SequencesFromSamples(lib, raws), Map(raws, Fill);
      && py["osnr_db"] == Series(lib, OsnrDb, w) && py["log10_ber"] == Series(lib, Log10Ber, w)
      && py["laser_bias_ma"] == Series(lib, LaserBiasMa, w)
  {
  }

  lemma OptionalSeriesMatch(lib: Library, raws: seq<Raw>)
    requires Convertible(raws)
    ensures var py, w := SequencesFromSamples(lib, raws), Map(raws, Fill);
      py["edfa_pump_ma"] == Series(lib, EdfaPumpMa, w) && py["rx_power_dbm"] == Series(lib, RxPowerDbm, w)
      <==> SameNumbers(raws)
  {
    var py, w := SequencesFromSamples(lib, raws), Map(raws, Fill);
    forall i | 0 <= i < |raws|
      ensures py["edfa_pump_ma"][i] == Series(lib, EdfaPumpMa, w)[i] <==>
              SameNumber(raws[i].edfaPumpMa, EDFA_PUMP_DEFAULT)
      ensures py["rx_power_dbm"][i] == Series(lib, RxPowerDbm, w)[i] <==>
              SameNumber(raws[i].rxPowerDbm, RX_POWER_DEFAULT)
    {
    }
  }

  lemma StatsMatch(lib: Library, raws: seq<Raw>)
    requires raws != [] && Convertible(raws)
    ensures ComputeStats(lib, SequencesFromSamples(lib, raws)) == FrameOf(lib, Map(raws, Fill)).stats
  {
    hide SlopeArray, VarianceArray, Slope, Variance, Average;
    var w := Map(raws, Fill);
    RequiredSeriesMatch(lib, raws);
    var osnr, lber, bias := Series(lib, OsnrDb, w), Series(lib, Log10Ber, w), Series(lib, LaserBiasMa, w);
    hide SequencesFromSamples, Series;
    SlopeFormsAgree(osnr);
    SlopeFormsAgree(lber);
    SlopeFormsAgree(bias);
    VarianceFormsAgree(osnr);
    VarianceFormsAgree(lber);
  }

  lemma SameNumbersConvert(raws: seq<Raw>)
    requires SameNumbers(raws)
    ensures Convertible(raws)
  {
  }

  /**
   * On the same samples the Python reference and the ingest process build the same frame exactly
   * when they read the last channel id alike and every optional number alike: the reference takes
   * an empty string, a null or a number for what it prints as, and converts what is no number.
   */
  lemma FramesAgreeIff(lib: Library, raws: seq<Raw>)
    requires raws != []
    ensures MakeFrame(lib, raws, |raws|) == Some(FrameOf(lib, Map(raws, Fill)))
            <==> SameText(raws[|raws| - 1].channelId) && SameNumbers(raws)
  {
    hide SlopeArray, VarianceArray, Slope, Variance, Average, ComputeStats, SameNumbers, Convertible, StatsOf;
    if SameNumbers(raws) {
      SameNumbersConvert(raws);
    }
    if Convertible(raws) {
      var py, cpp := SequencesFromSamples(lib, raws), FrameOf(lib, Map(raws, Fill)).series;
      RequiredSeriesMatch(lib, raws);
      OptionalSeriesMatch(lib, raws);
      StatsMatch(lib, raws);
      hide SequencesFromSamples, Series;
      assert py == cpp <==> SameNumbers(raws);
    }
  }

  // ------------------------------------------------------------------ the vectorised form

  /** One sample as the five array columns, in contract order. */
  function SampleRow(lib: Library, s: Sample): seq<real> {
    [s.osnrDb, LogBer(lib, s.ber), s.laserBiasMa, s.edfaPumpMa, s.rxPowerDbm]
  }

  function Column(matrix: seq<seq<real>>, j: nat): (r: seq<real>)
    requires forall i :: 0 <= i < |matrix| ==> j < |matrix[i]|
    ensures |r| == |matrix|
  {
    seq(|matrix|, i requires 0 <= i < |matrix| => matrix[i][j])
  }

  /** One output row; None marks a division by zero, which is not a number. */
  function StatsRow(lib: Library, matrix: seq<seq<real>>): seq<Option<real>>
    requires matrix != [] && forall i :: 0 <= i < |matrix| ==> |matrix[i]| == 5
  {
    var osnr, lber, bias := Column(matrix, 0), Column(matrix, 1), Column(matrix, 2);
    [Some(Average(osnr)), Some(lib.sqrt(VarianceArray(osnr))), SlopeAxis(osnr),
     Some(Average(lber)), Some(lib.sqrt(VarianceArray(lber))), SlopeAxis(lber),
     Some(Average(bias)), SlopeAxis(bias)]
  }

  function Matrix(lib: Library, w: seq<Sample>): (m: seq<seq<real>>)
    ensures |m| == |w|
    ensures forall i :: 0 <= i < |w| ==> m[i] == SampleRow(lib, w[i])
  {
    Map(w, (s: Sample) => SampleRow(lib, s))
  }

  lemma ColumnsAreSeries(lib: Library, w: seq<Sample>)
    ensures Column(Matrix(lib, w), 0) == Series(lib, OsnrDb, w)
    ensures Column(Matrix(lib, w), 1) == Series(lib, Log10Ber, w)
    ensures Column(Matrix(lib, w), 2) == Series(lib, LaserBiasMa, w)
  {
    hide LogBer;
  }

  const SEQ_CHANNELS: seq<string> := ["osnr_db", "log10_ber", "laser_bias_ma", "edfa_pump_ma", "rx_power_dbm"]

  /** The frame carries the five series, all of one length. */
  predicate HasSequences(f: Frame) {
    forall name :: name in SEQ_CHANNELS ==>
      name in f.series && SEQ_CHANNELS[0] in f.series && |f.series[name]| == |f.series[SEQ_CHANNELS[0]]|
  }

  /** The autoencoder input: the series stacked as columns. */
  function FrameMatrix(f: Frame): (m: seq<seq<real>>)
    requires HasSequences(f)
  {
    assert SEQ_CHANNELS[0] in SEQ_CHANNELS;
    seq(|f.series[SEQ_CHANNELS[0]]|, i requires 0 <= i < |f.series[SEQ_CHANNELS[0]]| =>
      seq(|SEQ_CHANNELS|, j requires 0 <= j < |SEQ_CHANNELS| =>
        assert SEQ_CHANNELS[j] in SEQ_CHANNELS; f.series[SEQ_CHANNELS[j]][i]))
  }

  /** Built from the frame's series or sliced out of the table, the input matrix is the same. */
  lemma FrameMatrixIsMatrix(lib: Library, w: seq<Sample>)
    requires w != []
    ensures HasSequences(FrameOf(lib, w)) && FrameMatrix(FrameOf(lib, w)) == Matrix(lib, w)
  {
    hide StatsOf, LogBer;
    var f, m := FrameOf(lib, w), Matrix(lib, w);
    assert HasSequences(f);
    var built := FrameMatrix(f);
    forall i | 0 <= i < |w|
      ensures built[i] == m[i]
    {
      forall j | 0 <= j < 5
        ensures built[i][j] == m[i][j]
      {
        assert built[i][j] == f.series[SEQ_CHANNELS[j]][i];
      }
    }
  }

  /** The named statistics, read out in the order of `FEATURE_NAMES`. */
  lemma StatsInOrder(lib: Library, w: seq<Sample>)
    requires w != []
    ensures HasFeatures(FrameOf(lib, w).stats)
    ensures var osnr, lber, bias := Series(lib, OsnrDb, w), Series(lib, Log10Ber, w), Series(lib, LaserBiasMa, w);
      StatsVector(FrameOf(lib, w).stats)
      == [Average(osnr), Std(lib, osnr), Slope(osnr), Average(lber), Std(lib, lber), Slope(lber),
          Average(bias), Slope(bias)]
  {
    hide Std, Slope, Average, Series;
    assert FrameOf(lib, w).stats == StatsOf(lib, w);
  }

  /** The vectorised row equals the frame's statistics, feature by feature, exactly from two samples on. */
  lemma VectorisedAgreesIff(lib: Library, w: seq<Sample>)
    requires w != []
    ensures HasFeatures(FrameOf(lib, w).stats)
    ensures StatsRow(lib, Matrix(lib, w)) == Map(StatsVector(FrameOf(lib, w).stats), (x: real) => Some(x))
            <==> |w| >= 2
  {
    hide SlopeAxis, VarianceArray, Slope, Variance, Average, Series, Matrix, Column, FrameOf, StatsVector;
    var m := Matrix(lib, w);
    ColumnsAreSeries(lib, w);
    StatsInOrder(lib, w);
    SlopeFormsAgree(Column(m, 0));
    SlopeFormsAgree(Column(m, 1));
    SlopeFormsAgree(Column(m, 2));
    VarianceFormsAgree(Column(m, 0));
    VarianceFormsAgree(Column(m, 1));
    var row, some := StatsRow(lib, m), Map(StatsVector(FrameOf(lib, w).stats), (x: real) => Some(x));
    if |w| >= 2 {
      assert forall i :: 0 <= i < 8 ==> row[i] == some[i];
    } else {
      assert row[2] == None && some[2].Some?;
    }
  }

  // ------------------------------------------------------------------ the C++ window

  const CHANNELS: seq<Channel> := [OsnrDb, Log10Ber, LaserBiasMa, EdfaPumpMa, RxPowerDbm]

  function SeriesTable(lib: Library, channels: seq<Channel>, w: seq<Sample>): map<string, seq<real>> {
    if channels == [] then map[]
    else
      var last := channels[|channels| - 1];
      SeriesTable(lib, channels[..|channels| - 1], w)[ChannelName(last) := Series(lib, last, w)]
  }

  lemma FiveSeries(lib: Library, w: seq<Sample>)
    requires w != []
    ensures SeriesTable(lib, CHANNELS, w) == FrameOf(lib, w).series
  {
    hide Slope, Variance, Average, Series;
    var o, l, b, e, r := Series(lib, OsnrDb, w), Series(lib, Log10Ber, w), Series(lib, LaserBiasMa, w),
                         Series(lib, EdfaPumpMa, w), Series(lib, RxPowerDbm, w);
    var c1, c2, c3, c4 := [OsnrDb], [OsnrDb, Log10Ber], [OsnrDb, Log10Ber, LaserBiasMa],
                          [OsnrDb, Log10Ber, LaserBiasMa, EdfaPumpMa];
    assert c1[..0] == [] && c2[..1] == c1 && c3[..2] == c2 && c4[..3] == c3 && CHANNELS[..4] == c4;
    assert SeriesTable(lib, c1, w) == map["osnr_db" := o];
    assert SeriesTable(lib, c2, w) == map["osnr_db" := o, "log10_ber" := l];
    assert SeriesTable(lib, c3, w) == map["osnr_db" := o, "log10_ber" := l, "laser_bias_ma" := b];
    assert SeriesTable(lib, c4, w)
           == map["osnr_db" := o, "log10_ber" := l, "laser_bias_ma" := b, "edfa_pump_ma" := e];
    assert SeriesTable(lib, CHANNELS, w)
           == map["osnr_db" := o, "log10_ber" := l, "laser_bias_ma" := b, "edfa_pump_ma" := e, "rx_power_dbm" := r];
  }

  /** The window after one more sample: the oldest samples beyond the capacity are gone. */
  function Roll(w: seq<Sample>, s: Sample, capacity: nat): seq<Sample> {
    var longer := w + [s];
    if |longer| > capacity then longer[|longer| - capacity..] else longer
  }

  class Window {
    const capacity: nat
    var samples: seq<Sample>

    constructor (capacity: nat)
      ensures this.capacity == if capacity == 0 then WINDOW_N else capacity
      ensures samples == []
    {
      this.capacity := if capacity == 0 then WINDOW_N else capacity;
      samples := [];
    }

    method Push(sample: Sample)
      modifies this`samples
      ensures samples == Roll(old(samples), sample, capacity)
    {
      ghost var longer := samples + [sample];
      samples := samples + [sample];
      while |samples| > capacity
        invariant |samples| <= |longer| && samples == longer[|longer| - |samples|..]
        invariant |samples| >= Min(capacity, |longer|)
      {
        samples := samples[1..];
      }
    }

    predicate Full()
      reads this
    {
      |samples| == capacity
    }

    method SeriesOf(lib: Library, channel: Channel) returns (out: seq<real>)
      ensures out == Series(lib, channel, samples)
    {
      out := [];
      for i := 0 to |samples|
        invariant out == Series(lib, channel, samples)[..i]
      {
        match channel
        case OsnrDb => out := out + [samples[i].osnrDb];
        case Log10Ber => out := out + [LogBer(lib, samples[i].ber)];
        case LaserBiasMa => out := out + [samples[i].laserBiasMa];
        case EdfaPumpMa => out := out + [samples[i].edfaPumpMa];
        case RxPowerDbm => out := out + [samples[i].rxPowerDbm];
      }
    }

    method Stats(lib: Library) returns (stats: map<string, real>)
      ensures stats == StatsOf(lib, samples)
    {
      hide Slope, Variance, Average;
      var osnr := SeriesOf(lib, OsnrDb);
      var lber := SeriesOf(lib, Log10Ber);
      var bias := SeriesOf(lib, LaserBiasMa);
      var osnrMean := MeanLoop(osnr);
      var osnrStd := StddevLoop(osnr, lib.sqrt);
      var osnrSlope := SlopeLoop(osnr);
      var lberMean := MeanLoop(lber);
      var lberStd := StddevLoop(lber, lib.sqrt);
      var lberSlope := SlopeLoop(lber);
      var biasMean := MeanLoop(bias);
      var biasSlope := SlopeLoop(bias);
      stats := map["osnr_mean" := osnrMean, "osnr_std" := osnrStd, "osnr_slope" := osnrSlope,
                   "log10_ber_mean" := lberMean, "log10_ber_std" := lberStd, "log10_ber_slope" := lberSlope,
                   "laser_bias_mean" := biasMean, "laser_bias_slope" := biasSlope];
    }

    method BuildFrame(lib: Library) returns (frame: Frame)
      requires samples != []
      ensures frame == FrameOf(lib, samples)
    {
      hide Slope, Variance, Average, Series;
      var last := samples[|samples| - 1];
      var stats := Stats(lib);
      var channels := [OsnrDb, Log10Ber, LaserBiasMa, EdfaPumpMa, RxPowerDbm];
      var series: map<string, seq<real>> := map[];
      for i := 0 to |channels|
        invariant series == SeriesTable(lib, channels[..i], samples)
      {
        assert channels[..i + 1][..i] == channels[..i];
        var values := SeriesOf(lib, channels[i]);
        series := series[ChannelName(channels[i]) := values];
      }
      assert channels[..|channels|] == CHANNELS;
      FiveSeries(lib, samples);
      return Frame(last.tsUnixMs, last.linkId, last.channelId, |samples|, series, stats);
    }
  }
}
