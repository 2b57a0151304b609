/**
 * 2_el_yagi_15m.py: the 15 m two-element Yagi builder, the boom-length sweep
 * that keeps the best forward gain and the best F/B per boom, the detune by
 * spacing matrices with their per-column peaks printed in bold, the row
 * chosen for each plotted spacing, and the spacing subset that is plotted.
 */
module Yagi15m {
  import opened Wrappers
  import opened Rendering
  import opened Antenna
  import opened Elements
  import opened Sweep
  import YagiCriticality
  import opened PlottedSpacings

  const FeetToMeters: real := 0.3048
  const FreqMhz: real := 21.0
  const Segments: int := 21
  const Radius: real := 0.001
  const WavelengthM: real := SpeedOfLight / (FreqMhz * 1000000.0)

  /** The 15 m wavelength, by which boom lengths are divided, is positive. */
  lemma WavelengthPositive()
    ensures WavelengthM > 0.0
  {
  }

  /** best_gain and best_fb start at -999 with no detune chosen. */
  const SweepFloor: real := -999.0

  /** A table cell within this of its column's peak is printed in bold. */
  const PeakTolerance: real := 0.000001

  /**
   * The model build_two_element_yagi_model returns: a driven element resonant
   * at freq, a reflector resonant at freq / (1 + detune), spacing_m behind it.
   */
  function YagiBeam(freqMhz: real, detune: real, spacingM: real, segments: int, radius: real): Layout
    requires freqMhz != 0.0 && 1.0 + detune != 0.0
  {
    TwoElementBeam(ResonantDipoleLength(freqMhz), spacingM,
                   ResonantDipoleLength(freqMhz / (1.0 + detune)), segments, radius)
  }

  /** build_two_element_yagi_model: the driven element, its feedpoint, then the reflector. */
  method BuildTwoElementYagiModel(freqMhz: real, detune: real, spacingM: real, segments: int, radius: real)
    returns (m: Model)
    requires freqMhz != 0.0 && 1.0 + detune != 0.0
    ensures fresh(m)
    ensures m.Contents() == YagiBeam(freqMhz, detune, spacingM, segments, radius)
  {
    var halfDriven := ResonantDipoleLength(freqMhz) / 2.0;
    var halfPassive := ResonantDipoleLength(freqMhz / (1.0 + detune)) / 2.0;
    m := new Model();
    m.AddElement(Element(0.0, -halfDriven, 0.0, 0.0, halfDriven, 0.0, segments, radius));
    m.AddFeedpoint(0, CentreSegment(segments));
    m.AddElement(Element(-spacingM, -halfPassive, 0.0, -spacingM, halfPassive, 0.0, segments, radius));
  }

  /**
   * The reflector is the resonant length scaled by 1 + detune, the rule the
   * 88 ft beam applies directly, and for a non-negative detune it is at least
   * as long as the driven element.
   */
  lemma YagiReflectorLength(freqMhz: real, detune: real, spacingM: real, segments: int, radius: real)
    requires freqMhz > 0.0 && 1.0 + detune > 0.0
    ensures var l := YagiBeam(freqMhz, detune, spacingM, segments, radius);
      Span(l.elements[1]) == (1.0 + detune) * Span(l.elements[0])
      && Span(l.elements[0]) == ResonantDipoleLength(freqMhz)
      && (detune >= 0.0 ==> Span(l.elements[1]) >= Span(l.elements[0]))
  {
    ResonantLengthScaling(freqMhz, detune);
    TwoElementGeometry(ResonantDipoleLength(freqMhz), spacingM,
                       ResonantDipoleLength(freqMhz / (1.0 + detune)), segments, radius);
    if detune >= 0.0 {
      DetunedNotShorter(freqMhz, detune);
    }
  }

  /**
   * At 21 MHz with the default segments and radius, this builder and the
   * criticality script's builder give the same model for the same detune and
   * spacing fraction, so the F/B search this script repeats for its
   * criticality plots picks what find_best_fb_detune picks.
   */
  lemma BuildersAgree(detune: real, spacingFrac: real)
    requires 1.0 + detune != 0.0
    ensures YagiBeam(FreqMhz, detune, spacingFrac * WavelengthM, Segments, Radius)
            == YagiCriticality.Beam(detune, spacingFrac)
  {
    assert FreqMhz == YagiCriticality.FreqMhz && WavelengthM == YagiCriticality.WavelengthM;
    assert Segments == YagiCriticality.Segments && Radius == YagiCriticality.Radius;
    assert YagiCriticality.Beam(detune, spacingFrac) ==
      TwoElementBeam(ResonantDipoleLength(YagiCriticality.FreqMhz), spacingFrac * YagiCriticality.WavelengthM,
                     ResonantDipoleLength(YagiCriticality.FreqMhz / (1.0 + detune)), YagiCriticality.Segments, YagiCriticality.Radius);
    assert ResonantDipoleLength(YagiCriticality.FreqMhz) == ResonantDipoleLength(FreqMhz);
    assert spacingFrac * YagiCriticality.WavelengthM == spacingFrac * WavelengthM;
    assert ResonantDipoleLength(YagiCriticality.FreqMhz / (1.0 + detune)) == ResonantDipoleLength(FreqMhz / (1.0 + detune));
    assert YagiCriticality.Beam(detune, spacingFrac) ==
      TwoElementBeam(ResonantDipoleLength(FreqMhz), spacingFrac * WavelengthM,
                     ResonantDipoleLength(FreqMhz / (1.0 + detune)), Segments, Radius);
  }

  // ---------------------------------------------------------------------
  // The boom-length sweep

  /** One entry of `results`. */
  datatype BoomResult = BoomResult(boomFt: real, boomM: real, boomLambda: real,
                                   bestGain: real, bestGainDetune: Option<real>,
                                   bestFb: real, bestFbDetune: Option<real>,
                                   gainVsDetune: seq<real>, fbVsDetune: seq<real>)

  /** One row [boom_ft, detune, fwd, fb] of `sweep_table`. */
  datatype SweepRow = SweepRow(boomFt: real, detune: real, fwd: real, fb: real)

  /** The azimuth cut the solver gives for each detune's model at one boom length. */
  function BoomCuts(ds: seq<real>, boomM: real, azimuth: Layout -> seq<AzPoint>): (cuts: seq<seq<AzPoint>>)
    requires Admissible(ds)
    ensures |cuts| == |ds|
    ensures forall i | 0 <= i < |ds| :: cuts[i] == azimuth(YagiBeam(FreqMhz, ds[i], boomM, Segments, Radius))
  {
    seq(|ds|, i requires 0 <= i < |ds| => azimuth(YagiBeam(FreqMhz, ds[i], boomM, Segments, Radius)))
  }

  /** The detune at a kept position, None while no position is kept. */
  function Pick(ds: seq<real>, k: Option<nat>): Option<real>
    requires k.Some? ==> k.value < |ds|
  {
    match k
    case None => None
    case Some(i) => Some(ds[i])
  }

  /** What the inner loop leaves for one boom length, or None when a cut lacks a point. */
  function BoomOutcome(boomFt: real, ds: seq<real>, azimuth: Layout -> seq<AzPoint>): (r: Option<BoomResult>)
    requires Admissible(ds)
    ensures r.Some? ==> |r.value.gainVsDetune| == |ds| && |r.value.fbVsDetune| == |ds|
  {
    WavelengthPositive();
    var boomM := boomFt * FeetToMeters;
    match ReadAll(BoomCuts(ds, boomM, azimuth))
    case None => None
    case Some(readings) =>
      Some(BoomResult(boomFt, boomM, boomM / WavelengthM,
                      BestValue(readings.0, SweepFloor), Pick(ds, Best(readings.0, SweepFloor)),
                      BestValue(readings.1, SweepFloor), Pick(ds, Best(readings.1, SweepFloor)),
                      readings.0, readings.1))
  }

  /** The sweep_table rows of one boom length, one per detune in order. */
  function BoomRows(boomFt: real, ds: seq<real>, fwds: seq<real>, fbs: seq<real>): seq<SweepRow>
    requires |fwds| == |ds| && |fbs| == |ds|
  {
    seq(|ds|, i requires 0 <= i < |ds| => SweepRow(boomFt, ds[i], fwds[i], fbs[i]))
  }

  /**
   * The inner loop of the boom sweep: one model and one azimuth cut per
   * detune, recording the forward gain and F/B, appending a sweep_table row,
   * and keeping the first detune that strictly beats the best gain and the
   * best F/B so far.
   */
  method SweepDetunes(boomFt: real, ds: seq<real>, azimuth: Layout -> seq<AzPoint>)
    returns (r: Option<(BoomResult, seq<SweepRow>)>)
    requires Admissible(ds)
    ensures r.None? <==> BoomOutcome(boomFt, ds, azimuth).None?
    ensures r.Some? ==> r.value.0 == BoomOutcome(boomFt, ds, azimuth).value
                        && r.value.1 == BoomRows(boomFt, ds, r.value.0.gainVsDetune, r.value.0.fbVsDetune)
  {
    WavelengthPositive();
    var boomM := boomFt * FeetToMeters;
    ghost var cuts := BoomCuts(ds, boomM, azimuth);
    var bestGain := SweepFloor;
    var bestGainDetune: Option<real> := None;
    var bestFb := SweepFloor;
    var bestFbDetune: Option<real> := None;
    var gainVsDetune: seq<real> := [];
    var fbVsDetune: seq<real> := [];
    var rows: seq<SweepRow> := [];
    var i := 0;
    while i < |ds|
      invariant 0 <= i <= |ds|
      invariant ReadAll(cuts[..i]) == Some((gainVsDetune, fbVsDetune))
      invariant bestGain == BestValue(gainVsDetune, SweepFloor)
      invariant bestGainDetune == Pick(ds, Best(gainVsDetune, SweepFloor))
      invariant bestFb == BestValue(fbVsDetune, SweepFloor)
      invariant bestFbDetune == Pick(ds, Best(fbVsDetune, SweepFloor))
      invariant rows == BoomRows(boomFt, ds[..i], gainVsDetune, fbVsDetune)
    {
      var detune := ds[i];
      var model := BuildTwoElementYagiModel(FreqMhz, detune, boomM, Segments, Radius);
      var azPat := azimuth(model.Contents());
      var reading := FrontBack(azPat);
      if reading.None? {
        ReadAllFailsFrom(cuts, i);
        return None;
      }
      var fwd := reading.value.0;
      var fb := reading.value.1;
      ReadAllSnoc(cuts, i);
      PickSnoc(ds, gainVsDetune, fwd, SweepFloor);
      PickSnoc(ds, fbVsDetune, fb, SweepFloor);
      BoomRowsSnoc(boomFt, ds, i, gainVsDetune, fbVsDetune, fwd, fb);
      rows := rows + [SweepRow(boomFt, detune, fwd, fb)];
      if fwd > bestGain {
        bestGain := fwd;
        bestGainDetune := Some(detune);
      }
      if fb > bestFb {
        bestFb := fb;
        bestFbDetune := Some(detune);
      }
      gainVsDetune := gainVsDetune + [fwd];
      fbVsDetune := fbVsDetune + [fb];
      i := i + 1;
    }
    assert cuts[..i] == cuts;
    assert ds[..i] == ds;
    var result := BoomResult(boomFt, boomM, boomM / WavelengthM, bestGain, bestGainDetune,
                             bestFb, bestFbDetune, gainVsDetune, fbVsDetune);
    return Some((result, rows));
  }

  /** The loop's update of a kept detune, one value later. */
  lemma PickSnoc(ds: seq<real>, xs: seq<real>, x: real, floor: real)
    requires |xs| < |ds|
    ensures BestValue(xs + [x], floor) == (if x > BestValue(xs, floor) then x else BestValue(xs, floor))
    ensures Pick(ds, Best(xs + [x], floor)) ==
              (if x > BestValue(xs, floor) then Some(ds[|xs|]) else Pick(ds, Best(xs, floor)))
  {
    BestSnoc(xs, x, floor);
    if !(x > BestValue(xs, floor)) && Best(xs, floor).Some? {
      assert (xs + [x])[Best(xs, floor).value] == xs[Best(xs, floor).value];
    }
  }

  /** One more sweep_table row, for the next detune. */
  lemma BoomRowsSnoc(boomFt: real, ds: seq<real>, i: nat, fwds: seq<real>, fbs: seq<real>, fwd: real, fb: real)
    requires i < |ds| && |fwds| == i && |fbs| == i
    ensures BoomRows(boomFt, ds[..i + 1], fwds + [fwd], fbs + [fb])
            == BoomRows(boomFt, ds[..i], fwds, fbs) + [SweepRow(boomFt, ds[i], fwd, fb)]
  {
  }

  /** The results and sweep_table after the booms, or None when some cut lacks a point. */
  function SweepOutcome(boomsFt: seq<real>, ds: seq<real>, azimuth: Layout -> seq<AzPoint>)
    : (r: Option<(seq<BoomResult>, seq<SweepRow>)>)
    requires Admissible(ds)
    ensures r.Some? ==> |r.value.0| == |boomsFt|
  {
    if boomsFt == [] then Some(([], []))
    else
      var last := boomsFt[|boomsFt| - 1];
      match SweepOutcome(boomsFt[..|boomsFt| - 1], ds, azimuth)
      case None => None
      case Some(prev) =>
        match BoomOutcome(last, ds, azimuth)
        case None => None
        case Some(res) => Some((prev.0 + [res], prev.1 + BoomRows(last, ds, res.gainVsDetune, res.fbVsDetune)))
  }

  /** The boom-length sweep: the inner detune loop once per boom length, in order. */
  method BoomSweep(boomsFt: seq<real>, ds: seq<real>, azimuth: Layout -> seq<AzPoint>)
    returns (r: Option<(seq<BoomResult>, seq<SweepRow>)>)
    requires Admissible(ds)
    ensures r == SweepOutcome(boomsFt, ds, azimuth)
  {
    var results: seq<BoomResult> := [];
    var sweepTable: seq<SweepRow> := [];
    var b := 0;
    while b < |boomsFt|
      invariant 0 <= b <= |boomsFt|
      invariant SweepOutcome(boomsFt[..b], ds, azimuth) == Some((results, sweepTable))
    {
      assert boomsFt[..b + 1][..b] == boomsFt[..b];
      var boom := SweepDetunes(boomsFt[b], ds, azimuth);
      if boom.None? {
        SweepFailsFrom(boomsFt, b, ds, azimuth);
        return None;
      }
      results := results + [boom.value.0];
      sweepTable := sweepTable + boom.value.1;
      b := b + 1;
    }
    assert boomsFt[..b] == boomsFt;
    return Some((results, sweepTable));
  }

  /** A boom whose sweep fails, after booms that did not, fails the whole sweep. */
  lemma {:induction false} SweepFailsFrom(boomsFt: seq<real>, b: nat, ds: seq<real>, azimuth: Layout -> seq<AzPoint>)
    requires Admissible(ds) && b < |boomsFt|
    requires SweepOutcome(boomsFt[..b], ds, azimuth).Some? && BoomOutcome(boomsFt[b], ds, azimuth).None?
    ensures SweepOutcome(boomsFt, ds, azimuth).None?
    decreases |boomsFt|
  {
    var init := boomsFt[..|boomsFt| - 1];
    if b + 1 < |boomsFt| {
      assert init[..b] == boomsFt[..b];
      SweepFailsFrom(init, b, ds, azimuth);
    } else {
      assert init == boomsFt[..b];
    }
  }

  /** Where block b of a table of blocks of n rows starts: after b whole blocks. */
  function BlockStart(b: nat, n: nat): nat
  {
    if b == 0 then 0 else BlockStart(b - 1, n) + n
  }

  /** Block b starts at row b * n. */
  lemma {:induction false} BlockStartIsProduct(b: nat, n: nat)
    ensures BlockStart(b, n) == b * n
  {
    if b > 0 {
      BlockStartIsProduct(b - 1, n);
    }
  }

  /** Blocks start in order. */
  lemma {:induction false} BlockStartMonotone(b: nat, c: nat, n: nat)
    requires b <= c
    ensures BlockStart(b, n) <= BlockStart(c, n)
    decreases c - b
  {
    if b < c {
      BlockStartMonotone(b + 1, c, n);
    }
  }

  /**
   * Block b of `table` (rows b * |ds| to (b + 1) * |ds|, by
   * BlockStartIsProduct) holds the rows [boom_ft, detune, fwd, fb] of boom b,
   * one per detune in order, read from results[b].
   */
  ghost predicate Blocks(boomsFt: seq<real>, ds: seq<real>, results: seq<BoomResult>, table: seq<SweepRow>)
  {
    |results| == |boomsFt| && |table| == BlockStart(|boomsFt|, |ds|)
    && forall b | 0 <= b < |boomsFt| :: BlockHolds(boomsFt, ds, results, table, b)
  }

  /** Block b of `table` lies inside it and holds the rows of results[b]. */
  ghost predicate BlockHolds(boomsFt: seq<real>, ds: seq<real>, results: seq<BoomResult>, table: seq<SweepRow>, b: int)
    requires 0 <= b < |boomsFt| && |results| == |boomsFt|
  {
    |results[b].gainVsDetune| == |ds| && |results[b].fbVsDetune| == |ds|
    && BlockStart(b + 1, |ds|) <= |table|
    && table[BlockStart(b, |ds|)..BlockStart(b + 1, |ds|)]
       == BoomRows(boomsFt[b], ds, results[b].gainVsDetune, results[b].fbVsDetune)
  }

  /**
   * After the boom sweep, results[b] is boom b's own outcome and sweep_table
   * is laid out in blocks, one per boom length, in loop order.
   */
  lemma SweepTableLayout(boomsFt: seq<real>, ds: seq<real>, azimuth: Layout -> seq<AzPoint>)
    requires Admissible(ds)
    ensures SweepOutcome(boomsFt, ds, azimuth).Some? ==>
              var results := SweepOutcome(boomsFt, ds, azimuth).value.0;
              (forall b | 0 <= b < |boomsFt| :: BoomOutcome(boomsFt[b], ds, azimuth) == Some(results[b]))
              && Blocks(boomsFt, ds, results, SweepOutcome(boomsFt, ds, azimuth).value.1)
  {
    SweepResults(boomsFt, ds, azimuth);
    SweepBlocks(boomsFt, ds, azimuth);
  }

  /** results[b] is what the inner loop gives for boom b alone. */
  lemma {:induction false} SweepResults(boomsFt: seq<real>, ds: seq<real>, azimuth: Layout -> seq<AzPoint>)
    requires Admissible(ds)
    ensures SweepOutcome(boomsFt, ds, azimuth).Some? ==>
              forall b | 0 <= b < |boomsFt| ::
                BoomOutcome(boomsFt[b], ds, azimuth) == Some(SweepOutcome(boomsFt, ds, azimuth).value.0[b])
  {
    if boomsFt != [] && SweepOutcome(boomsFt, ds, azimuth).Some? {
      var last := |boomsFt| - 1;
      var init := boomsFt[..last];
      SweepResults(init, ds, azimuth);
      var results := SweepOutcome(boomsFt, ds, azimuth).value.0;
      assert results == SweepOutcome(init, ds, azimuth).value.0 + [BoomOutcome(boomsFt[last], ds, azimuth).value];
      forall b | 0 <= b < |boomsFt|
        ensures BoomOutcome(boomsFt[b], ds, azimuth) == Some(results[b])
      {
        if b < last {
          assert init[b] == boomsFt[b];
        }
      }
    }
  }

  /** sweep_table is the blocks of the booms' rows, in boom order. */
  lemma {:induction false} SweepBlocks(boomsFt: seq<real>, ds: seq<real>, azimuth: Layout -> seq<AzPoint>)
    requires Admissible(ds)
    ensures SweepOutcome(boomsFt, ds, azimuth).Some? ==>
              Blocks(boomsFt, ds, SweepOutcome(boomsFt, ds, azimuth).value.0, SweepOutcome(boomsFt, ds, azimuth).value.1)
  {
    if boomsFt != [] && SweepOutcome(boomsFt, ds, azimuth).Some? {
      var last := |boomsFt| - 1;
      var init := boomsFt[..last];
      SweepBlocks(init, ds, azimuth);
      var prev := SweepOutcome(init, ds, azimuth).value;
      var res := BoomOutcome(boomsFt[last], ds, azimuth).value;
      BlocksStep(boomsFt, ds, prev.0, prev.1, res);
    }
  }

  /** One more boom's rows, after the blocks of the earlier booms, keep the layout. */
  lemma BlocksStep(boomsFt: seq<real>, ds: seq<real>, results: seq<BoomResult>, table: seq<SweepRow>, res: BoomResult)
    requires boomsFt != [] && |res.gainVsDetune| == |ds| && |res.fbVsDetune| == |ds|
    requires Blocks(boomsFt[..|boomsFt| - 1], ds, results, table)
    ensures Blocks(boomsFt, ds, results + [res],
                   table + BoomRows(boomsFt[|boomsFt| - 1], ds, res.gainVsDetune, res.fbVsDetune))
  {
    var table' := table + BoomRows(boomsFt[|boomsFt| - 1], ds, res.gainVsDetune, res.fbVsDetune);
    assert |table'| == BlockStart(|boomsFt|, |ds|);
    forall b | 0 <= b < |boomsFt|
      ensures BlockHolds(boomsFt, ds, results + [res], table', b)
    {
      BlockAfterStep(boomsFt, ds, results, table, res, b);
    }
  }

  /** Block b of the extended table: an earlier boom's block is unchanged, the new one is the new rows. */
  lemma BlockAfterStep(boomsFt: seq<real>, ds: seq<real>, results: seq<BoomResult>, table: seq<SweepRow>,
                       res: BoomResult, b: nat)
    requires boomsFt != [] && |res.gainVsDetune| == |ds| && |res.fbVsDetune| == |ds|
    requires Blocks(boomsFt[..|boomsFt| - 1], ds, results, table)
    requires b < |boomsFt|
    ensures BlockHolds(boomsFt, ds, results + [res],
                       table + BoomRows(boomsFt[|boomsFt| - 1], ds, res.gainVsDetune, res.fbVsDetune), b)
  {
    var n := |ds|;
    var last := |boomsFt| - 1;
    var init := boomsFt[..last];
    var rows := BoomRows(boomsFt[last], ds, res.gainVsDetune, res.fbVsDetune);
    if b < last {
      assert BlockHolds(init, ds, results, table, b);
      assert init[b] == boomsFt[b] && (results + [res])[b] == results[b];
      BlockStartMonotone(b + 1, last, n);
      SliceOfPrefix(table, rows, BlockStart(b, n), BlockStart(b + 1, n));
    } else {
      assert (results + [res])[b] == res;
      SliceOfPrefix(table, rows, |table|, |table| + n);
    }
  }

  lemma SliceOfPrefix<T>(xs: seq<T>, ys: seq<T>, i: nat, j: nat)
    requires i <= j <= |xs| || (i == |xs| && j == |xs| + |ys|)
    ensures j <= |xs + ys|
    ensures (xs + ys)[i..j] == if j <= |xs| then xs[i..j] else ys
  {
    if j > |xs| {
      assert (xs + ys)[i..j] == ys;
    }
  }

  /**
   * Per boom length, best_gain_detune is the first detune whose forward
   * gain is the largest (None only when no gain exceeds -999), best_gain is
   * that gain, and likewise for F/B; each value is read from that detune's
   * own cut.
   */
  lemma BoomOutcomeBest(boomFt: real, ds: seq<real>, azimuth: Layout -> seq<AzPoint>)
    requires Admissible(ds)
    ensures BoomOutcome(boomFt, ds, azimuth).None? <==>
              exists i | 0 <= i < |ds| :: FrontBack(azimuth(YagiBeam(FreqMhz, ds[i], boomFt * FeetToMeters, Segments, Radius))).None?
    ensures BoomOutcome(boomFt, ds, azimuth).Some? ==>
              var res := BoomOutcome(boomFt, ds, azimuth).value;
              (forall i | 0 <= i < |ds| ::
                 FrontBack(azimuth(YagiBeam(FreqMhz, ds[i], boomFt * FeetToMeters, Segments, Radius)))
                 == Some((res.gainVsDetune[i], res.fbVsDetune[i])))
              && (res.bestGainDetune.None? <==> forall i | 0 <= i < |ds| :: res.gainVsDetune[i] <= SweepFloor)
              && (res.bestGainDetune.Some? ==> exists k | 0 <= k < |ds| ::
                    res.bestGainDetune.value == ds[k] && res.bestGain == res.gainVsDetune[k]
                    && IsFirstMax(res.gainVsDetune, SweepFloor, k))
              && (res.bestFbDetune.None? <==> forall i | 0 <= i < |ds| :: res.fbVsDetune[i] <= SweepFloor)
              && (res.bestFbDetune.Some? ==> exists k | 0 <= k < |ds| ::
                    res.bestFbDetune.value == ds[k] && res.bestFb == res.fbVsDetune[k]
                    && IsFirstMax(res.fbVsDetune, SweepFloor, k))
  {
    var cuts := BoomCuts(ds, boomFt * FeetToMeters, azimuth);
    ReadAllSpec(cuts);
    match ReadAll(cuts)
    case None =>
      var i :| 0 <= i < |cuts| && FrontBack(cuts[i]).None?;
    case Some(readings) =>
      BestIsFirstMax(readings.0, SweepFloor);
      BestIsFirstMax(readings.1, SweepFloor);
  }

  // ---------------------------------------------------------------------
  // Detune by spacing matrices

  /** detune_steps: 0 to 10 % in 1 % steps. */
  const DetuneSteps: seq<real> := Linspace(0.0, 0.1, 11)

  const SpacingFracs: seq<real> := [0.05, 0.075, 0.10, 0.15, 0.20, 0.25, 0.30, 0.35, 0.40]

  /** The model of one matrix cell: the reflector spacing_frac wavelengths behind the driven element. */
  function SpacingBeam(detune: real, frac: real): Layout
    requires 1.0 + detune != 0.0
  {
    YagiBeam(FreqMhz, detune, frac * WavelengthM, Segments, Radius)
  }

  /** The azimuth cuts of one matrix row: one model per spacing fraction, in order. */
  function RowCuts(detune: real, fracs: seq<real>, azimuth: Layout -> seq<AzPoint>): (cuts: seq<seq<AzPoint>>)
    requires 1.0 + detune != 0.0
    ensures |cuts| == |fracs|
    ensures forall j | 0 <= j < |fracs| ::
              cuts[j] == azimuth(SpacingBeam(detune, fracs[j]))
  {
    seq(|fracs|, j requires 0 <= j < |fracs| => azimuth(SpacingBeam(detune, fracs[j])))
  }

  /** What one sweep row reads: its forward gains and F/B ratios, or None when a cut lacks a point. */
  type RowReading = Option<(seq<real>, seq<real>)>

  /** Each detune's row, read across the spacing fractions. */
  function RowReadings(ds: seq<real>, fracs: seq<real>, azimuth: Layout -> seq<AzPoint>): (rows: seq<RowReading>)
    requires Admissible(ds)
    ensures |rows| == |ds|
    ensures forall i | 0 <= i < |ds| :: rows[i] == ReadAll(RowCuts(ds[i], fracs, azimuth))
  {
    seq(|ds|, i requires 0 <= i < |ds| => ReadAll(RowCuts(ds[i], fracs, azimuth)))
  }

  /**
   * Rows appended in order to fg_matrix and fb_matrix; None as soon as one
   * row fails, since that next(...) ends the whole sweep.
   */
  function Stack(rows: seq<RowReading>): (r: Option<(seq<seq<real>>, seq<seq<real>>)>)
    ensures r.Some? ==> |r.value.0| == |rows| && |r.value.1| == |rows|
  {
    if rows == [] then Some(([], []))
    else
      match Stack(rows[..|rows| - 1])
      case None => None
      case Some(prev) =>
        match rows[|rows| - 1]
        case None => None
        case Some(row) => Some((prev.0 + [row.0], prev.1 + [row.1]))
  }

  /** fg_matrix and fb_matrix after the rows of ds, or None when a cut lacks a point. */
  function Matrices(ds: seq<real>, fracs: seq<real>, azimuth: Layout -> seq<AzPoint>)
    : (r: Option<(seq<seq<real>>, seq<seq<real>>)>)
    requires Admissible(ds)
    ensures r.Some? ==> |r.value.0| == |ds| && |r.value.1| == |ds|
  {
    Stack(RowReadings(ds, fracs, azimuth))
  }

  /**
   * Stacking fails exactly when some row failed, and otherwise row i of
   * both matrices is row i's reading.
   */
  lemma {:induction false} StackSpec(rows: seq<RowReading>)
    ensures Stack(rows).None? <==> exists i | 0 <= i < |rows| :: rows[i].None?
    ensures Stack(rows).Some? ==>
              forall i | 0 <= i < |rows| :: rows[i] == Some((Stack(rows).value.0[i], Stack(rows).value.1[i]))
  {
    if rows != [] {
      var init := rows[..|rows| - 1];
      StackSpec(init);
      assert forall i | 0 <= i < |init| :: init[i] == rows[i];
    }
  }

  /** One more row stacked after a prefix: the step the sweep loop takes. */
  lemma StackSnoc(rows: seq<RowReading>, i: nat)
    requires i < |rows|
    ensures Stack(rows[..i + 1]) ==
              match Stack(rows[..i])
              case None => None
              case Some(prev) =>
                match rows[i]
                case None => None
                case Some(row) => Some((prev.0 + [row.0], prev.1 + [row.1]))
  {
    assert rows[..i + 1][..i] == rows[..i];
  }

  /**
   * The detune by spacing sweep: per detune, one row of forward gains and
   * one of F/B ratios across the spacing fractions.
   */
  method SpacingMatrices(ds: seq<real>, fracs: seq<real>, azimuth: Layout -> seq<AzPoint>)
    returns (r: Option<(seq<seq<real>>, seq<seq<real>>)>)
    requires Admissible(ds)
    ensures r == Matrices(ds, fracs, azimuth)
  {
    var halfDriven := ResonantDipoleLength(FreqMhz) / 2.0;
    var drivenElem := Element(0.0, -halfDriven, 0.0, 0.0, halfDriven, 0.0, Segments, Radius);
    ghost var rows := RowReadings(ds, fracs, azimuth);
    var fgMatrix: seq<seq<real>> := [];
    var fbMatrix: seq<seq<real>> := [];
    var i := 0;
    while i < |ds|
      invariant 0 <= i <= |ds|
      invariant Stack(rows[..i]) == Some((fgMatrix, fbMatrix))
    {
      var row := SpacingRow(ds[i], drivenElem, fracs, azimuth);
      if row.None? {
        StackSpec(rows);
        return None;
      }
      StackSnoc(rows, i);
      fgMatrix := fgMatrix + [row.value.0];
      fbMatrix := fbMatrix + [row.value.1];
      i := i + 1;
    }
    assert rows[..i] == rows;
    return Some((fgMatrix, fbMatrix));
  }

  /**
   * One row of the sweep: for each spacing fraction a model of the shared
   * driven element, its feedpoint at the centre segment, and a reflector
   * resonant at freq / (1 + detune) spacing_frac wavelengths behind it.
   */
  method SpacingRow(detune: real, drivenElem: Element, fracs: seq<real>, azimuth: Layout -> seq<AzPoint>)
    returns (r: RowReading)
    requires 1.0 + detune != 0.0
    requires drivenElem == Crosswise(0.0, ResonantDipoleLength(FreqMhz), Segments, Radius)
    ensures r == ReadAll(RowCuts(detune, fracs, azimuth))
  {
    var centerSeg := CentreSegment(Segments);
    var halfPassive := ResonantDipoleLength(FreqMhz / (1.0 + detune)) / 2.0;
    ghost var cuts := RowCuts(detune, fracs, azimuth);
    var fgRow: seq<real> := [];
    var fbRow: seq<real> := [];
    var j := 0;
    while j < |fracs|
      invariant 0 <= j <= |fracs|
      invariant ReadAll(cuts[..j]) == Some((fgRow, fbRow))
    {
      var spacingM := fracs[j] * WavelengthM;
      var model := new Model();
      model.AddElement(drivenElem);
      model.AddFeedpoint(0, centerSeg);
      model.AddElement(Element(-spacingM, -halfPassive, 0.0, -spacingM, halfPassive, 0.0, Segments, Radius));
      assert model.Contents() == SpacingBeam(detune, fracs[j]);
      var reading := FrontBack(azimuth(model.Contents()));
      if reading.None? {
        ReadAllFailsFrom(cuts, j);
        return None;
      }
      ReadAllSnoc(cuts, j);
      fgRow := fgRow + [reading.value.0];
      fbRow := fbRow + [reading.value.1];
      j := j + 1;
    }
    assert cuts[..j] == cuts;
    return Some((fgRow, fbRow));
  }

  /**
   * One row fails exactly when one of its cuts lacks a point; otherwise it
   * has one forward gain and one F/B per spacing fraction, each read from
   * that spacing's model.
   */
  lemma RowEntries(detune: real, fracs: seq<real>, azimuth: Layout -> seq<AzPoint>)
    requires 1.0 + detune != 0.0
    ensures ReadAll(RowCuts(detune, fracs, azimuth)).None? <==>
              exists j | 0 <= j < |fracs| :: FrontBack(azimuth(SpacingBeam(detune, fracs[j]))).None?
    ensures ReadAll(RowCuts(detune, fracs, azimuth)).Some? ==>
              var row := ReadAll(RowCuts(detune, fracs, azimuth)).value;
              |row.0| == |fracs| && |row.1| == |fracs|
              && forall j | 0 <= j < |fracs| :: CellReads(detune, fracs[j], azimuth, row.0[j], row.1[j])
  {
    var cuts := RowCuts(detune, fracs, azimuth);
    ReadAllSpec(cuts);
    if ReadAll(cuts).None? {
      var j :| 0 <= j < |cuts| && FrontBack(cuts[j]).None?;
      assert FrontBack(azimuth(SpacingBeam(detune, fracs[j]))).None?;
    }
  }

  /** The cell (i, j) a sweep reads: that model's forward gain and F/B, if both points are there. */
  ghost predicate CellReads(detune: real, frac: real, azimuth: Layout -> seq<AzPoint>, fwd: real, fb: real)
    requires 1.0 + detune != 0.0
  {
    FrontBack(azimuth(SpacingBeam(detune, frac))) == Some((fwd, fb))
  }

  /**
   * The sweep fails exactly when some row does, that is (RowEntries) when
   * some (detune, spacing) model's cut lacks a point.
   */
  lemma MatricesFail(ds: seq<real>, fracs: seq<real>, azimuth: Layout -> seq<AzPoint>)
    requires Admissible(ds)
    ensures Matrices(ds, fracs, azimuth).None? <==>
              exists i | 0 <= i < |ds| :: ReadAll(RowCuts(ds[i], fracs, azimuth)).None?
  {
    var rows := RowReadings(ds, fracs, azimuth);
    StackSpec(rows);
    if Stack(rows).None? {
      var i :| 0 <= i < |rows| && rows[i].None?;
      assert ReadAll(RowCuts(ds[i], fracs, azimuth)).None?;
    }
  }

  /**
   * fg and fb have one row per detune and one column per spacing fraction,
   * and cell (i, j) holds the forward gain and F/B of the model with detune
   * ds[i] and spacing fracs[j].
   */
  ghost predicate CellsRead(ds: seq<real>, fracs: seq<real>, azimuth: Layout -> seq<AzPoint>,
                            fg: seq<seq<real>>, fb: seq<seq<real>>)
    requires Admissible(ds)
  {
    |fg| == |ds| && |fb| == |ds|
    && forall i | 0 <= i < |ds| ::
         |fg[i]| == |fracs| && |fb[i]| == |fracs|
         && forall j | 0 <= j < |fracs| :: CellReads(ds[i], fracs[j], azimuth, fg[i][j], fb[i][j])
  }

  /** When the sweep succeeds, fg_matrix and fb_matrix are laid out as CellsRead says. */
  lemma MatrixEntries(ds: seq<real>, fracs: seq<real>, azimuth: Layout -> seq<AzPoint>)
    requires Admissible(ds)
    ensures Matrices(ds, fracs, azimuth).Some? ==>
              CellsRead(ds, fracs, azimuth, Matrices(ds, fracs, azimuth).value.0, Matrices(ds, fracs, azimuth).value.1)
  {
    var rows := RowReadings(ds, fracs, azimuth);
    StackSpec(rows);
    if Stack(rows).Some? {
      var fg := Stack(rows).value.0;
      var fb := Stack(rows).value.1;
      forall i | 0 <= i < |ds|
        ensures |fg[i]| == |fracs| && |fb[i]| == |fracs|
        ensures forall j | 0 <= j < |fracs| :: CellReads(ds[i], fracs[j], azimuth, fg[i][j], fb[i][j])
      {
        RowEntries(ds[i], fracs, azimuth);
        assert ReadAll(RowCuts(ds[i], fracs, azimuth)) == Some((fg[i], fb[i]));
      }
    }
  }

  // ---------------------------------------------------------------------
  // Column peaks and the bolded tables

  /** How many columns zip(*m) yields: the shortest row's length, none for no rows. */
  function MinWidth(m: seq<seq<real>>): (w: nat)
    ensures forall i | 0 <= i < |m| :: w <= |m[i]|
    ensures m != [] ==> exists i | 0 <= i < |m| :: w == |m[i]|
  {
    if m == [] then 0
    else if |m| == 1 then |m[0]|
    else
      var rest := MinWidth(m[1..]);
      assert forall i | 1 <= i < |m| :: m[1..][i - 1] == m[i];
      if |m[0]| <= rest then |m[0]| else rest
  }

  /** The largest value of column j. */
  function ColumnMax(m: seq<seq<real>>, j: nat): (peak: real)
    requires m != [] && forall i | 0 <= i < |m| :: j < |m[i]|
    ensures forall i | 0 <= i < |m| :: m[i][j] <= peak
    ensures exists i | 0 <= i < |m| :: m[i][j] == peak
  {
    if |m| == 1 then m[0][j]
    else
      assert forall i | 1 <= i < |m| :: m[1..][i - 1] == m[i];
      var rest := ColumnMax(m[1..], j);
      if m[0][j] >= rest then m[0][j] else rest
  }

  /**
   * The column peaks: one per column, each at least every value of its
   * column and equal to one of them.
   */
  function ColumnPeaks(m: seq<seq<real>>): (peaks: seq<real>)
    ensures |peaks| == MinWidth(m)
    ensures forall j | 0 <= j < |peaks| ::
              (forall i | 0 <= i < |m| :: m[i][j] <= peaks[j])
              && exists i | 0 <= i < |m| :: m[i][j] == peaks[j]
  {
    seq(MinWidth(m), j requires 0 <= j < MinWidth(m) => ColumnMax(m, j))
  }

  /** A cell: bold when within 1e-6 of its column peak, two decimals either way. */
  function Cell(val: real, peak: real): Text
  {
    if Abs(val - peak) < PeakTolerance then Bold(Fixed(val, 2)) else Fixed(val, 2)
  }

  /** The value cells of a row, each against its own column's peak. */
  function Cells(row: seq<real>, peaks: seq<real>): (cells: seq<Text>)
    requires |row| <= |peaks|
    ensures |cells| == |row|
  {
    seq(|row|, j requires 0 <= j < |row| => Cell(row[j], peaks[j]))
  }

  /** One table row: the detune in percent, the reflector length in wavelengths, then the cells. */
  function TableRow(detune: real, row: seq<real>, peaks: seq<real>): seq<Text>
    requires |row| <= |peaks|
  {
    [Fixed(detune * 100.0, 2), Fixed(0.5 * (1.0 + detune), 3)] + Cells(row, peaks)
  }

  /**
   * rows_fg / rows_fb: one row per detune step, each row's cells compared
   * with the peak of their column.
   */
  method PeakTable(ds: seq<real>, matrix: seq<seq<real>>, peaks: seq<real>) returns (rows: seq<seq<Text>>)
    requires |ds| <= |matrix|
    requires forall i | 0 <= i < |ds| :: |matrix[i]| <= |peaks|
    ensures |rows| == |ds|
    ensures forall i | 0 <= i < |ds| :: rows[i] == TableRow(ds[i], matrix[i], peaks)
  {
    rows := [];
    var i := 0;
    while i < |ds|
      invariant 0 <= i <= |ds|
      invariant |rows| == i
      invariant forall k | 0 <= k < i :: rows[k] == TableRow(ds[k], matrix[k], peaks)
    {
      var detune := ds[i];
      var reflLenWl := 0.5 * (1.0 + detune);
      var row := [Fixed(detune * 100.0, 2), Fixed(reflLenWl, 3)];
      var j := 0;
      while j < |matrix[i]|
        invariant 0 <= j <= |matrix[i]|
        invariant row == TableRow(detune, matrix[i][..j], peaks)
      {
        var val := matrix[i][j];
        if Abs(val - peaks[j]) < PeakTolerance {
          row := row + [Bold(Fixed(val, 2))];
        } else {
          row := row + [Fixed(val, 2)];
        }
        assert matrix[i][..j + 1] == matrix[i][..j] + [val];
        j := j + 1;
      }
      assert matrix[i][..j] == matrix[i];
      rows := rows + [row];
      i := i + 1;
    }
  }

  /**
   * In a table built against the column peaks, a cell is bold exactly when
   * its value is within 1e-6 below its column's maximum, every cell shows
   * its own value to two decimals, and every column has a bold cell: the one
   * holding the column's maximum.
   */
  lemma PeakCells(m: seq<seq<real>>)
    requires forall i | 0 <= i < |m| :: |m[i]| == MinWidth(m)
    ensures forall i, j | 0 <= i < |m| && 0 <= j < MinWidth(m) ::
              Cells(m[i], ColumnPeaks(m))[j].Bold? <==> ColumnPeaks(m)[j] - m[i][j] < PeakTolerance
    ensures forall i, j | 0 <= i < |m| && 0 <= j < MinWidth(m) ::
              Cells(m[i], ColumnPeaks(m))[j] == Fixed(m[i][j], 2)
              || Cells(m[i], ColumnPeaks(m))[j] == Bold(Fixed(m[i][j], 2))
    ensures forall j | 0 <= j < MinWidth(m) ::
              exists i | 0 <= i < |m| :: m[i][j] == ColumnPeaks(m)[j] && Cells(m[i], ColumnPeaks(m))[j].Bold?
  {
    var peaks := ColumnPeaks(m);
    forall i, j | 0 <= i < |m| && 0 <= j < MinWidth(m)
      ensures Cells(m[i], ColumnPeaks(m))[j].Bold? <==> ColumnPeaks(m)[j] - m[i][j] < PeakTolerance
      ensures Cells(m[i], ColumnPeaks(m))[j] == Fixed(m[i][j], 2)
              || Cells(m[i], ColumnPeaks(m))[j] == Bold(Fixed(m[i][j], 2))
    {
      PeakCell(m, i, j);
    }
    forall j | 0 <= j < MinWidth(m)
      ensures exists i | 0 <= i < |m| :: m[i][j] == peaks[j] && Cells(m[i], peaks)[j].Bold?
    {
      var i :| 0 <= i < |m| && m[i][j] == peaks[j];
      assert Cells(m[i], peaks)[j] == Cell(m[i][j], peaks[j]);
    }
  }

  lemma PeakCell(m: seq<seq<real>>, i: nat, j: nat)
    requires forall i | 0 <= i < |m| :: |m[i]| == MinWidth(m)
    requires i < |m| && j < MinWidth(m)
    ensures Cells(m[i], ColumnPeaks(m))[j].Bold? <==> ColumnPeaks(m)[j] - m[i][j] < PeakTolerance
    ensures Cells(m[i], ColumnPeaks(m))[j] == Fixed(m[i][j], 2)
            || Cells(m[i], ColumnPeaks(m))[j] == Bold(Fixed(m[i][j], 2))
  {
    var peaks := ColumnPeaks(m);
    assert Cells(m[i], peaks)[j] == Cell(m[i][j], peaks[j]);
    assert m[i][j] <= peaks[j];
  }

  /** The table rows hold the detune, the reflector length and then exactly the cells. */
  lemma TableRowCells(detune: real, row: seq<real>, peaks: seq<real>)
    requires |row| <= |peaks|
    ensures |TableRow(detune, row, peaks)| == 2 + |row|
    ensures TableRow(detune, row, peaks)[2..] == Cells(row, peaks)
    ensures ParseFloat(TableRow(detune, row, peaks)[1]) == Some(RoundTo(0.5 * (1.0 + detune), 3))
  {
    assert TableRow(detune, row, peaks)[2..] == Cells(row, peaks);
  }

  // ---------------------------------------------------------------------
  // The detune row chosen for each plotted spacing

  /**
   * The row lookup for column j: the first row whose column-j value is
   * within 1e-6 of the peak; None stands for the StopIteration when there is
   * none.
   */
  function FirstNearRow(m: seq<seq<real>>, j: nat, peak: real): (r: Option<nat>)
    requires forall i | 0 <= i < |m| :: j < |m[i]|
    ensures r.Some? ==> r.value < |m| && Abs(m[r.value][j] - peak) < PeakTolerance
    ensures r.Some? ==> forall i | 0 <= i < r.value :: Abs(m[i][j] - peak) >= PeakTolerance
    ensures r.None? ==> forall i | 0 <= i < |m| :: Abs(m[i][j] - peak) >= PeakTolerance
  {
    if m == [] then None
    else if Abs(m[0][j] - peak) < PeakTolerance then Some(0)
    else
      assert forall i | 1 <= i < |m| :: m[1..][i - 1] == m[i];
      match FirstNearRow(m[1..], j, peak)
      case None => None
      case Some(k) => Some(k + 1)
  }

  /**
   * Looked up against its column's peak, the row is always found, it is no
   * later than the first row holding the column maximum, and its value is
   * less than 1e-6 below that maximum.
   */
  lemma PeakRowFound(m: seq<seq<real>>, j: nat)
    requires forall i | 0 <= i < |m| :: |m[i]| == MinWidth(m)
    requires j < MinWidth(m)
    ensures FirstNearRow(m, j, ColumnPeaks(m)[j]).Some?
    ensures var k := FirstNearRow(m, j, ColumnPeaks(m)[j]).value;
            (forall i | 0 <= i < |m| && m[i][j] == ColumnPeaks(m)[j] :: k <= i)
            && ColumnPeaks(m)[j] - PeakTolerance < m[k][j] <= ColumnPeaks(m)[j]
  {
    var peak := ColumnPeaks(m)[j];
    var i :| 0 <= i < |m| && m[i][j] == peak;
    assert Abs(m[i][j] - peak) < PeakTolerance;
  }

  /**
   * The row the script picks for column j: the first whose value is within
   * 1e-6 of the column's maximum. Every earlier row is at least 1e-6 below
   * that maximum.
   */
  function PeakRow(m: seq<seq<real>>, j: nat): (k: nat)
    requires forall i | 0 <= i < |m| :: |m[i]| == MinWidth(m)
    requires j < MinWidth(m)
    ensures k < |m|
    ensures ColumnPeaks(m)[j] - PeakTolerance < m[k][j] <= ColumnPeaks(m)[j]
    ensures forall i | 0 <= i < k :: m[i][j] <= ColumnPeaks(m)[j] - PeakTolerance
  {
    PeakRowFound(m, j);
    FirstNearRow(m, j, ColumnPeaks(m)[j]).value
  }

  /** The detune steps of the rows picked for the listed columns. */
  function PeakDetunes(ds: seq<real>, m: seq<seq<real>>, idxSubset: seq<nat>): (r: seq<real>)
    requires |m| <= |ds|
    requires forall i | 0 <= i < |m| :: |m[i]| == MinWidth(m)
    requires forall k | 0 <= k < |idxSubset| :: idxSubset[k] < MinWidth(m)
    ensures |r| == |idxSubset|
    ensures forall k | 0 <= k < |idxSubset| :: r[k] == ds[PeakRow(m, idxSubset[k])]
  {
    seq(|idxSubset|, k requires 0 <= k < |idxSubset| => ds[PeakRow(m, idxSubset[k])])
  }

  /**
   * The loop over the plotted spacings: for each column index, the detune
   * step of the row picked for the column's gain peak and of the row picked
   * for its F/B peak.
   */
  method OptimalDetunes(ds: seq<real>, fg: seq<seq<real>>, fb: seq<seq<real>>, idxSubset: seq<nat>)
    returns (detuneGainList: seq<real>, detuneFbList: seq<real>)
    requires |fg| <= |ds| && |fb| <= |ds|
    requires forall i | 0 <= i < |fg| :: |fg[i]| == MinWidth(fg)
    requires forall i | 0 <= i < |fb| :: |fb[i]| == MinWidth(fb)
    requires forall k | 0 <= k < |idxSubset| :: idxSubset[k] < MinWidth(fg)
    requires forall k | 0 <= k < |idxSubset| :: idxSubset[k] < MinWidth(fb)
    ensures detuneGainList == PeakDetunes(ds, fg, idxSubset)
    ensures detuneFbList == PeakDetunes(ds, fb, idxSubset)
  {
    var fgPeaks := ColumnPeaks(fg);
    var fbPeaks := ColumnPeaks(fb);
    detuneGainList := [];
    detuneFbList := [];
    var k := 0;
    while k < |idxSubset|
      invariant 0 <= k <= |idxSubset|
      invariant detuneGainList == PeakDetunes(ds, fg, idxSubset[..k])
      invariant detuneFbList == PeakDetunes(ds, fb, idxSubset[..k])
    {
      var jIdx := idxSubset[k];
      PeakRowFound(fg, jIdx);
      PeakRowFound(fb, jIdx);
      var iDetuneGain := FirstNearRow(fg, jIdx, fgPeaks[jIdx]).value;
      detuneGainList := detuneGainList + [ds[iDetuneGain]];
      var iDetuneFb := FirstNearRow(fb, jIdx, fbPeaks[jIdx]).value;
      detuneFbList := detuneFbList + [ds[iDetuneFb]];
      k := k + 1;
      assert idxSubset[..k] == idxSubset[..k - 1] + [jIdx];
    }
    assert idxSubset[..k] == idxSubset;
  }

  /** The spacing fractions the script plots are the first five. */
  lemma ScriptSubset()
    ensures SpacingSubset(SpacingFracs) == [0.05, 0.075, 0.10, 0.15, 0.20]
  {
    var fracs := SpacingFracs;
    var rest := fracs[5..];
    assert rest == [0.25, 0.30, 0.35, 0.40];
    SubsetEmpty(rest);
    assert fracs[4..][1..] == rest;
    assert SpacingSubset(fracs[4..]) == [0.20];
    assert fracs[3..][1..] == fracs[4..];
    assert SpacingSubset(fracs[3..]) == [0.15, 0.20];
    assert fracs[2..][1..] == fracs[3..];
    assert SpacingSubset(fracs[2..]) == [0.10, 0.15, 0.20];
    assert fracs[1..][1..] == fracs[2..];
    assert SpacingSubset(fracs[1..]) == [0.075, 0.10, 0.15, 0.20];
  }

  /** They sit at positions 0 to 4, so idx_subset selects the first five matrix columns. */
  lemma ScriptIndices()
    ensures IndexSubset(SpacingFracs) == [0, 1, 2, 3, 4]
  {
    ScriptPlottedDistinct();
    LeadingColumns(SpacingFracs, 5);
    FirstFivePositions();
  }

  lemma FirstFivePositions()
    ensures Positions(5) == [0, 1, 2, 3, 4]
  {
    assert Positions(5)[4] == 4;
  }

  /** The five plotted fractions are all different. */
  lemma ScriptPlottedDistinct()
    ensures SpacingSubset(SpacingFracs) == SpacingFracs[..5]
    ensures forall s, t | 0 <= s < t < 5 :: SpacingFracs[s] != SpacingFracs[t]
  {
    ScriptSubset();
    var fracs := SpacingFracs;
    assert fracs[0] == 0.05 && fracs[1] == 0.075 && fracs[2] == 0.10 && fracs[3] == 0.15 && fracs[4] == 0.20;
    assert fracs[..5] == [0.05, 0.075, 0.10, 0.15, 0.20];
  }
}
