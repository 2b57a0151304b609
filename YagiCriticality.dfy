/**
 * 2_el_yagi_15m_tuning_criticality.py: the 15 m two-element Yagi builder, the
 * search for the reflector detune with the best front-to-back ratio at one
 * boom spacing, and the legend labels of the frequency offsets.
 */
module YagiCriticality {
  import opened Wrappers
  import opened Rendering
  import opened Antenna
  import opened Elements
  import opened Sweep

  const FreqMhz: real := 21.0
  const WavelengthM: real := SpeedOfLight / (FreqMhz * 1000000.0)
  const Segments: int := 21
  const Radius: real := 0.001

  /** The running best F/B starts here, so any finite ratio beats it. */
  const FbFloor: real := -1000000000.0

  /** DETUNE_FRACS: 0 to 10 % in 0.5 % steps. */
  const DetuneFracs: seq<real> := Linspace(0.0, 0.1, 21)

  const OffsetsKhz: seq<int> := [-100, -50, -25, 0, 25, 50, 100]

  /** One wavelength is two resonant half-wave lengths. */
  lemma WavelengthIsTwoHalfWaves()
    ensures WavelengthM == 2.0 * ResonantDipoleLength(FreqMhz)
  {
  }

  /** Every detune candidate lies in [0, 0.10], so every reflector length is defined. */
  lemma DetuneFracsRange()
    ensures |DetuneFracs| == 21 && DetuneFracs[0] == 0.0 && DetuneFracs[20] == 0.1
    ensures forall i | 0 <= i < |DetuneFracs| :: 0.0 <= DetuneFracs[i] <= 0.1
    ensures Admissible(DetuneFracs)
  {
    LinspaceBounds(0.0, 0.1, 21);
  }

  /**
   * The model build_two_element_model returns: driven element resonant at
   * 21 MHz, reflector resonant at 21 / (1 + detune) MHz, spacing_frac
   * wavelengths behind it.
   */
  function Beam(detune: real, spacingFrac: real): Layout
    requires 1.0 + detune != 0.0
  {
    TwoElementBeam(ResonantDipoleLength(FreqMhz), spacingFrac * WavelengthM,
                   ResonantDipoleLength(FreqMhz / (1.0 + detune)), Segments, Radius)
  }

  /** build_two_element_model: the driven element, its feedpoint, then the reflector. */
  method BuildTwoElementModel(detune: real, spacingFrac: real) returns (m: Model)
    requires 1.0 + detune != 0.0
    ensures fresh(m)
    ensures m.Contents() == Beam(detune, spacingFrac)
  {
    var halfDriven := ResonantDipoleLength(FreqMhz) / 2.0;
    var halfPassive := ResonantDipoleLength(FreqMhz / (1.0 + detune)) / 2.0;
    var spacing := spacingFrac * WavelengthM;
    m := new Model();
    m.AddElement(Element(0.0, -halfDriven, 0.0, 0.0, halfDriven, 0.0, Segments, Radius));
    m.AddFeedpoint(0, CentreSegment(Segments));
    m.AddElement(Element(-spacing, -halfPassive, 0.0, -spacing, halfPassive, 0.0, Segments, Radius));
  }

  /**
   * With a non-negative detune the reflector is at least as long as the
   * driven element, sits spacing_frac wavelengths behind it, and the single
   * feed is the driven element's middle segment, 11 of 21.
   */
  lemma BeamShape(detune: real, spacingFrac: real)
    requires detune >= 0.0
    ensures var l := Beam(detune, spacingFrac);
      Span(l.elements[1]) >= Span(l.elements[0]) == ResonantDipoleLength(FreqMhz)
      && l.elements[0].x1 - l.elements[1].x1 == spacingFrac * WavelengthM
      && l.feedpoints == [Feedpoint(0, 11)]
  {
    DetunedNotShorter(FreqMhz, detune);
    TwoElementGeometry(ResonantDipoleLength(FreqMhz), spacingFrac * WavelengthM,
                       ResonantDipoleLength(FreqMhz / (1.0 + detune)), Segments, Radius);
  }

  // ---------------------------------------------------------------------
  // find_best_fb_detune

  /** The azimuth cut the solver gives for each candidate's model, in candidate order. */
  function Cuts(ds: seq<real>, spacingFrac: real, azimuth: Layout -> seq<AzPoint>): (cuts: seq<seq<AzPoint>>)
    requires Admissible(ds)
    ensures |cuts| == |ds|
    ensures forall i | 0 <= i < |ds| :: cuts[i] == azimuth(Beam(ds[i], spacingFrac))
  {
    seq(|ds|, i requires 0 <= i < |ds| => azimuth(Beam(ds[i], spacingFrac)))
  }

  /**
   * The detune a search over the candidates ds returns: the first one with
   * the best F/B, 0.0 when none beats the floor, None when a cut lacks a point.
   */
  function ChosenDetune(ds: seq<real>, spacingFrac: real, azimuth: Layout -> seq<AzPoint>): Option<real>
    requires Admissible(ds)
  {
    match ReadAll(Cuts(ds, spacingFrac, azimuth))
    case None => None
    case Some(readings) =>
      match Best(readings.1, FbFloor)
      case None => Some(0.0)
      case Some(k) => Some(ds[k])
  }

  /**
   * find_best_fb_detune: one model and one azimuth cut per detune candidate,
   * keeping the first candidate whose F/B strictly beats the best so far.
   */
  method FindBestFbDetune(spacingFrac: real, azimuth: Layout -> seq<AzPoint>) returns (r: Option<real>)
    ensures r == ChosenDetune(DetuneFracs, spacingFrac, azimuth)
  {
    DetuneFracsRange();
    ghost var cuts := Cuts(DetuneFracs, spacingFrac, azimuth);
    var bestDet := 0.0;
    var bestFb := FbFloor;
    ghost var fwds: seq<real> := [];
    ghost var fbs: seq<real> := [];
    var i := 0;
    while i < |DetuneFracs|
      invariant 0 <= i <= |DetuneFracs|
      invariant ReadAll(cuts[..i]) == Some((fwds, fbs))
      invariant bestFb == BestValue(fbs, FbFloor)
      invariant bestDet == match Best(fbs, FbFloor) case None => 0.0 case Some(k) => DetuneFracs[k]
    {
      var det := DetuneFracs[i];
      var model := BuildTwoElementModel(det, spacingFrac);
      var azPat := azimuth(model.Contents());
      var reading := FrontBack(azPat);
      if reading.None? {
        ReadAllFailsFrom(cuts, i);
        return None;
      }
      var fb := reading.value.1;
      ReadAllSnoc(cuts, i);
      BestSnoc(fbs, fb, FbFloor);
      if fb > bestFb {
        bestFb := fb;
        bestDet := det;
      }
      fwds := fwds + [reading.value.0];
      fbs := fbs + [fb];
      i := i + 1;
    }
    assert cuts[..i] == cuts;
    return Some(bestDet);
  }

  /**
   * What find_best_fb_detune promises: it fails only when some candidate's
   * cut lacks a point; otherwise it returns the initial 0.0 when no F/B
   * exceeds -1e9, and else a candidate whose F/B is at least every other
   * candidate's and strictly above every earlier candidate's.
   */
  lemma ChosenDetuneIsBest(ds: seq<real>, spacingFrac: real, azimuth: Layout -> seq<AzPoint>)
    requires Admissible(ds)
    ensures ChosenDetune(ds, spacingFrac, azimuth).None? <==>
              exists i | 0 <= i < |ds| :: FrontBack(azimuth(Beam(ds[i], spacingFrac))).None?
    ensures ChosenDetune(ds, spacingFrac, azimuth).Some? ==>
              var fbs := ReadAll(Cuts(ds, spacingFrac, azimuth)).value.1;
              var d := ChosenDetune(ds, spacingFrac, azimuth).value;
              (d == 0.0 && forall j | 0 <= j < |fbs| :: fbs[j] <= FbFloor)
              || exists k | 0 <= k < |ds| :: d == ds[k] && ReadsFb(d, spacingFrac, azimuth, fbs[k])
                   && fbs[k] > FbFloor
                   && (forall j | 0 <= j < |fbs| :: fbs[j] <= fbs[k])
                   && (forall j | 0 <= j < k :: fbs[j] < fbs[k])
  {
    var cuts := Cuts(ds, spacingFrac, azimuth);
    ReadAllSpec(cuts);
    match ReadAll(cuts)
    case None =>
      var i :| 0 <= i < |cuts| && FrontBack(cuts[i]).None?;
      assert FrontBack(azimuth(Beam(ds[i], spacingFrac))).None?;
    case Some(readings) =>
      BestIsFirstMax(readings.1, FbFloor);
      match Best(readings.1, FbFloor)
      case None =>
      case Some(k) =>
        assert IsFirstMax(readings.1, FbFloor, k);
        assert FrontBack(cuts[k]) == Some((readings.0[k], readings.1[k]));
        assert ReadsFb(ds[k], spacingFrac, azimuth, readings.1[k]);
  }

  /** The F/B ratio read for detune d, when both cut points are present. */
  ghost predicate ReadsFb(d: real, spacingFrac: real, azimuth: Layout -> seq<AzPoint>, fb: real)
    requires 1.0 + d != 0.0
  {
    FrontBack(azimuth(Beam(d, spacingFrac))).Some? && FrontBack(azimuth(Beam(d, spacingFrac))).value.1 == fb
  }

  // ---------------------------------------------------------------------
  // Legend labels

  /** The legend label of an offset: the integer offset followed by " kHz", with 0 spelled out on its own. */
  function OffsetLabel(off: int): string
  {
    if off != 0 then IntToString(off) + " kHz" else "0 kHz"
  }

  function OffsetLabels(offs: seq<int>): (labels: seq<string>)
    ensures |labels| == |offs|
    ensures forall i | 0 <= i < |offs| :: labels[i] == OffsetLabel(offs[i])
  {
    seq(|offs|, i requires 0 <= i < |offs| => OffsetLabel(offs[i]))
  }

  /** The special case for 0 prints what the general case would: every label is "<off> kHz". */
  lemma OffsetLabelUniform(off: int)
    ensures OffsetLabel(off) == IntToString(off) + " kHz"
  {
    if off == 0 {
      assert NatToString(0) == "0";
    }
  }

  /** Distinct offsets get distinct labels, so no two legend entries coincide. */
  lemma OffsetLabelsDistinct(offs: seq<int>)
    requires forall i, j | 0 <= i < j < |offs| :: offs[i] != offs[j]
    ensures forall i, j | 0 <= i < j < |offs| :: OffsetLabels(offs)[i] != OffsetLabels(offs)[j]
  {
    forall i, j | 0 <= i < j < |offs|
      ensures OffsetLabels(offs)[i] != OffsetLabels(offs)[j]
    {
      var a, b := offs[i], offs[j];
      OffsetLabelUniform(a);
      OffsetLabelUniform(b);
      if IntToString(a) + " kHz" == IntToString(b) + " kHz" {
        SuffixCancels(IntToString(a), IntToString(b), " kHz");
        IntToStringInjective(a, b);
      }
    }
  }

  lemma SuffixCancels(x: string, y: string, t: string)
    requires x + t == y + t
    ensures x == y
  {
    assert |x| == |y|;
    assert forall k | 0 <= k < |x| :: x[k] == (x + t)[k] == (y + t)[k] == y[k];
  }

  /** The seven legend labels of the script. */
  lemma ScriptLabels()
    ensures OffsetLabels(OffsetsKhz)[3] == "0 kHz"
    ensures |OffsetLabels(OffsetsKhz)| == 7
    ensures forall i, j | 0 <= i < j < 7 :: OffsetLabels(OffsetsKhz)[i] != OffsetLabels(OffsetsKhz)[j]
  {
    OffsetLabelsDistinct(OffsetsKhz);
  }
}
