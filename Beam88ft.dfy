/**
 * 2_el_beam_88ft.py: the 40 m two-element beam with an 88 ft driven element
 * and a reflector cut for 7.1 MHz then lengthened by a detune fraction, the
 * series compensation chosen from the feedpoint reactance, and the two
 * table loops of the script: feedpoint impedance per case at 7.1 and 3.5 MHz,
 * and forward gain and F/B per case at 7.1 MHz.
 *
 * feet_to_meters is a parameter here: the library defining it is not part
 * of this model.  The solver is a pair of function parameters.
 */
module Beam88ft {
  import opened Wrappers
  import opened Rendering
  import opened Antenna
  import opened Elements
  import opened Sweep

  const DrivenLengthFt: real := 88.0
  const SpacingFt: real := 20.0
  const ReflectorFreqMhz: real := 7.1
  const Segments: int := 21
  const Radius: real := 0.001

  /**
   * The model build_two_element_beam_88ft returns: the driven element of the
   * given length at x = 0, its feedpoint, then the reflector, the resonant
   * length at the reflector frequency times 1 + detune, spacing_ft behind it.
   */
  function Beam(feetToMeters: real -> real, detune: real, drivenLengthFt: real, spacingFt: real,
                reflectorFreqMhz: real, segments: int, radius: real): Layout
    requires reflectorFreqMhz != 0.0
  {
    TwoElementBeam(feetToMeters(drivenLengthFt), feetToMeters(spacingFt),
                   ResonantDipoleLength(reflectorFreqMhz) * (1.0 + detune), segments, radius)
  }

  /** build_two_element_beam_88ft: the driven element, its feedpoint, then the reflector. */
  method BuildTwoElementBeam88ft(feetToMeters: real -> real, detune: real, drivenLengthFt: real, spacingFt: real,
                                 reflectorFreqMhz: real, segments: int, radius: real)
    returns (m: Model)
    requires reflectorFreqMhz != 0.0
    ensures fresh(m)
    ensures m.Contents() == Beam(feetToMeters, detune, drivenLengthFt, spacingFt, reflectorFreqMhz, segments, radius)
  {
    var spacingM := feetToMeters(spacingFt);
    var drivenLengthM := feetToMeters(drivenLengthFt);
    var halfDriven := drivenLengthM / 2.0;
    var baseReflectorLength := ResonantDipoleLength(reflectorFreqMhz);
    var detunedReflectorLength := baseReflectorLength * (1.0 + detune);
    var halfReflector := detunedReflectorLength / 2.0;
    m := new Model();
    m.AddElement(Element(0.0, -halfDriven, 0.0, 0.0, halfDriven, 0.0, segments, radius));
    var centerSeg := CentreSegment(segments);
    m.AddFeedpoint(0, centerSeg);
    m.AddElement(Element(-spacingM, -halfReflector, 0.0, -spacingM, halfReflector, 0.0, segments, radius));
    ghost var l := Beam(feetToMeters, detune, drivenLengthFt, spacingFt, reflectorFreqMhz, segments, radius);
    assert m.elements[0] == l.elements[0];
    assert m.elements[1] == l.elements[1];
    assert m.feedpoints == l.feedpoints;
  }

  /**
   * The beam's geometry: two symmetric elements at height 0, the driven one
   * (index 0) at x = 0 with the converted driven length, the reflector
   * (index 1) the converted spacing behind it with the detuned resonant
   * length, both with the given segments and radius, and one feedpoint, on
   * the driven element, at its centre segment.
   */
  lemma BeamGeometry(feetToMeters: real -> real, detune: real, drivenLengthFt: real, spacingFt: real,
                     reflectorFreqMhz: real, segments: int, radius: real)
    requires reflectorFreqMhz != 0.0
    ensures var l := Beam(feetToMeters, detune, drivenLengthFt, spacingFt, reflectorFreqMhz, segments, radius);
      |l.elements| == 2 && Symmetric(l.elements[0]) && Symmetric(l.elements[1])
      && l.elements[0].x1 == 0.0 && Span(l.elements[0]) == feetToMeters(drivenLengthFt)
      && l.elements[1].x1 == -feetToMeters(spacingFt)
      && Span(l.elements[1]) == ResonantDipoleLength(reflectorFreqMhz) * (1.0 + detune)
      && l.elements[0].z1 == 0.0 && l.elements[1].z1 == 0.0
      && (forall e | e in l.elements :: e.segments == segments && e.radius == radius)
      && l.feedpoints == [Feedpoint(0, CentreSegment(segments))]
  {
    TwoElementGeometry(feetToMeters(drivenLengthFt), feetToMeters(spacingFt),
                       ResonantDipoleLength(reflectorFreqMhz) * (1.0 + detune), segments, radius);
  }

  /**
   * Scaling the resonant length by 1 + detune is the same as resonating the
   * reflector at reflector_freq / (1 + detune), the rule of the 15 m
   * builders; for a non-negative detune the reflector is at least the
   * resonant length.
   */
  lemma ReflectorIsDetunedResonance(feetToMeters: real -> real, detune: real, drivenLengthFt: real, spacingFt: real,
                                    reflectorFreqMhz: real, segments: int, radius: real)
    requires reflectorFreqMhz > 0.0 && 1.0 + detune != 0.0
    ensures var l := Beam(feetToMeters, detune, drivenLengthFt, spacingFt, reflectorFreqMhz, segments, radius);
      Span(l.elements[1]) == ResonantDipoleLength(reflectorFreqMhz / (1.0 + detune))
      && (detune >= 0.0 ==> Span(l.elements[1]) >= ResonantDipoleLength(reflectorFreqMhz))
  {
    ResonantLengthScaling(reflectorFreqMhz, detune);
    BeamGeometry(feetToMeters, detune, drivenLengthFt, spacingFt, reflectorFreqMhz, segments, radius);
    if detune >= 0.0 {
      DetunedNotShorter(reflectorFreqMhz, detune);
    }
  }

  /** With the script's defaults the feed is segment 11 of 21 and the reflector is 20 ft behind. */
  lemma DefaultBeam(feetToMeters: real -> real, detune: real)
    ensures var l := Beam(feetToMeters, detune, DrivenLengthFt, SpacingFt, ReflectorFreqMhz, Segments, Radius);
      l.feedpoints == [Feedpoint(0, 11)] && l.elements[0].x1 - l.elements[1].x1 == feetToMeters(20.0)
  {
    CentreOfTwentyOne();
  }

  // ---------------------------------------------------------------------
  // Series compensation

  /**
   * The series part that cancels a feedpoint reactance X: a capacitor when X
   * is positive, otherwise (X = 0 included) an inductor.  Each carries the
   * reactance magnitude its value is computed from.
   */
  datatype Compensation = Capacitor(reactance: real) | Inductor(reactance: real)

  /** The branch `if X > 0` of the impedance loop, for either frequency. */
  function Compensate(x: real): Compensation
  {
    if x > 0.0 then Capacitor(x) else Inductor(Abs(x))
  }

  /** The reactance the series part adds: a capacitor's is negative, an inductor's is not. */
  function AddedReactance(c: Compensation): real
  {
    match c
    case Capacitor(r) => -r
    case Inductor(r) => r
  }

  /**
   * A capacitor is chosen exactly when X > 0, an inductor otherwise, and the
   * chosen part cancels the reactance: X plus what it adds is zero.
   */
  lemma CompensationCancels(x: real)
    ensures Compensate(x).Capacitor? <==> x > 0.0
    ensures Compensate(x).Inductor? <==> x <= 0.0
    ensures Compensate(x).reactance >= 0.0
    ensures x + AddedReactance(Compensate(x)) == 0.0
  {
  }

  // ---------------------------------------------------------------------
  // The cases and the models the script builds for them

  /** One entry of `cases`: its label and its detune, None for the dipole alone. */
  datatype Case = Case(name: string, detune: Option<real>)

  const Cases: seq<Case> := [Case("No reflector", None), Case("3%", Some(0.03)), Case("4%", Some(0.04)),
                             Case("5%", Some(0.05)), Case("5.5%", Some(0.055)), Case("6%", Some(0.06))]

  /** What a case hands the solver: the 88 ft dipole of build_dipole_model, or the beam. */
  datatype CaseModel = DipoleOnly(dipole: AntennaModel) | TwoElement(beam: Layout)

  /** The model built for a case, with the script's segments and radius. */
  function ModelFor(feetToMeters: real -> real, c: Case): CaseModel
  {
    match c.detune
    case None => DipoleOnly(BuildDipoleModel(feetToMeters(DrivenLengthFt), Segments, Radius))
    case Some(d) => TwoElement(Beam(feetToMeters, d, DrivenLengthFt, SpacingFt, ReflectorFreqMhz, Segments, Radius))
  }

  /** The loop body's first step: the dipole for a case without a detune, the beam otherwise. */
  method BuildCaseModel(feetToMeters: real -> real, c: Case) returns (m: CaseModel)
    ensures m == ModelFor(feetToMeters, c)
  {
    if c.detune.None? {
      var drivenLengthM := feetToMeters(DrivenLengthFt);
      m := DipoleOnly(BuildDipoleModel(drivenLengthM, Segments, Radius));
    } else {
      var beam := BuildTwoElementBeam88ft(feetToMeters, c.detune.value, DrivenLengthFt, SpacingFt,
                                          ReflectorFreqMhz, Segments, Radius);
      m := TwoElement(beam.Contents());
    }
  }

  /** The dipole case is a single wire; every other case is a two-element beam. */
  lemma CaseModels(feetToMeters: real -> real)
    ensures ModelFor(feetToMeters, Cases[0]).DipoleOnly?
    ensures |ModelFor(feetToMeters, Cases[0]).dipole.wires| == 1
    ensures forall i | 1 <= i < |Cases| :: ModelFor(feetToMeters, Cases[i]).TwoElement?
                                           && |ModelFor(feetToMeters, Cases[i]).beam.elements| == 2
  {
    forall i | 1 <= i < |Cases|
      ensures ModelFor(feetToMeters, Cases[i]).TwoElement? && |ModelFor(feetToMeters, Cases[i]).beam.elements| == 2
    {
      assert Cases[i].detune.Some?;
    }
  }

  // ---------------------------------------------------------------------
  // Feedpoint impedance tables

  /** One row of imp7_rows or imp3_rows: the label, R and X to two places, and the compensation. */
  datatype ImpedanceRow = ImpedanceRow(name: string, r: Text, x: Text, compensation: Compensation)

  function ImpedanceRowOf(name: string, rx: (real, real)): ImpedanceRow
  {
    ImpedanceRow(name, Fixed(rx.0, 2), Fixed(rx.1, 2), Compensate(rx.1))
  }

  /**
   * The rows of one frequency's table: per case in order, the (R, X) the
   * solver gives for that case's model at that frequency.
   */
  function ImpedanceRows(feetToMeters: real -> real, cases: seq<Case>,
                         impedance: (CaseModel, real) -> (real, real), freqMhz: real): (rows: seq<ImpedanceRow>)
    ensures |rows| == |cases|
    ensures forall i | 0 <= i < |cases| ::
              rows[i] == ImpedanceRowOf(cases[i].name, impedance(ModelFor(feetToMeters, cases[i]), freqMhz))
  {
    seq(|cases|, i requires 0 <= i < |cases| =>
      ImpedanceRowOf(cases[i].name, impedance(ModelFor(feetToMeters, cases[i]), freqMhz)))
  }

  /**
   * The impedance loop: per case, the model, its impedance at 7.1 and at
   * 3.5 MHz, the compensation for each, and one row in each table.
   */
  method ImpedanceTables(feetToMeters: real -> real, cases: seq<Case>, impedance: (CaseModel, real) -> (real, real))
    returns (imp7Rows: seq<ImpedanceRow>, imp3Rows: seq<ImpedanceRow>)
    ensures imp7Rows == ImpedanceRows(feetToMeters, cases, impedance, 7.1)
    ensures imp3Rows == ImpedanceRows(feetToMeters, cases, impedance, 3.5)
  {
    imp7Rows := [];
    imp3Rows := [];
    var i := 0;
    while i < |cases|
      invariant 0 <= i <= |cases|
      invariant imp7Rows == ImpedanceRows(feetToMeters, cases[..i], impedance, 7.1)
      invariant imp3Rows == ImpedanceRows(feetToMeters, cases[..i], impedance, 3.5)
    {
      var model := BuildCaseModel(feetToMeters, cases[i]);
      var (r7, x7) := impedance(model, 7.1);
      var (r3, x3) := impedance(model, 3.5);
      var match7 := Compensate(x7);
      var match3 := Compensate(x3);
      ImpedanceRowsSnoc(feetToMeters, cases, impedance, 7.1, i);
      ImpedanceRowsSnoc(feetToMeters, cases, impedance, 3.5, i);
      imp7Rows := imp7Rows + [ImpedanceRow(cases[i].name, Fixed(r7, 2), Fixed(x7, 2), match7)];
      imp3Rows := imp3Rows + [ImpedanceRow(cases[i].name, Fixed(r3, 2), Fixed(x3, 2), match3)];
      i := i + 1;
    }
    assert cases[..i] == cases;
  }

  lemma ImpedanceRowsSnoc(feetToMeters: real -> real, cases: seq<Case>,
                          impedance: (CaseModel, real) -> (real, real), freqMhz: real, i: nat)
    requires i < |cases|
    ensures ImpedanceRows(feetToMeters, cases[..i + 1], impedance, freqMhz)
            == ImpedanceRows(feetToMeters, cases[..i], impedance, freqMhz)
               + [ImpedanceRowOf(cases[i].name, impedance(ModelFor(feetToMeters, cases[i]), freqMhz))]
  {
  }

  /**
   * Row i of a table is case i's: its label, its resistance and reactance
   * to two places, and a capacitor exactly when that reactance is positive,
   * which cancels it.
   */
  lemma ImpedanceTableRows(feetToMeters: real -> real, cases: seq<Case>,
                           impedance: (CaseModel, real) -> (real, real), freqMhz: real, i: nat)
    requires i < |cases|
    ensures var row := ImpedanceRows(feetToMeters, cases, impedance, freqMhz)[i];
      var rx := impedance(ModelFor(feetToMeters, cases[i]), freqMhz);
      row.name == cases[i].name && row.r == Fixed(rx.0, 2) && row.x == Fixed(rx.1, 2)
      && (row.compensation.Capacitor? <==> rx.1 > 0.0)
      && rx.1 + AddedReactance(row.compensation) == 0.0
  {
    CompensationCancels(impedance(ModelFor(feetToMeters, cases[i]), freqMhz).1);
  }

  // ---------------------------------------------------------------------
  // Forward gain and front-to-back table

  /** One row of fgfb_rows: the label, the forward gain and the F/B, each to two places. */
  datatype FgFbRow = FgFbRow(name: string, fwd: Text, fb: Text)

  /** The azimuth cut at 7.1 MHz of each case's model, in case order. */
  function CaseCuts(feetToMeters: real -> real, cases: seq<Case>, azimuth: CaseModel -> seq<AzPoint>)
    : (cuts: seq<seq<AzPoint>>)
    ensures |cuts| == |cases|
    ensures forall i | 0 <= i < |cases| :: cuts[i] == azimuth(ModelFor(feetToMeters, cases[i]))
  {
    seq(|cases|, i requires 0 <= i < |cases| => azimuth(ModelFor(feetToMeters, cases[i])))
  }

  function FgFbRows(cases: seq<Case>, fwds: seq<real>, fbs: seq<real>): seq<FgFbRow>
    requires |fwds| == |cases| && |fbs| == |cases|
  {
    seq(|cases|, i requires 0 <= i < |cases| => FgFbRow(cases[i].name, Fixed(fwds[i], 2), Fixed(fbs[i], 2)))
  }

  /** fgfb_rows after the loop, or None when a cut lacks its 0 or 180 degree point. */
  function FgFbOutcome(feetToMeters: real -> real, cases: seq<Case>, azimuth: CaseModel -> seq<AzPoint>)
    : Option<seq<FgFbRow>>
  {
    match ReadAll(CaseCuts(feetToMeters, cases, azimuth))
    case None => None
    case Some(readings) => Some(FgFbRows(cases, readings.0, readings.1))
  }

  /**
   * The forward gain and F/B loop: per case, the model, its azimuth cut, the
   * first gain near 0 and near 180 degrees, and one row.
   */
  method FgFbTable(feetToMeters: real -> real, cases: seq<Case>, azimuth: CaseModel -> seq<AzPoint>)
    returns (r: Option<seq<FgFbRow>>)
    ensures r == FgFbOutcome(feetToMeters, cases, azimuth)
  {
    ghost var cuts := CaseCuts(feetToMeters, cases, azimuth);
    ghost var fwds: seq<real> := [];
    ghost var fbs: seq<real> := [];
    var rows: seq<FgFbRow> := [];
    var i := 0;
    while i < |cases|
      invariant 0 <= i <= |cases|
      invariant ReadAll(cuts[..i]) == Some((fwds, fbs))
      invariant rows == FgFbRows(cases[..i], fwds, fbs)
    {
      var model := BuildCaseModel(feetToMeters, cases[i]);
      var azRes := azimuth(model);
      var fwdGain := GainAt(azRes, 0.0);
      if fwdGain.None? {
        ReadAllFailsFrom(cuts, i);
        return None;
      }
      var backGain := GainAt(azRes, 180.0);
      if backGain.None? {
        ReadAllFailsFrom(cuts, i);
        return None;
      }
      ReadAllSnoc(cuts, i);
      FgFbRowsSnoc(cases, i, fwds, fbs, fwdGain.value, fwdGain.value - backGain.value);
      rows := rows + [FgFbRow(cases[i].name, Fixed(fwdGain.value, 2), Fixed(fwdGain.value - backGain.value, 2))];
      fwds := fwds + [fwdGain.value];
      fbs := fbs + [fwdGain.value - backGain.value];
      i := i + 1;
    }
    assert cuts[..i] == cuts;
    assert cases[..i] == cases;
    return Some(rows);
  }

  lemma FgFbRowsSnoc(cases: seq<Case>, i: nat, fwds: seq<real>, fbs: seq<real>, fwd: real, fb: real)
    requires i < |cases| && |fwds| == i && |fbs| == i
    ensures FgFbRows(cases[..i + 1], fwds + [fwd], fbs + [fb])
            == FgFbRows(cases[..i], fwds, fbs) + [FgFbRow(cases[i].name, Fixed(fwd, 2), Fixed(fb, 2))]
  {
  }

  /**
   * The table fails exactly when some case's cut has no point near 0 or
   * near 180 degrees; otherwise row i is case i's label, the first gain near
   * 0 degrees, and that gain minus the first gain near 180 degrees.
   */
  lemma FgFbTableReads(feetToMeters: real -> real, cases: seq<Case>, azimuth: CaseModel -> seq<AzPoint>)
    ensures FgFbOutcome(feetToMeters, cases, azimuth).None? <==>
              exists i | 0 <= i < |cases| ::
                GainAt(azimuth(ModelFor(feetToMeters, cases[i])), 0.0).None?
                || GainAt(azimuth(ModelFor(feetToMeters, cases[i])), 180.0).None?
    ensures FgFbOutcome(feetToMeters, cases, azimuth).Some? ==>
              var rows := FgFbOutcome(feetToMeters, cases, azimuth).value;
              |rows| == |cases|
              && forall i | 0 <= i < |cases| ::
                   var cut := azimuth(ModelFor(feetToMeters, cases[i]));
                   rows[i] == FgFbRow(cases[i].name, Fixed(GainAt(cut, 0.0).value, 2),
                                      Fixed(GainAt(cut, 0.0).value - GainAt(cut, 180.0).value, 2))
  {
    var cuts := CaseCuts(feetToMeters, cases, azimuth);
    ReadAllSpec(cuts);
    if ReadAll(cuts).None? {
      var i :| 0 <= i < |cuts| && FrontBack(cuts[i]).None?;
      assert cuts[i] == azimuth(ModelFor(feetToMeters, cases[i]));
    } else {
      var readings := ReadAll(cuts).value;
      forall i | 0 <= i < |cases|
        ensures var cut := azimuth(ModelFor(feetToMeters, cases[i]));
          FgFbRows(cases, readings.0, readings.1)[i]
          == FgFbRow(cases[i].name, Fixed(GainAt(cut, 0.0).value, 2),
                     Fixed(GainAt(cut, 0.0).value - GainAt(cut, 180.0).value, 2))
      {
        assert FrontBack(cuts[i]) == Some((readings.0[i], readings.1[i]));
      }
    }
  }
}
