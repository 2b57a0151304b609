/**
 * antenna_model.py: the wire model the solver is given, the centre-fed dipole
 * builder, the half-wave length formula, and the solver command line built by
 * run_pymininec (everything before the process is started).
 */
module Antenna {
  import opened Wrappers
  import opened Rendering

  /**
   * One wire record (a dict with keys segments, x1, y1, z1, x2, y2, z2, radius).
   * Each coordinate field holds the text str() gives for the value stored
   * under that key; only z1 and z2 are ever read back as numbers.
   */
  datatype Wire = Wire(segments: int, x1: Text, y1: Text, z1: Text,
                       x2: Text, y2: Text, z2: Text, radius: Text)

  /** float() raised ValueError on this text. */
  datatype Error = ValueError(text: Text)

  const SpeedOfLight: real := 299792458.0
  const DefaultPulse: string := "10,1"
  const FarFieldAbsolute: string := "far-field-absolute"
  const DefaultFfDistance: int := 1000

  /**
   * The `-w` directive for one wire raised by `height`: segments, x1, y1, z1,
   * x2, y2, z2, radius joined by commas, where z1 and z2 are read as numbers,
   * raised, and printed with six decimals.
   */
  function WireSpec(w: Wire, height: real): Result<Text, Error>
  {
    match ParseFloat(w.z1)
    case None => Failure(ValueError(w.z1))
    case Some(z1) =>
      match ParseFloat(w.z2)
      case None => Failure(ValueError(w.z2))
      case Some(z2) =>
        Success(Joined([Lit(IntToString(w.segments)), w.x1, w.y1, Fixed(z1 + height, 6),
                        w.x2, w.y2, Fixed(z2 + height, 6), w.radius]))
  }

  /**
   * The argument list for a sequence of wires, built as the loop of
   * to_pymininec_args builds it: the first wire whose z does not read as a
   * number aborts the list with that wire's error.
   */
  function WireArgs(ws: seq<Wire>, height: real): Result<seq<Text>, Error>
  {
    if ws == [] then Success([])
    else
      match WireArgs(ws[..|ws| - 1], height)
      case Failure(e) => Failure(e)
      case Success(prev) =>
        match WireSpec(ws[|ws| - 1], height)
        case Failure(e) => Failure(e)
        case Success(spec) => Success(prev + [Lit("-w"), spec])
  }

  /** Argument 2i is "-w" and argument 2i+1 is wire i's directive. */
  ghost predicate PairedWith(args: seq<Text>, ws: seq<Wire>, height: real)
  {
    |args| == 2 * |ws|
    && forall i | 0 <= i < |ws| :: args[2 * i] == Lit("-w") && Success(args[2 * i + 1]) == WireSpec(ws[i], height)
  }

  ghost predicate AllReadable(ws: seq<Wire>, height: real)
  {
    forall i | 0 <= i < |ws| :: WireSpec(ws[i], height).Success?
  }

  /**
   * to_pymininec_args fails exactly when some wire's z does not read as a
   * number, and then with the error of the first such wire.
   */
  lemma {:induction false} WireArgsFailure(ws: seq<Wire>, height: real)
    ensures WireArgs(ws, height).Success? <==> AllReadable(ws, height)
    ensures WireArgs(ws, height).Failure? ==> exists i | 0 <= i < |ws| ::
              WireSpec(ws[i], height) == Failure(WireArgs(ws, height).error)
              && AllReadable(ws[..i], height)
  {
    if ws != [] {
      var init := ws[..|ws| - 1];
      var last := ws[|ws| - 1];
      WireArgsFailure(init, height);
      assert forall j | 0 <= j < |init| :: ws[j] == init[j];
      match WireArgs(init, height)
      case Failure(e) =>
        var i :| 0 <= i < |init| && WireSpec(init[i], height) == Failure(e) && AllReadable(init[..i], height);
        assert init[..i] == ws[..i];
      case Success(prev) =>
        if WireSpec(last, height).Failure? {
          assert ws[..|ws| - 1] == init;
        }
    }
  }

  /**
   * When it succeeds, to_pymininec_args emits exactly two arguments per wire,
   * "-w" then that wire's directive, in input order.
   */
  lemma {:induction false} WireArgsLayout(ws: seq<Wire>, height: real)
    ensures WireArgs(ws, height).Success? ==> PairedWith(WireArgs(ws, height).value, ws, height)
  {
    if ws != [] && WireArgs(ws, height).Success? {
      var init := ws[..|ws| - 1];
      WireArgsLayout(init, height);
      PairedSnoc(WireArgs(init, height).value, init, ws[|ws| - 1], height);
      assert init + [ws[|ws| - 1]] == ws;
    }
  }

  /** One more wire adds its "-w" and directive after the earlier pairs. */
  lemma PairedSnoc(prev: seq<Text>, init: seq<Wire>, w: Wire, height: real)
    requires PairedWith(prev, init, height) && WireSpec(w, height).Success?
    ensures PairedWith(prev + [Lit("-w"), WireSpec(w, height).value], init + [w], height)
  {
    var args := prev + [Lit("-w"), WireSpec(w, height).value];
    var ws := init + [w];
    forall i | 0 <= i < |ws|
      ensures args[2 * i] == Lit("-w") && Success(args[2 * i + 1]) == WireSpec(ws[i], height)
    {
      if i < |init| {
        assert args[2 * i] == prev[2 * i] && args[2 * i + 1] == prev[2 * i + 1];
        assert ws[i] == init[i];
      }
    }
  }

  /** The wire-only model of antenna_model.py: wires in relative position. */
  datatype AntennaModel = AntennaModel(wires: seq<Wire>)
  {
    /** to_pymininec_args: the wires as solver arguments, each raised by `height`. */
    method ToPymininecArgs(height: real) returns (r: Result<seq<Text>, Error>)
      ensures r == WireArgs(wires, height)
    {
      var args: seq<Text> := [];
      var i := 0;
      while i < |wires|
        invariant 0 <= i <= |wires|
        invariant WireArgs(wires[..i], height) == Success(args)
      {
        assert wires[..i + 1][..i] == wires[..i];
        var spec := WireSpec(wires[i], height);
        if spec.Failure? {
          PrefixFailure(wires, i, height);
          return Failure(spec.error);
        }
        args := args + [Lit("-w"), spec.value];
        i := i + 1;
      }
      assert wires[..i] == wires;
      return Success(args);
    }
  }

  /** A failure right after a prefix that succeeded is the failure of the whole list. */
  lemma {:induction false} PrefixFailure(ws: seq<Wire>, i: nat, height: real)
    requires i < |ws| && WireArgs(ws[..i], height).Success? && WireSpec(ws[i], height).Failure?
    ensures WireArgs(ws, height) == Failure(WireSpec(ws[i], height).error)
    decreases |ws|
  {
    var init := ws[..|ws| - 1];
    if i + 1 < |ws| {
      assert init[..i] == ws[..i];
      assert init[i] == ws[i];
      PrefixFailure(init, i, height);
    } else {
      assert init == ws[..i];
    }
  }

  /**
   * build_dipole_model: one wire along x from -total/2 to +total/2, with y and
   * z given as the text "0" and x and the radius printed with six decimals.
   */
  function BuildDipoleModel(totalLength: real, segments: int, radius: real): (m: AntennaModel)
    ensures |m.wires| == 1 && m.wires[0].segments == segments
  {
    var half := totalLength / 2.0;
    AntennaModel([Wire(segments, Fixed(-half, 6), Lit("0"), Lit("0"),
                       Fixed(half, 6), Lit("0"), Lit("0"), Fixed(radius, 6))])
  }

  /** resonant_dipole_length: half the free-space wavelength c / f. */
  function ResonantDipoleLength(freqMhz: real): (len: real)
    requires freqMhz != 0.0
    ensures freqMhz > 0.0 ==> len > 0.0
  {
    var wavelength := SpeedOfLight / (freqMhz * 1000000.0);
    wavelength / 2.0
  }

  /** The ground arguments are added only when the list is given and non-empty. */
  function GroundArgs(groundOpts: Option<seq<string>>): seq<Text>
  {
    match groundOpts
    case None => []
    case Some(opts) => seq(|opts|, i requires 0 <= i < |opts| => Lit(opts[i]))
  }

  /** One `--key value` pair per pattern option, in dictionary order. */
  function PatternArgs(opts: seq<(string, string)>): seq<Text>
  {
    if opts == [] then []
    else PatternArgs(opts[..|opts| - 1]) + [Lit("--" + opts[|opts| - 1].0), Lit(opts[|opts| - 1].1)]
  }

  function PatternOptsArgs(patternOpts: Option<seq<(string, string)>>): seq<Text>
  {
    match patternOpts
    case None => []
    case Some(opts) => PatternArgs(opts)
  }

  /** The solver command run_pymininec assembles, or the error of its wire arguments. */
  function Command(model: AntennaModel, freqMhz: real, height: real,
                   groundOpts: Option<seq<string>>, pulse: string,
                   patternOpts: Option<seq<(string, string)>>, option: string,
                   ffDistance: int): Result<seq<Text>, Error>
  {
    match WireArgs(model.wires, height)
    case Failure(e) => Failure(e)
    case Success(wireArgs) =>
      Success(Assemble(wireArgs, freqMhz, groundOpts, pulse, patternOpts, option, ffDistance))
  }

  /** The command line around already built wire arguments. */
  function Assemble(wireArgs: seq<Text>, freqMhz: real, groundOpts: Option<seq<string>>, pulse: string,
                    patternOpts: Option<seq<(string, string)>>, option: string, ffDistance: int): seq<Text>
  {
    [Lit("pymininec"), Lit("-f"), Shown(freqMhz)] + wireArgs + GroundArgs(groundOpts)
    + [Lit("--excitation-pulse"), Lit(pulse), Lit("--option"), Lit(option)]
    + (if option == FarFieldAbsolute then [Lit("--ff-distance"), Lit(IntToString(ffDistance))] else [])
    + PatternOptsArgs(patternOpts)
  }

  /** run_pymininec up to the point where the solver process is started. */
  method RunPymininecCommand(model: AntennaModel, freqMhz: real, height: real,
                             groundOpts: Option<seq<string>>, pulse: string,
                             patternOpts: Option<seq<(string, string)>>, option: string,
                             ffDistance: int) returns (r: Result<seq<Text>, Error>)
    ensures r == Command(model, freqMhz, height, groundOpts, pulse, patternOpts, option, ffDistance)
  {
    var cmd := [Lit("pymininec"), Lit("-f"), Shown(freqMhz)];
    var wireArgs := model.ToPymininecArgs(height);
    if wireArgs.Failure? {
      return Failure(wireArgs.error);
    }
    cmd := cmd + wireArgs.value;
    if groundOpts.Some? && groundOpts.value != [] {
      cmd := cmd + GroundArgs(groundOpts);
    } else {
      assert cmd == cmd + GroundArgs(groundOpts);
    }
    ghost var grounded := cmd;
    cmd := cmd + [Lit("--excitation-pulse"), Lit(pulse)];
    cmd := cmd + [Lit("--option"), Lit(option)];
    assert cmd == grounded + [Lit("--excitation-pulse"), Lit(pulse), Lit("--option"), Lit(option)];
    if option == FarFieldAbsolute {
      cmd := cmd + [Lit("--ff-distance"), Lit(IntToString(ffDistance))];
    }
    assert cmd == [Lit("pymininec"), Lit("-f"), Shown(freqMhz)] + wireArgs.value + GroundArgs(groundOpts)
              + [Lit("--excitation-pulse"), Lit(pulse), Lit("--option"), Lit(option)]
              + (if option == FarFieldAbsolute then [Lit("--ff-distance"), Lit(IntToString(ffDistance))] else []);
    cmd := AppendPatternArgs(cmd, patternOpts);
    return Success(cmd);
  }

  /** The loop over the pattern options: one `--key value` pair each, appended in order. */
  method AppendPatternArgs(cmd: seq<Text>, patternOpts: Option<seq<(string, string)>>) returns (out: seq<Text>)
    ensures out == cmd + PatternOptsArgs(patternOpts)
  {
    out := cmd;
    if patternOpts.Some? && patternOpts.value != [] {
      var opts := patternOpts.value;
      var i := 0;
      while i < |opts|
        invariant 0 <= i <= |opts|
        invariant out == cmd + PatternArgs(opts[..i])
      {
        assert opts[..i + 1][..i] == opts[..i];
        out := out + [Lit("--" + opts[i].0), Lit(opts[i].1)];
        i := i + 1;
      }
      assert opts[..i] == opts;
    } else {
      assert out == cmd + PatternOptsArgs(patternOpts);
    }
  }

  // ---------------------------------------------------------------------
  // Properties of the wire directives

  /** With the default height 0 the z values are the originals, printed again with six decimals. */
  lemma ZeroHeightRerendersZ(w: Wire)
    requires WireSpec(w, 0.0).Success?
    ensures WireSpec(w, 0.0).value.parts[3] == Fixed(ParseFloat(w.z1).value, 6)
    ensures WireSpec(w, 0.0).value.parts[6] == Fixed(ParseFloat(w.z2).value, 6)
  {
  }

  /**
   * A wire's directive keeps segments, x1, y1, x2, y2 and the radius verbatim
   * and in that order, with the raised z1 and z2 in between.
   */
  lemma WireSpecKeepsFields(w: Wire, height: real)
    requires WireSpec(w, height).Success?
    ensures |WireSpec(w, height).value.parts| == 8
    ensures WireSpec(w, height).value.parts[0] == Lit(IntToString(w.segments))
    ensures WireSpec(w, height).value.parts[1] == w.x1 && WireSpec(w, height).value.parts[2] == w.y1
    ensures WireSpec(w, height).value.parts[4] == w.x2 && WireSpec(w, height).value.parts[5] == w.y2
    ensures WireSpec(w, height).value.parts[7] == w.radius
  {
  }

  /** The raised z entries read back within half a unit of the sixth decimal of z plus the height. */
  lemma WireSpecRaisesZ(w: Wire, height: real)
    requires WireSpec(w, height).Success?
    ensures ParseFloat(WireSpec(w, height).value.parts[3]).Some?
    ensures -0.0000005 <= ParseFloat(WireSpec(w, height).value.parts[3]).value - (ParseFloat(w.z1).value + height) <= 0.0000005
    ensures ParseFloat(WireSpec(w, height).value.parts[6]).Some?
    ensures -0.0000005 <= ParseFloat(WireSpec(w, height).value.parts[6]).value - (ParseFloat(w.z2).value + height) <= 0.0000005
  {
    var z1, z2 := ParseFloat(w.z1).value + height, ParseFloat(w.z2).value + height;
    assert WireSpec(w, height).value.parts[3] == Fixed(z1, 6);
    assert WireSpec(w, height).value.parts[6] == Fixed(z2, 6);
    SixDecimalsReadBack(z1);
    SixDecimalsReadBack(z2);
  }

  lemma ZeroTextReadsZero()
    ensures ParseFloat(Lit("0")) == Some(0.0)
  {
    IntToStringRoundTrip(0);
  }

  /**
   * The dipole serialises to a single `-w` directive: x from -L/2 to +L/2,
   * y given as "0" and both z at the requested height.
   */
  lemma DipoleArgs(totalLength: real, segments: int, radius: real, height: real)
    ensures WireArgs(BuildDipoleModel(totalLength, segments, radius).wires, height)
         == Success([Lit("-w"), Joined([Lit(IntToString(segments)), Fixed(-(totalLength / 2.0), 6), Lit("0"),
                                        Fixed(height, 6), Fixed(totalLength / 2.0, 6), Lit("0"),
                                        Fixed(height, 6), Fixed(radius, 6)])])
  {
    ZeroTextReadsZero();
    var ws := BuildDipoleModel(totalLength, segments, radius).wires;
    var half := totalLength / 2.0;
    assert ws[..|ws| - 1] == [];
    assert ws[0].z1 == Lit("0") && ws[0].z2 == Lit("0");
    assert 0.0 + height == height;
    var spec := Joined([Lit(IntToString(segments)), Fixed(-half, 6), Lit("0"),
                        Fixed(height, 6), Fixed(half, 6), Lit("0"),
                        Fixed(height, 6), Fixed(radius, 6)]);
    assert WireSpec(ws[0], height) == Success(spec);
    assert WireArgs(ws[..|ws| - 1], height) == Success([]);
    assert [] + [Lit("-w"), spec] == [Lit("-w"), spec];
    assert WireArgs(ws, height) == Success([Lit("-w"), spec]);
  }

  /**
   * The dipole is centred on the origin: its x ends read back as exact
   * negatives of each other, within half a micrometre of -L/2 and +L/2, and
   * every y and z reads as 0.
   */
  lemma DipoleCentred(totalLength: real, segments: int, radius: real)
    ensures var w := BuildDipoleModel(totalLength, segments, radius).wires[0];
      && ParseFloat(w.x1).Some? && ParseFloat(w.x2).Some?
      && ParseFloat(w.x1).value == -ParseFloat(w.x2).value
      && -0.0000005 <= ParseFloat(w.x2).value - totalLength / 2.0 <= 0.0000005
      && ParseFloat(w.y1) == ParseFloat(w.y2) == ParseFloat(w.z1) == ParseFloat(w.z2) == Some(0.0)
  {
    ZeroTextReadsZero();
    RoundToNegate(totalLength / 2.0, 6);
    SixDecimalsReadBack(totalLength / 2.0);
  }

  // ---------------------------------------------------------------------
  // Properties of the half-wave length

  /** Length times frequency is constant: c / 2 expressed in MHz. */
  lemma ResonantLengthTimesFrequency(freqMhz: real)
    requires freqMhz != 0.0
    ensures ResonantDipoleLength(freqMhz) * freqMhz == SpeedOfLight / 2000000.0
  {
  }

  /** The half-wave length strictly decreases as the frequency rises. */
  lemma ResonantLengthDecreasing(f1: real, f2: real)
    requires 0.0 < f1 < f2
    ensures ResonantDipoleLength(f2) < ResonantDipoleLength(f1)
  {
    ResonantLengthTimesFrequency(f1);
    ResonantLengthTimesFrequency(f2);
    InverseDecreasing(ResonantDipoleLength(f1), f1, ResonantDipoleLength(f2), f2);
  }

  /** Two positive quantities with the same product: the one with the larger factor has the smaller length. */
  lemma InverseDecreasing(l1: real, f1: real, l2: real, f2: real)
    requires 0.0 < f1 < f2 && l2 > 0.0 && l1 * f1 == l2 * f2
    ensures l2 < l1
  {
    MultiplyLess(l2, f1, f2);
    assert (l1 - l2) * f1 == l1 * f1 - l2 * f1;
    PositiveFactor(l1 - l2, f1);
  }

  lemma PositiveFactor(a: real, b: real)
    requires a * b > 0.0 && b > 0.0
    ensures a > 0.0
  {
  }

  lemma MultiplyLess(a: real, b: real, c: real)
    requires a > 0.0 && b < c
    ensures a * b < a * c && b * a < c * a
  {
    assert a * c - a * b == a * (c - b);
  }

  /**
   * Dividing the design frequency by 1 + d multiplies the half-wave length by
   * 1 + d: detuning the reflector by resonating it at f / (1 + d), as the 15 m
   * scripts do, gives the same length as scaling the resonant length by
   * 1 + d, as the 88 ft beam does.
   */
  lemma ResonantLengthScaling(freqMhz: real, detune: real)
    requires freqMhz != 0.0 && 1.0 + detune != 0.0
    ensures freqMhz / (1.0 + detune) != 0.0
    ensures ResonantDipoleLength(freqMhz / (1.0 + detune)) == (1.0 + detune) * ResonantDipoleLength(freqMhz)
  {
    var g := freqMhz / (1.0 + detune);
    assert g * (1.0 + detune) == freqMhz;
    ResonantLengthTimesFrequency(freqMhz);
    ResonantLengthTimesFrequency(g);
    var l, lg := ResonantDipoleLength(freqMhz), ResonantDipoleLength(g);
    assert lg * g == l * freqMhz;
    assert lg * g == l * (g * (1.0 + detune));
    assert lg == l * (1.0 + detune);
  }

  /** A reflector lengthened with a non-negative detune is never shorter than the resonant element. */
  lemma DetunedNotShorter(freqMhz: real, detune: real)
    requires freqMhz > 0.0 && detune >= 0.0
    ensures ResonantDipoleLength(freqMhz / (1.0 + detune)) >= ResonantDipoleLength(freqMhz)
  {
    ResonantLengthScaling(freqMhz, detune);
  }

  // ---------------------------------------------------------------------
  // Properties of the command line

  /** Each pattern option becomes `--key` then its value, in order. */
  lemma {:induction false} PatternArgsLayout(opts: seq<(string, string)>)
    ensures |PatternArgs(opts)| == 2 * |opts|
    ensures forall j | 0 <= j < |opts| ::
              PatternArgs(opts)[2 * j] == Lit("--" + opts[j].0) && PatternArgs(opts)[2 * j + 1] == Lit(opts[j].1)
  {
    if opts != [] {
      var init := opts[..|opts| - 1];
      PatternArgsLayout(init);
      assert forall j | 0 <= j < |init| :: opts[j] == init[j];
    }
  }

  /**
   * The command is the solver name and `-f <freq>`, then the wire arguments,
   * the ground options, the excitation pulse and the output option, in that
   * order; the pattern options close it; `--ff-distance <d>` sits between
   * exactly when the option is far-field-absolute.
   */
  lemma CommandLayout(wireArgs: seq<Text>, freqMhz: real, groundOpts: Option<seq<string>>, pulse: string,
                      patternOpts: Option<seq<(string, string)>>, option: string, ffDistance: int)
    ensures var c := Assemble(wireArgs, freqMhz, groundOpts, pulse, patternOpts, option, ffDistance);
      var w := |wireArgs|;
      var k := 3 + w + |GroundArgs(groundOpts)|;
      var p := PatternOptsArgs(patternOpts);
      && c[..3] == [Lit("pymininec"), Lit("-f"), Shown(freqMhz)]
      && c[3..3 + w] == wireArgs
      && c[3 + w..k] == GroundArgs(groundOpts)
      && c[k..k + 4] == [Lit("--excitation-pulse"), Lit(pulse), Lit("--option"), Lit(option)]
      && (option == FarFieldAbsolute <==> |c| == k + 6 + |p|)
      && (option != FarFieldAbsolute ==> |c| == k + 4 + |p|)
      && (option == FarFieldAbsolute ==> c[k + 4..k + 6] == [Lit("--ff-distance"), Lit(IntToString(ffDistance))])
      && c[|c| - |p|..] == p
  {
    var head := [Lit("pymininec"), Lit("-f"), Shown(freqMhz)];
    var mid := [Lit("--excitation-pulse"), Lit(pulse), Lit("--option"), Lit(option)];
    var ff := if option == FarFieldAbsolute then [Lit("--ff-distance"), Lit(IntToString(ffDistance))] else [];
    SixSlices(head, wireArgs, GroundArgs(groundOpts), mid, ff, PatternOptsArgs(patternOpts));
  }

  /** Every wire argument is either the `-w` flag or a comma-joined directive. */
  lemma WireArgsAreDirectives(ws: seq<Wire>, height: real)
    requires WireArgs(ws, height).Success?
    ensures forall a | a in WireArgs(ws, height).value :: a == Lit("-w") || a.Joined?
  {
    WireArgsLayout(ws, height);
    WireArgsFailure(ws, height);
    var w := WireArgs(ws, height).value;
    forall i | 0 <= i < |w| ensures w[i] == Lit("-w") || w[i].Joined? {
      var k := i / 2;
      assert i == 2 * k || i == 2 * k + 1;
      assert WireSpec(ws[k], height).Success?;
    }
  }

  /**
   * When nothing else on the command line spells `--ff-distance`, that flag
   * appears on it exactly when the output option is far-field-absolute.
   */
  lemma FfDistanceFlagIff(model: AntennaModel, freqMhz: real, height: real,
                          groundOpts: Option<seq<string>>, pulse: string,
                          patternOpts: Option<seq<(string, string)>>, option: string, ffDistance: int)
    requires Command(model, freqMhz, height, groundOpts, pulse, patternOpts, option, ffDistance).Success?
    requires Lit("--ff-distance") !in GroundArgs(groundOpts) + PatternOptsArgs(patternOpts)
    requires pulse != "--ff-distance" && option != "--ff-distance"
    ensures Lit("--ff-distance") in Command(model, freqMhz, height, groundOpts, pulse, patternOpts, option, ffDistance).value
        <==> option == FarFieldAbsolute
  {
    WireArgsAreDirectives(model.wires, height);
    var w := WireArgs(model.wires, height).value;
    var head := [Lit("pymininec"), Lit("-f"), Shown(freqMhz)];
    var mid := [Lit("--excitation-pulse"), Lit(pulse), Lit("--option"), Lit(option)];
    var ff := if option == FarFieldAbsolute then [Lit("--ff-distance"), Lit(IntToString(ffDistance))] else [];
    var g, p := GroundArgs(groundOpts), PatternOptsArgs(patternOpts);
    var c := Assemble(w, freqMhz, groundOpts, pulse, patternOpts, option, ffDistance);
    assert c == head + w + g + mid + ff + p;
    assert Lit("--ff-distance") !in g && Lit("--ff-distance") !in p by {
      assert forall x | x in g :: x in g + p;
      assert forall x | x in p :: x in g + p;
    }
    assert Lit("--ff-distance") !in head && Lit("--ff-distance") !in mid;
  }

  /** Each piece of a six-way concatenation is the slice at its offset. */
  lemma SixSlices<T>(a: seq<T>, b: seq<T>, c: seq<T>, d: seq<T>, e: seq<T>, f: seq<T>)
    ensures var s := a + b + c + d + e + f;
      var i1 := |a|; var i2 := i1 + |b|; var i3 := i2 + |c|; var i4 := i3 + |d|; var i5 := i4 + |e|;
      && |s| == i5 + |f|
      && s[..i1] == a && s[i1..i2] == b && s[i2..i3] == c && s[i3..i4] == d && s[i4..i5] == e && s[i5..] == f
  {
  }
}
