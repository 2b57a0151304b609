/**
 * dipole_pattern.py: the solver command for the elevation pattern of a
 * half-wave dipole, the extraction of the E(theta) column of the phi = 0 cut
 * from the solver's far-field table, and the normalisation of that column.
 */
module DipolePattern {
  import opened Wrappers
  import opened Rendering
  import opened Antenna

  const FreqMhz: real := 14.1
  const HeightFt: real := 30.0
  const FeetToMeters: real := 0.3048
  const Segments: nat := 21
  const Radius: real := 0.001

  /** The theta and phi grids of the elevation cut. */
  const ThetaGrid: string := "10,10,8"
  const PhiGrid: string := "0,0,1"

  /**
   * The command main() writes out by hand: a dipole a half-wave long centred
   * on the origin along x at the given height, fed at segment segments // 2,
   * with an absolute far field 1000 m away over the theta and phi grids.
   */
  function PatternCommand(freqMhz: real, heightFt: real, segments: nat, radius: real): seq<Text>
    requires freqMhz != 0.0
  {
    var heightM := heightFt * FeetToMeters;
    var wavelength := SpeedOfLight / (freqMhz * 1000000.0);
    var dipoleLength := wavelength / 2.0;
    var half := dipoleLength / 2.0;
    [Lit("pymininec"), Lit("-f"), Shown(freqMhz)]
    + [Lit("-w"), Joined([Lit(IntToString(segments)), Fixed(-half, 6), Lit("0"), Fixed(heightM, 6),
                          Fixed(half, 6), Lit("0"), Fixed(heightM, 6), Fixed(radius, 6)])]
    + [Lit("--excitation-pulse"), Lit(IntToString(segments / 2) + ",1"), Lit("--option"), Lit(FarFieldAbsolute)]
    + [Lit("--ff-distance"), Lit("1000")]
    + [Lit("--theta"), Lit(ThetaGrid), Lit("--phi"), Lit(PhiGrid)]
  }

  /**
   * The hand-written command is the one run_pymininec builds for the library's
   * dipole of the resonant length at the same height, with the pulse at
   * segments // 2, the far-field-absolute option at 1000 m and the same grids.
   */
  lemma PatternCommandIsLibraryCommand(freqMhz: real, heightFt: real, segments: nat, radius: real)
    requires freqMhz != 0.0
    ensures Command(BuildDipoleModel(ResonantDipoleLength(freqMhz), segments, radius), freqMhz,
                    heightFt * FeetToMeters, None, IntToString(segments / 2) + ",1",
                    Some([("theta", ThetaGrid), ("phi", PhiGrid)]), FarFieldAbsolute, DefaultFfDistance)
         == Success(PatternCommand(freqMhz, heightFt, segments, radius))
  {
    var heightM := heightFt * FeetToMeters;
    var len := ResonantDipoleLength(freqMhz);
    DipoleArgs(len, segments, radius, heightM);
    assert IntToString(DefaultFfDistance) == "1000";
    var opts := [("theta", ThetaGrid), ("phi", PhiGrid)];
    assert opts[..|opts| - 1] == [("theta", ThetaGrid)];
    assert [("theta", ThetaGrid)][..0] == [];
    assert "--" + "theta" == "--theta" && "--" + "phi" == "--phi";
    assert PatternArgs([("theta", ThetaGrid)]) == [Lit("--theta"), Lit(ThetaGrid)];
    assert PatternArgs(opts) == [Lit("--theta"), Lit(ThetaGrid), Lit("--phi"), Lit(PhiGrid)];
    var model := BuildDipoleModel(len, segments, radius);
    var w := WireArgs(model.wires, heightM).value;
    var pulse := IntToString(segments / 2) + ",1";
    var half := len / 2.0;
    assert w == [Lit("-w"), Joined([Lit(IntToString(segments)), Fixed(-half, 6), Lit("0"), Fixed(heightM, 6),
                                    Fixed(half, 6), Lit("0"), Fixed(heightM, 6), Fixed(radius, 6)])];
    assert half == SpeedOfLight / (freqMhz * 1000000.0) / 2.0 / 2.0;
    var head := [Lit("pymininec"), Lit("-f"), Shown(freqMhz)];
    assert head + w + [] == head + w;
  }

  /** For the 21-segment dipole the pulse main() passes is the library's default. */
  lemma PulseIsLibraryDefault()
    ensures IntToString(Segments / 2) + ",1" == DefaultPulse
  {
  }

  // ---------------------------------------------------------------------
  // Reading the far-field table

  const Marker: string := "PATTERN DATA"
  const Header: string := "E(THETA)"
  const PhiTolerance: real := 0.000001

  /**
   * One table line as main() reads it: at least six whitespace-separated
   * fields whose first three read as numbers theta, phi and |E(theta)|; kept
   * only on the phi = 0 cut.
   */
  function ReadRow(line: string): Option<(real, real)>
  {
    var parts := Tokens(line);
    if |parts| < 6 then None
    else
      match (ParseDecimal(parts[0]), ParseDecimal(parts[1]), ParseDecimal(parts[2]))
      case (Some(theta), Some(phi), Some(etheta)) =>
        if Abs(phi) < PhiTolerance then Some((theta, etheta)) else None
      case _ => None
  }

  /** A reader of one table line: the row it keeps, if any. */
  type RowReader = string -> Option<(real, real)>

  /** The rows kept from a run of table lines, in order. */
  function RowsOf(read: RowReader, lines: seq<string>): seq<(real, real)>
  {
    if lines == [] then []
    else
      RowsOf(read, lines[..|lines| - 1]) + RowOf(read, lines[|lines| - 1])
  }

  /** The index of the first line containing `pat`, or |lines| when none does. */
  function FirstWith(lines: seq<string>, pat: string): (k: nat)
    ensures k <= |lines|
    ensures forall j | 0 <= j < k :: !Contains(lines[j], pat)
    ensures k < |lines| ==> Contains(lines[k], pat)
  {
    if lines == [] then 0
    else if Contains(lines[0], pat) then 0
    else 1 + FirstWith(lines[1..], pat)
  }

  /** How far into the output the reader has got. */
  datatype Phase = AwaitMarker | AwaitHeader | InTable

  /**
   * The reading of `lines` stated without a loop, for any row reader: the
   * table starts after the first line containing E(THETA) that follows the
   * first line containing PATTERN DATA; before either is seen nothing is kept.
   */
  function Reading(read: RowReader, lines: seq<string>): (Phase, seq<(real, real)>)
  {
    var m := FirstWith(lines, Marker);
    if m == |lines| then (AwaitMarker, [])
    else
      var after := lines[m + 1..];
      var h := FirstWith(after, Header);
      if h == |after| then (AwaitHeader, [])
      else (InTable, RowsOf(read, after[h + 1..]))
  }

  /** The reading main() does, with its own row reader. */
  function Expected(lines: seq<string>): (Phase, seq<(real, real)>)
  {
    Reading(ReadRow, lines)
  }

  /** Extending the lines by one moves the first match only when there was none. */
  lemma {:induction false} FirstWithExtend(lines: seq<string>, line: string, pat: string)
    ensures FirstWith(lines + [line], pat)
         == if FirstWith(lines, pat) < |lines| then FirstWith(lines, pat)
            else if Contains(line, pat) then |lines| else |lines| + 1
  {
    if lines != [] && !Contains(lines[0], pat) {
      assert (lines + [line])[1..] == lines[1..] + [line];
      FirstWithExtend(lines[1..], line, pat);
    }
  }

  /** The rows a line adds once the table has started. */
  function RowOf(read: RowReader, line: string): seq<(real, real)>
  {
    match read(line) case Some(r) => [r] case None => []
  }

  /** One more line read by the loop of main(), in terms of the reading so far. */
  lemma ReadingStep(read: RowReader, lines: seq<string>, line: string)
    ensures Reading(read, lines + [line])
         == match Reading(read, lines)
            case (AwaitMarker, rows) => (if Contains(line, Marker) then AwaitHeader else AwaitMarker, rows)
            case (AwaitHeader, rows) => (if Contains(line, Header) then InTable else AwaitHeader, rows)
            case (InTable, rows) => (InTable, rows + RowOf(read, line))
  {
    if FirstWith(lines, Marker) == |lines| {
      StepBeforeMarker(read, lines, line);
    } else {
      var after := lines[FirstWith(lines, Marker) + 1..];
      if FirstWith(after, Header) == |after| {
        StepBeforeHeader(read, lines, line);
      } else {
        StepInTable(read, lines, line);
      }
    }
  }

  lemma StepBeforeMarker(read: RowReader, lines: seq<string>, line: string)
    requires FirstWith(lines, Marker) == |lines|
    ensures Reading(read, lines + [line]) == (if Contains(line, Marker) then AwaitHeader else AwaitMarker, [])
  {
    var ls := lines + [line];
    FirstWithExtend(lines, line, Marker);
    if Contains(line, Marker) {
      assert ls[|lines| + 1..] == [];
    }
  }

  lemma StepBeforeHeader(read: RowReader, lines: seq<string>, line: string)
    requires FirstWith(lines, Marker) < |lines|
    requires var after := lines[FirstWith(lines, Marker) + 1..]; FirstWith(after, Header) == |after|
    ensures Reading(read, lines + [line]) == (if Contains(line, Header) then InTable else AwaitHeader, [])
  {
    var ls := lines + [line];
    var m := FirstWith(lines, Marker);
    FirstWithExtend(lines, line, Marker);
    var after := lines[m + 1..];
    assert ls[m + 1..] == after + [line];
    FirstWithExtend(after, line, Header);
    if Contains(line, Header) {
      assert (after + [line])[|after| + 1..] == [];
    }
  }

  lemma StepInTable(read: RowReader, lines: seq<string>, line: string)
    requires FirstWith(lines, Marker) < |lines|
    requires var after := lines[FirstWith(lines, Marker) + 1..]; FirstWith(after, Header) < |after|
    ensures Reading(read, lines + [line]) == (InTable, Reading(read, lines).1 + RowOf(read, line))
  {
    var ls := lines + [line];
    var m := FirstWith(lines, Marker);
    FirstWithExtend(lines, line, Marker);
    var after := lines[m + 1..];
    assert ls[m + 1..] == after + [line];
    FirstWithExtend(after, line, Header);
    var h := FirstWith(after, Header);
    var table := after[h + 1..];
    assert (after + [line])[h + 1..] == table + [line];
    ReadingInTable(read, lines, m, h);
    ReadingInTable(read, ls, m, h);
    RowsOfSnoc(read, table, line);
  }

  /** Rows are only ever kept from the lines after the header. */
  lemma ReadingHasRows(read: RowReader, lines: seq<string>)
    requires Reading(read, lines).1 != []
    ensures FirstWith(lines, Marker) < |lines|
    ensures var after := lines[FirstWith(lines, Marker) + 1..];
            var h := FirstWith(after, Header);
            h < |after| && Reading(read, lines).1 == RowsOf(read, after[h + 1..])
  {
  }

  /** Once the marker and then the header have been seen, the reading is the rows after the header. */
  lemma ReadingInTable(read: RowReader, lines: seq<string>, m: nat, h: nat)
    requires m == FirstWith(lines, Marker) < |lines|
    requires h == FirstWith(lines[m + 1..], Header) < |lines[m + 1..]|
    ensures Reading(read, lines) == (InTable, RowsOf(read, lines[m + 1..][h + 1..]))
  {
  }

  lemma RowsOfSnoc(read: RowReader, table: seq<string>, line: string)
    ensures RowsOf(read, table + [line]) == RowsOf(read, table) + RowOf(read, line)
  {
    assert (table + [line])[..|table|] == table;
  }

  /**
   * The extraction loop of main() over the output lines: wait for the marker,
   * then for the header, then keep every row the row reader accepts (main()
   * passes ReadRow: the phi = 0 data rows). It keeps exactly the rows of the
   * loop-free reading.
   */
  method ExtractRows(read: RowReader, lines: seq<string>) returns (etPattern: seq<(real, real)>)
    ensures etPattern == Reading(read, lines).1
  {
    etPattern := [];
    var capture := false;
    var header := false;
    var i := 0;
    while i < |lines|
      invariant 0 <= i <= |lines|
      invariant header ==> capture
      invariant Reading(read, lines[..i]) == (if !capture then AwaitMarker else if !header then AwaitHeader else InTable, etPattern)
    {
      var line := lines[i];
      ReadingStep(read, lines[..i], line);
      assert lines[..i + 1] == lines[..i] + [line];
      ghost var next := Reading(read, lines[..i + 1]);
      i := i + 1;
      if !capture {
        if Contains(line, Marker) {
          capture := true;
        }
        assert next == (if capture then AwaitHeader else AwaitMarker, etPattern);
        continue;
      }
      if !header {
        if Contains(line, Header) {
          header := true;
        }
        assert next == (if header then InTable else AwaitHeader, etPattern);
        continue;
      }
      assert next == (InTable, etPattern + RowOf(read, line));
      var row := read(line);
      if row.Some? {
        assert RowOf(read, line) == [row.value];
        etPattern := etPattern + [row.value];
      } else {
        assert etPattern + RowOf(read, line) == etPattern;
      }
    }
    assert lines[..i] == lines;
  }

  /** Every kept row comes from one line of the run, and no line gives more than one row. */
  lemma {:induction false} RowsOfFromLines(read: RowReader, lines: seq<string>)
    ensures |RowsOf(read, lines)| <= |lines|
    ensures forall r | r in RowsOf(read, lines) :: exists j | 0 <= j < |lines| :: read(lines[j]) == Some(r)
  {
    if lines != [] {
      var init := lines[..|lines| - 1];
      RowsOfFromLines(read, init);
      forall r | r in RowsOf(read, lines) ensures exists j | 0 <= j < |lines| :: read(lines[j]) == Some(r) {
        if r in RowsOf(read, init) {
          var j :| 0 <= j < |init| && read(init[j]) == Some(r);
          assert lines[j] == init[j];
        } else {
          assert read(lines[|lines| - 1]) == Some(r);
        }
      }
    }
  }

  /** Every row the reading keeps is the row the reader gives for one of the lines. */
  lemma ReadingRowsFromLines(read: RowReader, lines: seq<string>, r: (real, real))
    requires r in Reading(read, lines).1
    ensures exists j | 0 <= j < |lines| :: read(lines[j]) == Some(r)
  {
    var m := FirstWith(lines, Marker);
    ReadingHasRows(read, lines);
    var after := lines[m + 1..];
    var h := FirstWith(after, Header);
    var table := after[h + 1..];
    assert r in RowsOf(read, table);
    RowsOfFromLines(read, table);
    var j :| 0 <= j < |table| && read(table[j]) == Some(r);
    assert table[j] == lines[m + 1 + h + 1 + j];
  }

  /** Every row main() keeps is a phi = 0 row of the table. */
  lemma ExtractedRowsAreOnTheCut(lines: seq<string>, r: (real, real))
    requires r in Expected(lines).1
    ensures exists line | line in lines ::
              var parts := Tokens(line);
              && |parts| >= 6
              && ParseDecimal(parts[0]) == Some(r.0)
              && ParseDecimal(parts[2]) == Some(r.1)
              && ParseDecimal(parts[1]).Some? && Abs(ParseDecimal(parts[1]).value) < PhiTolerance
  {
    ReadingRowsFromLines(ReadRow, lines, r);
    var j :| 0 <= j < |lines| && ReadRow(lines[j]) == Some(r);
    RowKept(lines[j], r);
  }

  /** A line ReadRow keeps has six fields, theta and |E| read as numbers, and phi within 1e-6 of 0. */
  lemma RowKept(line: string, r: (real, real))
    requires ReadRow(line) == Some(r)
    ensures var parts := Tokens(line);
              && |parts| >= 6
              && ParseDecimal(parts[0]) == Some(r.0)
              && ParseDecimal(parts[2]) == Some(r.1)
              && ParseDecimal(parts[1]).Some? && Abs(ParseDecimal(parts[1]).value) < PhiTolerance
  {
  }

  /** How main() ends once the solver has run: the pattern, an exit status, or an uncaught exception. */
  datatype Outcome = Pattern(levels: seq<(real, real)>) | Exit(status: int) | Raised(exception: string)

  /**
   * The pattern read from the solver's standard output, normalised to its
   * largest |E(theta)|: each entry is (theta, |E| / max |E|), the argument of
   * the 20 log10 main() prints. An output without phi = 0 rows exits with 1;
   * a zero maximum raises ZeroDivisionError and a ratio that is not positive
   * raises ValueError in log10.
   */
  method ReadPattern(stdout: string) returns (out: Outcome)
    ensures var rows := Expected(SplitLines(stdout)).1;
      && (rows == [] <==> out == Exit(1))
      && (rows != [] && MaxLevel(rows) == 0.0 <==> out == Raised("ZeroDivisionError"))
      && ((rows != [] && MaxLevel(rows) != 0.0 && !AllPositive(Relative(rows, MaxLevel(rows))))
          <==> out == Raised("ValueError"))
      && (out.Pattern? <==> rows != [] && MaxLevel(rows) != 0.0 && AllPositive(Relative(rows, MaxLevel(rows))))
      && (out.Pattern? ==> out.levels == Relative(rows, MaxLevel(rows)))
      && (out.Pattern? && MaxLevel(rows) > 0.0 ==> Normalised(out.levels))
  {
    var rows := ExtractRows(ReadRow, SplitLines(stdout));
    if rows == [] {
      return Exit(1);
    }
    var peak := MaxLevel(rows);
    if peak == 0.0 {
      return Raised("ZeroDivisionError");
    }
    var levels := Relative(rows, peak);
    if !AllPositive(levels) {
      return Raised("ValueError");
    }
    if peak > 0.0 {
      RelativeNormalised(rows);
    }
    return Pattern(levels);
  }

  /** The largest level among the kept rows. */
  function MaxLevel(rows: seq<(real, real)>): (m: real)
    requires |rows| > 0
    ensures forall i | 0 <= i < |rows| :: rows[i].1 <= m
    ensures exists i | 0 <= i < |rows| :: rows[i].1 == m
  {
    if |rows| == 1 then rows[0].1
    else
      var m := MaxLevel(rows[..|rows| - 1]);
      assert forall i | 0 <= i < |rows| - 1 :: rows[..|rows| - 1][i] == rows[i];
      if rows[|rows| - 1].1 > m then rows[|rows| - 1].1 else m
  }

  /** Each row's level divided by the peak, theta unchanged. */
  function Relative(rows: seq<(real, real)>, peak: real): (levels: seq<(real, real)>)
    requires peak != 0.0
    ensures |levels| == |rows|
    ensures forall i | 0 <= i < |rows| :: levels[i].0 == rows[i].0
  {
    seq(|rows|, i requires 0 <= i < |rows| => (rows[i].0, rows[i].1 / peak))
  }

  predicate AllPositive(levels: seq<(real, real)>)
  {
    forall i | 0 <= i < |levels| :: levels[i].1 > 0.0
  }

  /** Relative levels that 20 log10 maps to at most 0 dB, with one entry at exactly 0 dB. */
  predicate Normalised(levels: seq<(real, real)>)
  {
    && (forall i | 0 <= i < |levels| :: 0.0 < levels[i].1 <= 1.0)
    && (exists i | 0 <= i < |levels| :: levels[i].1 == 1.0)
  }

  /**
   * Dividing by a positive largest level gives ratios of at most 1, the peak
   * itself giving exactly 1, whenever all of them are positive.
   */
  lemma RelativeNormalised(rows: seq<(real, real)>)
    requires |rows| > 0 && MaxLevel(rows) > 0.0
    requires AllPositive(Relative(rows, MaxLevel(rows)))
    ensures Normalised(Relative(rows, MaxLevel(rows)))
  {
    var peak := MaxLevel(rows);
    var levels := Relative(rows, peak);
    var k :| 0 <= k < |rows| && rows[k].1 == peak;
    SelfRatio(peak);
    assert levels[k].1 == peak / peak;
    forall i | 0 <= i < |rows| ensures levels[i].1 <= 1.0 {
      assert levels[i].1 == rows[i].1 / peak;
      RatioAtMostOne(rows[i].1, peak);
    }
  }

  lemma SelfRatio(peak: real)
    requires peak > 0.0
    ensures peak / peak == 1.0
  {
  }

  lemma RatioAtMostOne(x: real, peak: real)
    requires peak > 0.0 && x <= peak
    ensures x / peak <= 1.0
  {
  }
}
