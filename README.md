# antenna-model in Dafny

This project models the bookkeeping of bgelb/antenna-model. That repository is a set of Python
scripts that describe wire antennas, hand them to the `pymininec` method-of-moments solver, and
tabulate what it returns. The solver itself is not modelled. Everything the scripts do around it
is:

- **Wire serialisation and the solver command** (`antenna_model.py`):
  - `AntennaModel.to_pymininec_args` turns wire records into `-w` arguments and raises both z
    coordinates by the antenna height.
  - `build_dipole_model` builds one centred wire.
  - `resonant_dipole_length` is half of c / f.
  - `run_pymininec` assembles the command line, up to the point where it starts the process.
- **The elevation pattern of a half-wave dipole** (`dipole_pattern.py`):
  - the command it writes out by hand, shown to be the one the library would build;
  - the two-flag loop that finds the `PATTERN DATA` section and then the `E(THETA)` header, and
    keeps the well-formed phi = 0 rows;
  - the normalisation of the kept rows to their maximum.
- **The 88 ft two-element beam** (`2_el_beam_88ft.py`):
  - the beam builder;
  - the capacitor-or-inductor rule for series compensation;
  - the impedance tables at 7.1 MHz and 3.5 MHz;
  - the forward-gain and front-to-back table.
- **The 15 m Yagi tuning criticality** (`2_el_yagi_15m_tuning_criticality.py`):
  - the builder;
  - the search for the reflector detune with the best front-to-back ratio;
  - the legend labels of the frequency offsets.
- **The 15 m Yagi sweep** (`2_el_yagi_15m.py`):
  - the builder;
  - the boom-length sweep that keeps the first detune with the best gain and with the best F/B;
  - the detune-by-spacing matrices;
  - the per-column peaks printed in bold;
  - the row chosen for each plotted spacing;
  - the spacing subset that is plotted.

## Modules

| Module | Models |
|---|---|
| `Wrappers` | `Option` and `Result`. |
| `Rendering` | The text the scripts produce and read. `f"{x:.6f}"` and `str(x)` of a float stay symbolic (`Text.Fixed`, `Text.Shown`). `str()` of an integer is spelled out digit by digit. `float()` is a character scanner over the decimal forms. Also `in`, `str.split()` and `str.splitlines()`. |
| `Antenna` | `antenna_model.py`. |
| `Elements` | The library model the scripts fill through `add_element` and `add_feedpoint`: a class that records the calls in order. |
| `Sweep` | Reading the 0° and 180° gains out of an azimuth cut with `next(...)`, and the first-wins running maximum `if v > best`. |
| `DipolePattern` | `dipole_pattern.py`. |
| `Beam88ft` | `2_el_beam_88ft.py`. |
| `YagiCriticality` | `2_el_yagi_15m_tuning_criticality.py`. |
| `Yagi15m` and `PlottedSpacings` | `2_el_yagi_15m.py`. |

Loops that build lists in the source are methods with loop invariants. Each is proved equal to a
function that states the whole result, and lemmas state what that function means. The solver is
an uninterpreted function parameter: layout to azimuth cut, or case model and frequency to
impedance. `None` stands for the `StopIteration` that a missing 0° or 180° point raises.

## Model

| member | source | states |
|---|---|---|
| Antenna.AntennaModel.ToPymininecArgs | antenna_model.py:13-23 | The loop over the wires returns exactly the argument list `WireArgs` describes, or the ValueError of the first wire whose z does not read as a number. |
| Antenna.WireArgsFailure | antenna_model.py:15-18 | `to_pymininec_args` fails exactly when some wire's z1 or z2 is not a number, and then with the error of the first such wire, all earlier wires being readable. |
| Antenna.WireArgsLayout | antenna_model.py:14-23 | On success there are exactly two arguments per wire, `-w` then that wire's directive, in input order. |
| Antenna.PairedSnoc | antenna_model.py:19-22 | One loop step appends `-w` and the next wire's directive after the earlier pairs. |
| Antenna.PrefixFailure | antenna_model.py:15-18 | The first wire that fails after a readable prefix decides the error of the whole list. |
| Antenna.WireSpecKeepsFields | antenna_model.py:21 | A directive has eight comma-separated fields. segments is printed with str(); x1, y1, x2, y2 and radius are copied verbatim, in that order. |
| Antenna.WireSpecRaisesZ | antenna_model.py:17-21 | The printed z1 and z2 read back as the wire's z plus the height, to within the half-unit of the sixth decimal. |
| Antenna.ZeroHeightRerendersZ | antenna_model.py:13-18 | With the default height 0.0, z1 and z2 are the wire's own values printed again with six decimals. |
| Antenna.ZeroTextReadsZero | antenna_model.py:37-38 | The text "0" the dipole stores for y and z reads as 0.0. |
| Antenna.BuildDipoleModel | antenna_model.py:25-41 | `build_dipole_model` returns exactly one wire, with the given segments. |
| Antenna.DipoleArgs | antenna_model.py:34-40 | The dipole's arguments are one `-w` directive: x from -L/2 to +L/2 to six decimals, y "0", both z the height to six decimals, and the radius to six decimals. |
| Antenna.DipoleCentred | antenna_model.py:34-40 | The dipole's x ends read back as opposite numbers within 5e-7 of ±L/2, and y1, y2, z1 and z2 all read as 0. |
| Antenna.ResonantDipoleLength | antenna_model.py:43-49 | The half-wave length is positive for a positive frequency. |
| Antenna.ResonantLengthTimesFrequency | antenna_model.py:47-49 | Length times frequency is the constant c / 2e6, so the length is c / (2f). |
| Antenna.ResonantLengthDecreasing | antenna_model.py:47-49 | The length strictly decreases as the frequency rises. |
| Antenna.ResonantLengthScaling | antenna_model.py:47-49 | Resonating at f / (1 + d) gives (1 + d) times the length at f. This is why the two detune styles of the scripts agree. |
| Antenna.DetunedNotShorter | antenna_model.py:47-49 | For a positive f and d >= 0, the length at f / (1 + d) is at least the length at f. |
| Antenna.RunPymininecCommand | antenna_model.py:73-83 | The command built step by step is exactly `Command`: the wire error, or the assembled list. |
| Antenna.AppendPatternArgs | antenna_model.py:81-83 | The pattern-option loop appends exactly `--key value` per option after the existing command. It appends nothing for no options. |
| Antenna.PatternArgsLayout | antenna_model.py:81-83 | Each pattern option (k, v) becomes `--k` at position 2j and `v` at 2j+1, in dictionary order. |
| Antenna.CommandLayout | antenna_model.py:73-83 | The order of the command: `pymininec -f <freq>`, the wire arguments, the ground options, `--excitation-pulse <p> --option <o>`, `--ff-distance <d>` exactly when the option is far-field-absolute (and nothing in its place otherwise), and the pattern options last. |
| Antenna.WireArgsAreDirectives | antenna_model.py:19-22 | Every wire argument is either `-w` or a joined directive. |
| Antenna.FfDistanceFlagIff | antenna_model.py:79-80 | When no other argument is `--ff-distance`, the command holds `--ff-distance` if and only if the option is far-field-absolute. |
| Elements.Model.constructor | 2_el_beam_88ft.py:49 | A new model has no elements and no feedpoints. |
| Elements.Model.AddElement | 2_el_beam_88ft.py:56 | add_element appends the element and leaves the feedpoints alone. |
| Elements.Model.AddFeedpoint | 2_el_beam_88ft.py:58 | add_feedpoint appends (element_index, segment) and leaves the elements alone. |
| Elements.CentreSegment | 2_el_beam_88ft.py:57 | (segments + 1) // 2 is a segment of the element, and for an odd count it has as many segments on each side. |
| Elements.CentreOfTwentyOne | 2_el_beam_88ft.py:57 | For 21 segments the feed is segment 11. |
| Elements.TwoElementGeometry | 2_el_yagi_15m.py:36-56 | A two-element layout has two elements symmetric about y = 0. The driven element is at x = 0 with the driven length. The reflector is `spacing` behind it with its own length. Both are at z = 0 with the shared segments and radius. There is one feed on element 0 at the centre segment. |
| Elements.ReflectorOverhangs | 2_el_yagi_15m.py:50-54 | A reflector at least as long as the driven element reaches beyond it at both ends. |
| Rendering.NatToStringRoundTrip | antenna_model.py:21 | The digits str() prints for a natural number read back as that number. |
| Rendering.IntToStringRoundTrip | antenna_model.py:21 | float() of str(n) is n for every integer, negative ones included. |
| Rendering.IntToStringInjective | 2_el_yagi_15m_tuning_criticality.py:93 | Different integers print differently. |
| Rendering.SixDecimalsReadBack | antenna_model.py:21 | A number printed with six decimals reads back within 5e-7 of itself. |
| Rendering.RoundToBound | antenna_model.py:21 | Rounding to n places moves a value by at most half a unit in the n-th place. |
| Rendering.ContainsAt | dipole_pattern.py:59 | `pat in s` holds exactly when pat occurs at some index of s. |
| Rendering.Tokens | dipole_pattern.py:67 | The tokens of str.split() are non-empty and contain no whitespace. |
| Rendering.SplitLines | dipole_pattern.py:57 | The lines of str.splitlines() contain no line break. |
| DipolePattern.PatternCommandIsLibraryCommand | dipole_pattern.py:14-41 | The hand-written command is exactly what run_pymininec builds for the library dipole of resonant length at height_ft·0.3048, with pulse `segments//2,1`, far-field-absolute at 1000 m, and the theta and phi grids as pattern options. |
| DipolePattern.PulseIsLibraryDefault | dipole_pattern.py:35 | For 21 segments the pulse `segments//2,1` is "10,1", the library default. |
| DipolePattern.FirstWith | dipole_pattern.py:58-61 | Gives the first line containing the pattern, or the end when no line contains it. |
| DipolePattern.ReadingStep | dipole_pattern.py:57-79 | One more line: before the marker it only moves to the header wait when it contains PATTERN DATA. Before the header it only moves into the table when it contains E(THETA). In the table it adds the row the line gives, if any. |
| DipolePattern.StepBeforeMarker | dipole_pattern.py:58-61 | Before PATTERN DATA, no line adds a row, and the marker line starts the header wait. |
| DipolePattern.StepBeforeHeader | dipole_pattern.py:62-66 | Between the marker and E(THETA), no line adds a row, and the header line opens the table. |
| DipolePattern.StepInTable | dipole_pattern.py:67-79 | Inside the table, each line adds exactly the row it gives. |
| DipolePattern.ReadingHasRows | dipole_pattern.py:57-66 | Rows are only kept when the marker and then a later header were found, and they are the rows of the lines after the header. |
| DipolePattern.ReadingInTable | dipole_pattern.py:57-66 | Once both markers are found, the reading is the rows after the header. |
| DipolePattern.ExtractRows | dipole_pattern.py:54-79 | The flag loop keeps exactly the rows of the loop-free reading: nothing before PATTERN DATA and then E(THETA), and neither marker line. |
| DipolePattern.RowsOfFromLines | dipole_pattern.py:67-79 | No more rows are kept than there are table lines, and each kept row comes from one of them. |
| DipolePattern.ReadingRowsFromLines | dipole_pattern.py:57-79 | Every kept row is what the row reader gives for some line of the output. |
| DipolePattern.ExtractedRowsAreOnTheCut | dipole_pattern.py:67-79 | Every kept (theta, E) comes from a line with at least six fields. Its first and third fields read as theta and E, and its second field reads as a phi within 1e-6 of 0. |
| DipolePattern.RowKept | dipole_pattern.py:67-79 | A kept line has six fields, numeric theta, phi and E, and a phi within 1e-6 of 0. |
| DipolePattern.ReadPattern | dipole_pattern.py:80-85 | An output without phi = 0 rows exits with status 1. A zero maximum raises ZeroDivisionError. A ratio that is zero or negative raises ValueError, as log10 does. Otherwise the pattern is each theta with E / max E, and for a positive maximum the ratios lie in (0, 1] with one equal to 1, so the printed dB are at most 0. |
| DipolePattern.MaxLevel | dipole_pattern.py:84 | max(...) is at least every level and equal to one of them. |
| DipolePattern.Relative | dipole_pattern.py:85 | One entry per row, with theta unchanged. |
| DipolePattern.RelativeNormalised | dipole_pattern.py:84-85 | Dividing positive levels by their maximum gives ratios in (0, 1], the peak giving exactly 1. |
| Sweep.FirstNear | 2_el_beam_88ft.py:158-159 | Gives the position of the first point within 1e-6 of the azimuth, all earlier points being farther away. |
| Sweep.GainAtFirstNear | 2_el_beam_88ft.py:158-159 | next(...) has no value exactly when no point is within 1e-6. Otherwise it gives the gain of the first such point. |
| Sweep.GainAtEarliest | 2_el_beam_88ft.py:158-159 | A point near the azimuth with no earlier near point decides the gain read there. |
| Sweep.FrontBack | 2_el_beam_88ft.py:158-160 | The pair exists exactly when both next(...) succeed. It holds the forward gain and the forward minus back gain. |
| Sweep.ReadAllSpec | 2_el_yagi_15m.py:86-95 | A series of cuts fails exactly when one cut lacks its 0° or 180° point. Otherwise position i holds cut i's forward gain and F/B. |
| Sweep.ReadAllFailsFrom | 2_el_yagi_15m.py:91-92 | A cut that lacks a point ends the whole series. |
| Sweep.Linspace | 2_el_yagi_15m_tuning_criticality.py:30 | linspace(start, stop, num) has num values, from start to stop. |
| Sweep.LinspaceBounds | 2_el_yagi_15m_tuning_criticality.py:30 | Every value of an increasing linspace lies between its ends. |
| Sweep.BestIsFirstMax | 2_el_yagi_15m_tuning_criticality.py:64-76 | The strict `>` update keeps the first value that attains the maximum and beats the floor, and keeps none exactly when no value beats the floor. |
| Sweep.FirstMaxUnique | 2_el_yagi_15m_tuning_criticality.py:74-76 | At most one position is the first maximum. |
| Sweep.BestCharacterised | 2_el_yagi_15m_tuning_criticality.py:74-76 | The kept position is exactly the first-maximum position. |
| Sweep.BestSnoc | 2_el_yagi_15m_tuning_criticality.py:74-76 | One more value replaces the kept one exactly when it is strictly larger than the best so far. |
| YagiCriticality.WavelengthIsTwoHalfWaves | 2_el_yagi_15m_tuning_criticality.py:21 | WAVELENGTH_M is twice resonant_dipole_length(21). |
| YagiCriticality.DetuneFracsRange | 2_el_yagi_15m_tuning_criticality.py:30 | DETUNE_FRACS has 21 values from 0 to 0.10, all in that range, so every reflector length is defined. |
| YagiCriticality.BuildTwoElementModel | 2_el_yagi_15m_tuning_criticality.py:34-59 | The builder's calls leave exactly the two-element layout: the driven element resonant at 21 MHz, its feed, then the reflector resonant at 21 / (1 + d) MHz, spacing_frac wavelengths behind. |
| YagiCriticality.BeamShape | 2_el_yagi_15m_tuning_criticality.py:36-57 | For d >= 0 the reflector is at least the driven length, the driven element is resonant at 21 MHz, the spacing is spacing_frac·λ, and the single feed is element 0, segment 11. |
| YagiCriticality.Cuts | 2_el_yagi_15m_tuning_criticality.py:66-70 | One cut per candidate, the solver's cut of that candidate's beam. |
| YagiCriticality.FindBestFbDetune | 2_el_yagi_15m_tuning_criticality.py:61-77 | The search loop returns exactly `ChosenDetune` over DETUNE_FRACS. |
| YagiCriticality.ChosenDetuneIsBest | 2_el_yagi_15m_tuning_criticality.py:64-76 | The search fails exactly when some candidate's cut lacks a point. Otherwise it returns 0.0 when no F/B beats -1e9. Else it returns a candidate whose own F/B beats -1e9, is at least every candidate's, and is strictly above every earlier one's. |
| YagiCriticality.OffsetLabels | 2_el_yagi_15m_tuning_criticality.py:93 | One label per offset, in order. |
| YagiCriticality.OffsetLabelUniform | 2_el_yagi_15m_tuning_criticality.py:93 | The special case for 0 prints what the general case would: every label is `<int(off)> kHz`. |
| YagiCriticality.OffsetLabelsDistinct | 2_el_yagi_15m_tuning_criticality.py:93 | Distinct offsets get distinct labels. |
| YagiCriticality.ScriptLabels | 2_el_yagi_15m_tuning_criticality.py:93 | The script's seven labels are pairwise distinct and the middle one is "0 kHz". |
| Yagi15m.WavelengthPositive | 2_el_yagi_15m.py:31 | The 15 m wavelength is positive. |
| Yagi15m.BuildTwoElementYagiModel | 2_el_yagi_15m.py:36-56 | The builder's calls leave exactly the two-element layout: the driven element resonant at freq, its feed, then the reflector resonant at freq / (1 + d), spacing_m behind. |
| Yagi15m.YagiReflectorLength | 2_el_yagi_15m.py:37-40 | The reflector is (1 + d) times the driven length. For d >= 0 it is no shorter. |
| Yagi15m.BuildersAgree | 2_el_yagi_15m.py:36-56 | At 21 MHz this builder gives the same model as the criticality script's builder for the same detune and spacing fraction. |
| Yagi15m.BoomCuts | 2_el_yagi_15m.py:86-90 | One cut per detune, the solver's cut of that detune's model at the boom length. |
| Yagi15m.BoomOutcome | 2_el_yagi_15m.py:84-113 | A successful boom has one gain and one F/B per detune. |
| Yagi15m.SweepDetunes | 2_el_yagi_15m.py:80-102 | The inner loop gives exactly `BoomOutcome` and that boom's sweep_table rows. It fails exactly when `BoomOutcome` does. |
| Yagi15m.PickSnoc | 2_el_yagi_15m.py:97-102 | One more detune replaces the best value and its detune exactly when it is strictly larger. |
| Yagi15m.BoomRowsSnoc | 2_el_yagi_15m.py:96 | One more detune appends its row [boom_ft, detune, fwd, fb]. |
| Yagi15m.SweepOutcome | 2_el_yagi_15m.py:79-113 | A successful sweep has one result per boom. |
| Yagi15m.BoomSweep | 2_el_yagi_15m.py:79-113 | The outer loop gives exactly `SweepOutcome`: results and sweep_table, or failure. |
| Yagi15m.SweepFailsFrom | 2_el_yagi_15m.py:91-92 | A boom whose cut lacks a point ends the whole sweep. |
| Yagi15m.BlockStartIsProduct | 2_el_yagi_15m.py:96 | Boom b's rows start at row b·n of sweep_table. |
| Yagi15m.SweepTableLayout | 2_el_yagi_15m.py:79-113 | After the sweep, results[b] is boom b's own outcome, and sweep_table holds one row per (boom, detune) pair in loop order. |
| Yagi15m.SweepResults | 2_el_yagi_15m.py:103-113 | results[b] is what the inner loop gives for boom b alone. |
| Yagi15m.SweepBlocks | 2_el_yagi_15m.py:79-96 | sweep_table is the blocks of the booms' rows, block b holding [boom_ft, d_i, fwd_i, fb_i] for each detune i. |
| Yagi15m.BlocksStep | 2_el_yagi_15m.py:96 | Appending one boom's rows keeps the earlier blocks and adds the new one. |
| Yagi15m.BoomOutcomeBest | 2_el_yagi_15m.py:80-102 | A boom fails exactly when some detune's cut lacks a point. best_gain_detune is the first detune with the largest gain, None only when no gain beats -999, and best_gain is that gain; likewise for F/B. Each value is read from that detune's own cut. |
| Yagi15m.RowCuts | 2_el_yagi_15m.py:158-176 | One cut per spacing fraction: the model with the detuned reflector spacing_frac·λ behind. |
| Yagi15m.RowReadings | 2_el_yagi_15m.py:151-178 | Row i is the reading of detune i across the spacing fractions. |
| Yagi15m.Stack | 2_el_yagi_15m.py:179-180 | The stacked matrices have one row per detune. |
| Yagi15m.Matrices | 2_el_yagi_15m.py:151-180 | fg_matrix and fb_matrix have one row per detune. |
| Yagi15m.StackSpec | 2_el_yagi_15m.py:179-180 | Stacking fails exactly when some row failed. Otherwise row i of both matrices is row i's reading. |
| Yagi15m.SpacingMatrices | 2_el_yagi_15m.py:151-180 | The detune-by-spacing loop gives exactly `Matrices`. |
| Yagi15m.SpacingRow | 2_el_yagi_15m.py:153-178 | The inner loop reuses the driven element, feeds it at the centre segment, and adds the reflector. It reads exactly the row `ReadAll(RowCuts(...))`. |
| Yagi15m.RowEntries | 2_el_yagi_15m.py:158-178 | A row fails exactly when one of its cuts lacks a point. Otherwise it has one gain and one F/B per fraction, read from that fraction's model. |
| Yagi15m.MatricesFail | 2_el_yagi_15m.py:175-176 | The sweep fails exactly when some row does. |
| Yagi15m.MatrixEntries | 2_el_yagi_15m.py:151-180 | On success, cell (i, j) of fg_matrix and fb_matrix is the forward gain and F/B of the model with detune i and spacing j. |
| Yagi15m.MinWidth | 2_el_yagi_15m.py:183 | zip(*m) has as many columns as the shortest row. |
| Yagi15m.ColumnMax | 2_el_yagi_15m.py:183 | max(col) is at least every value of the column and equal to one of them. |
| Yagi15m.ColumnPeaks | 2_el_yagi_15m.py:183-184 | One peak per zip column, each the column's maximum. |
| Yagi15m.PeakTable | 2_el_yagi_15m.py:191-200 | The table loop gives one row per detune: the detune in percent, the reflector length 0.5·(1 + d), then each cell against its column's peak. |
| Yagi15m.PeakCells | 2_el_yagi_15m.py:195-199 | A cell is bold exactly when its value is within 1e-6 of its column's maximum. Every cell shows its own value to two decimals, and every column has a bold cell, the one holding its maximum. |
| Yagi15m.PeakCell | 2_el_yagi_15m.py:195-199 | One cell: bold exactly when within 1e-6 of its column's maximum, showing its value to two decimals. |
| Yagi15m.TableRowCells | 2_el_yagi_15m.py:192-199 | A row is the detune, the reflector length read back as 0.5·(1 + d) to three places, then exactly the cells. |
| Yagi15m.FirstNearRow | 2_el_yagi_15m.py:259 | next(...) gives the first row within 1e-6 of the peak. There is none exactly when no row is within 1e-6. |
| Yagi15m.PeakRowFound | 2_el_yagi_15m.py:258-259 | Against its column's peak the lookup always finds a row. That row is no later than the first row holding the maximum, and less than 1e-6 below it. |
| Yagi15m.PeakRow | 2_el_yagi_15m.py:258-260 | The picked row is within 1e-6 of the column maximum, and every earlier row is at least 1e-6 below it. |
| Yagi15m.PeakDetunes | 2_el_yagi_15m.py:256-266 | One detune per listed column, the detune step of its picked row. |
| Yagi15m.OptimalDetunes | 2_el_yagi_15m.py:256-266 | The loop over the plotted spacings gives exactly the peak detunes of the gain and F/B matrices. |
| Yagi15m.ScriptSubset | 2_el_yagi_15m.py:245 | For the script's fractions the plotted subset is 0.05, 0.075, 0.10, 0.15 and 0.20. |
| Yagi15m.ScriptIndices | 2_el_yagi_15m.py:246 | For the script's fractions idx_subset is [0, 1, 2, 3, 4]. |
| Yagi15m.ScriptPlottedDistinct | 2_el_yagi_15m.py:138 | The plotted fractions are the first five and pairwise distinct. |
| PlottedSpacings.SpacingSubset | 2_el_yagi_15m.py:245 | The subset is no longer than the input, and every kept fraction lies in [0.05, 0.20]. |
| PlottedSpacings.SubsetMembers | 2_el_yagi_15m.py:245 | The subset holds exactly the fractions of the input that lie in [0.05, 0.20]. |
| PlottedSpacings.SubsetEmpty | 2_el_yagi_15m.py:245 | No fraction in the window means nothing is plotted. |
| PlottedSpacings.IndexOf | 2_el_yagi_15m.py:246 | list.index gives the first position holding the value. |
| PlottedSpacings.IndexSubset | 2_el_yagi_15m.py:246 | One index per kept fraction: the first position holding it. |
| PlottedSpacings.SubsetPositions | 2_el_yagi_15m.py:245-246 | With distinct fractions, idx_subset is increasing, so the subset keeps the input order. A position is listed exactly when its fraction lies in the window. |
| PlottedSpacings.LeadingColumns | 2_el_yagi_15m.py:246 | When the kept fractions are the first n, all different, idx_subset is 0 .. n-1. |
| Beam88ft.BuildTwoElementBeam88ft | 2_el_beam_88ft.py:25-66 | The builder's calls leave exactly `Beam`: the driven element, its feed, then the reflector. |
| Beam88ft.BeamGeometry | 2_el_beam_88ft.py:38-65 | The beam has two symmetric elements at z = 0. The driven element is at x = 0, feet_to_meters(driven) long. The reflector is at x = -feet_to_meters(spacing), resonant_dipole_length(f)·(1 + d) long. Both share segments and radius. There is one feed, on element 0 at (segments + 1) // 2. |
| Beam88ft.ReflectorIsDetunedResonance | 2_el_beam_88ft.py:44-47 | The reflector is the length resonant at f / (1 + d), the rule of the 15 m builders. For d >= 0 it is at least the resonant length. |
| Beam88ft.DefaultBeam | 2_el_beam_88ft.py:27-30 | With the defaults the feed is segment 11 of 21 and the reflector sits feet_to_meters(20) behind. |
| Beam88ft.CompensationCancels | 2_el_beam_88ft.py:119-131 | A capacitor exactly when X > 0 and an inductor otherwise, X = 0 included. The part carries \|X\| and cancels the reactance. |
| Beam88ft.BuildCaseModel | 2_el_beam_88ft.py:102-107 | A case without a detune builds the 88 ft dipole. Any other case builds the beam with its detune. |
| Beam88ft.CaseModels | 2_el_beam_88ft.py:82-89 | The first case is a single-wire dipole. The other five are two-element beams. |
| Beam88ft.ImpedanceRows | 2_el_beam_88ft.py:132-133 | One row per case, in order, built from the solver's (R, X) for that case's model. |
| Beam88ft.ImpedanceTables | 2_el_beam_88ft.py:101-133 | The impedance loop gives exactly the 7.1 MHz and 3.5 MHz tables. |
| Beam88ft.ImpedanceTableRows | 2_el_beam_88ft.py:119-133 | Row i holds case i's label and its R and X to two places, with a capacitor exactly when X > 0, which cancels X. |
| Beam88ft.CaseCuts | 2_el_beam_88ft.py:148-157 | One azimuth cut per case, of that case's model. |
| Beam88ft.FgFbTable | 2_el_beam_88ft.py:147-160 | The gain and F/B loop gives exactly `FgFbOutcome`. |
| Beam88ft.FgFbTableReads | 2_el_beam_88ft.py:155-160 | The table fails exactly when some case's cut has no point near 0° or 180°. Otherwise row i is case i's label, the first gain near 0°, and that gain minus the first gain near 180°, each to two places. |

## Left out

- **The solver.** `subprocess.run` and `pymininec` (antenna_model.py:84, dipole_pattern.py:43-51) are external. The solver is a function parameter and its numbers are arbitrary reals. `run_pymininec` is modelled up to the command list.
- **The library.** `AntennaElement`, `add_element`, `add_feedpoint`, `AntennaSimulator`, `feet_to_meters`, `Report` and the plot helpers are not defined in `antenna_model.py`.
  - Elements are plain records and the model only records the calls.
  - `feet_to_meters` is a function parameter in `Beam88ft`.
  - The other scripts convert with the constant 0.3048 themselves.
- **Floating point.** Lengths, gains and grids are exact reals: no binary rounding.
  - `np.linspace` is `Sweep.Linspace` over reals.
  - `np.arange(0.00, 0.11, 0.01)` is `Linspace(0.0, 0.1, 11)`.
  - The boom lengths `np.arange(2, 11, 1)` are the `boomsFt` parameter of `Yagi15m.BoomSweep`.
- **Decimal rendering.** `f"{x:.nf}"` and `str(x)` of a float stay symbolic (`Text.Fixed`, `Text.Shown`). Reading a `Fixed` text back is round-half-even of the exact value at n places.
- **float().** `Rendering.ParseDecimal` accepts the forms `[sign] digits [. digits] [e [sign] digits]`. It does not accept `inf`, `nan`, underscores or surrounding whitespace; the tokens of `str.split()` have no whitespace.
- **The dB values.** `DipolePattern.ReadPattern` stops at the ratio E / max E. `20 * log10` and the printed table (dipole_pattern.py:85-90) are floating point and output.
  - A negative ratio makes log10 raise ValueError, and the model reports that.
  - A positive maximum gives ratios in (0, 1], which is proved.
- **Compensation values.** Beam88ft.Compensate carries only the reactance magnitude. The L and C values and their text (2_el_beam_88ft.py:120-124, 127-131) are floating point with π.
- **Report tables and plots.** Left out as presentation and output:
  - the report tables of the 88 ft beam (2_el_beam_88ft.py:134-145, 161-166);
  - its plotting loop (2_el_beam_88ft.py:168-201);
  - the boom table text (2_el_yagi_15m.py:118-134);
  - the headers (2_el_yagi_15m.py:186-188);
  - the dipole reference table (2_el_yagi_15m.py:228-242), which is one dipole cut read with `Sweep.FrontBack`;
  - the model rebuilds, pattern runs and plots for the plotted spacings (2_el_yagi_15m.py:268-418);
  - the criticality plots (2_el_yagi_15m_tuning_criticality.py:95-122);
  - argparse.
- **Other scripts.** `2_el_yagi.py`, `8_jk.py` and `40_80_multiband.py` are solver calls, plots and the same peak-bolding table as `2_el_yagi_15m.py`.
- **The repository's tests and this model disagree in two places; the model follows the code.**
  - `test_antenna_model.py` expects the 468 / f length and a dipole along y.
  - `antenna_model.py` computes c / (2f) (lines 47-49) and lays the dipole along x (lines 37-38).
- **The constructor.** The scripts call `AntennaModel()` without wires, while the `AntennaModel` class of `antenna_model.py` requires them. The scripts' models are `Elements.Model`; the wire list of `antenna_model.py` is `Antenna.AntennaModel`.
- Antenna.ResonantDipoleLength: requires a non-zero frequency. Python raises ZeroDivisionError at 0, and that exception is not modelled.
- YagiCriticality.BuildTwoElementModel: requires 1 + detune != 0. The division by zero Python raises there is not modelled; every candidate detune is in [0, 0.10].
- Yagi15m.BuildTwoElementYagiModel: requires a non-zero frequency and 1 + detune != 0, for the same reason.
- Beam88ft.BuildTwoElementBeam88ft: requires a non-zero reflector frequency, for the same reason.
- Yagi15m.PeakTable: requires each matrix row to be no longer than the peak list. Python would raise IndexError otherwise; the matrices the sweep builds meet this.
- Yagi15m.OptimalDetunes: requires rectangular matrices and column indices inside them. The sweep builds them rectangular, and `Yagi15m.ScriptIndices` gives indices 0 to 4 of 9 columns. The StopIteration and IndexError of other inputs are not modelled.
- Yagi15m.PeakRow: requires a rectangular matrix, for the same reason.
- PlottedSpacings.SubsetPositions: requires distinct fractions. With a repeated fraction, `list.index` returns the first position twice.
- DipolePattern.ExtractRows: takes the row reader as a parameter. `DipolePattern.ReadPattern` passes the script's reader `DipolePattern.ReadRow`.
- Antenna.WireSpecRaisesZ: states the raised z only to within the rounding of the sixth decimal, because printing is symbolic.
