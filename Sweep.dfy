/**
 * What the sweep scripts do with a solver result: pick the forward and back
 * gain out of an azimuth cut with next(...), and keep the first candidate
 * that strictly beats the best value so far.
 */
module Sweep {
  import opened Wrappers
  import opened Rendering

  /** One point of simulate_azimuth_pattern's result: {'az': ..., 'gain': ...}. */
  datatype AzPoint = AzPoint(az: real, gain: real)

  const AzTolerance: real := 0.000001

  predicate Near(p: AzPoint, az: real) { Abs(p.az - az) < AzTolerance }

  /** The position of the first point within the tolerance of `az`, or |pattern| if none is. */
  function FirstNear(pattern: seq<AzPoint>, az: real): (k: nat)
    ensures k <= |pattern|
    ensures k < |pattern| ==> Near(pattern[k], az)
    ensures forall j | 0 <= j < k :: !Near(pattern[j], az)
  {
    if pattern == [] then 0
    else if Near(pattern[0], az) then 0
    else 1 + FirstNear(pattern[1..], az)
  }

  /**
   * The gain of the first point whose azimuth is within 1e-6 of `az`; None
   * stands for the StopIteration raised when no point is that close.
   */
  function GainAt(pattern: seq<AzPoint>, az: real): Option<real>
  {
    var k := FirstNear(pattern, az);
    if k < |pattern| then Some(pattern[k].gain) else None
  }

  /**
   * The gain read at an azimuth is the gain of the first point near it, and
   * there is none exactly when no point is near it.
   */
  lemma GainAtFirstNear(pattern: seq<AzPoint>, az: real)
    ensures GainAt(pattern, az).None? <==> forall j | 0 <= j < |pattern| :: !Near(pattern[j], az)
    ensures GainAt(pattern, az).Some? ==>
              exists k | 0 <= k < |pattern| :: Near(pattern[k], az) && pattern[k].gain == GainAt(pattern, az).value
                && forall j | 0 <= j < k :: !Near(pattern[j], az)
  {
    var k := FirstNear(pattern, az);
    if k < |pattern| {
      assert Near(pattern[k], az) && pattern[k].gain == GainAt(pattern, az).value;
    }
  }

  /** A point listed before all other points near `az` decides the gain there. */
  lemma GainAtEarliest(pattern: seq<AzPoint>, az: real, k: nat)
    requires k < |pattern| && Near(pattern[k], az)
    requires forall j | 0 <= j < k :: !Near(pattern[j], az)
    ensures GainAt(pattern, az) == Some(pattern[k].gain)
  {
  }

  /**
   * The forward gain at 0 degrees and the front-to-back ratio, forward minus
   * the gain at 180 degrees; None when either next(...) raises.
   */
  function FrontBack(pattern: seq<AzPoint>): (r: Option<(real, real)>)
    ensures r.Some? <==> GainAt(pattern, 0.0).Some? && GainAt(pattern, 180.0).Some?
    ensures r.Some? ==> r.value.0 == GainAt(pattern, 0.0).value
                        && r.value.0 - r.value.1 == GainAt(pattern, 180.0).value
  {
    match GainAt(pattern, 0.0)
    case None => None
    case Some(fwd) =>
      match GainAt(pattern, 180.0)
      case None => None
      case Some(back) => Some((fwd, fwd - back))
  }

  /**
   * The forward gains and F/B ratios of a series of azimuth cuts, read in
   * order as a sweep loop reads them; None as soon as one cut lacks its 0 or
   * 180 degree point, since that next(...) ends the whole sweep.
   */
  function ReadAll(cuts: seq<seq<AzPoint>>): (r: Option<(seq<real>, seq<real>)>)
    ensures r.Some? ==> |r.value.0| == |cuts| && |r.value.1| == |cuts|
  {
    if cuts == [] then Some(([], []))
    else
      match ReadAll(cuts[..|cuts| - 1])
      case None => None
      case Some(prev) =>
        match FrontBack(cuts[|cuts| - 1])
        case None => None
        case Some(reading) => Some((prev.0 + [reading.0], prev.1 + [reading.1]))
  }

  /**
   * ReadAll fails exactly when some cut lacks a point, and otherwise holds
   * each cut's forward gain and F/B at that cut's position.
   */
  lemma {:induction false} ReadAllSpec(cuts: seq<seq<AzPoint>>)
    ensures ReadAll(cuts).None? <==> exists i | 0 <= i < |cuts| :: FrontBack(cuts[i]).None?
    ensures ReadAll(cuts).Some? ==>
              forall i | 0 <= i < |cuts| :: FrontBack(cuts[i]) == Some((ReadAll(cuts).value.0[i], ReadAll(cuts).value.1[i]))
  {
    if cuts != [] {
      var init := cuts[..|cuts| - 1];
      ReadAllSpec(init);
      assert forall i | 0 <= i < |init| :: init[i] == cuts[i];
    }
  }

  /** One more cut read after a prefix: the step a sweep loop takes. */
  lemma ReadAllSnoc(cuts: seq<seq<AzPoint>>, i: nat)
    requires i < |cuts|
    ensures ReadAll(cuts[..i + 1]) ==
              match ReadAll(cuts[..i])
              case None => None
              case Some(prev) =>
                match FrontBack(cuts[i])
                case None => None
                case Some(reading) => Some((prev.0 + [reading.0], prev.1 + [reading.1]))
  {
    assert cuts[..i + 1][..i] == cuts[..i];
  }

  /** A cut that lacks a point after a prefix that read fails the whole series. */
  lemma ReadAllFailsFrom(cuts: seq<seq<AzPoint>>, i: nat)
    requires i < |cuts| && FrontBack(cuts[i]).None?
    ensures ReadAll(cuts).None?
  {
    ReadAllSpec(cuts);
  }

  /** Detune candidates the builders accept: 1 + d is never zero. */
  predicate Admissible(ds: seq<real>) { forall i | 0 <= i < |ds| :: 1.0 + ds[i] != 0.0 }

  // ---------------------------------------------------------------------
  // Candidate grids, as exact reals

  /** numpy.linspace(start, stop, num): num evenly spaced values from start to stop inclusive. */
  function Linspace(start: real, stop: real, num: nat): (xs: seq<real>)
    ensures |xs| == num
    ensures num >= 1 ==> xs[0] == start
    ensures num >= 2 ==> xs[num - 1] == stop
  {
    if num == 1 then [start]
    else seq(num, i requires 0 <= i < num => start + i as real * ((stop - start) / (num - 1) as real))
  }

  /** Every value of an increasing linspace lies between its ends. */
  lemma LinspaceBounds(start: real, stop: real, num: nat)
    requires start <= stop
    ensures forall i | 0 <= i < num :: start <= Linspace(start, stop, num)[i] <= stop
  {
    if num >= 2 {
      var n := (num - 1) as real;
      var step := (stop - start) / n;
      assert step * n == stop - start;
      assert step >= 0.0;
      forall i | 0 <= i < num
        ensures start <= Linspace(start, stop, num)[i] <= stop
      {
        var x := i as real;
        assert Linspace(start, stop, num)[i] == start + x * step;
        NonnegativeProduct(x, step);
        NonnegativeProduct(n - x, step);
        assert (n - x) * step == n * step - x * step;
      }
    }
  }

  lemma NonnegativeProduct(a: real, b: real)
    requires a >= 0.0 && b >= 0.0
    ensures a * b >= 0.0
  {
  }

  // ---------------------------------------------------------------------
  // First-wins running maximum: `if v > best: best = v; choice = candidate`

  /**
   * Position k holds the value the loop keeps: it beats the starting floor,
   * no value is larger, and every earlier value is strictly smaller.
   */
  ghost predicate IsFirstMax(xs: seq<real>, floor: real, k: int)
  {
    0 <= k < |xs| && xs[k] > floor
    && (forall j | 0 <= j < |xs| :: xs[j] <= xs[k])
    && (forall j | 0 <= j < k :: xs[j] < xs[k])
  }

  /**
   * The candidate a loop with a strict `>` update keeps, starting from the
   * value `floor` and no candidate.
   */
  function Best(xs: seq<real>, floor: real): (r: Option<nat>)
    ensures r.Some? ==> r.value < |xs|
  {
    if xs == [] then None
    else
      var last := |xs| - 1;
      match Best(xs[..last], floor)
      case None => if xs[last] > floor then Some(last) else None
      case Some(k) => if xs[last] > xs[k] then Some(last) else Some(k)
  }

  /** The value the loop's running best holds after seeing xs. */
  function BestValue(xs: seq<real>, floor: real): real
  {
    match Best(xs, floor)
    case None => floor
    case Some(k) => xs[k]
  }

  /**
   * The kept candidate is the first one attaining the maximum, and there is
   * none exactly when no value beats the floor.
   */
  lemma {:induction false} BestIsFirstMax(xs: seq<real>, floor: real)
    ensures Best(xs, floor).Some? ==> IsFirstMax(xs, floor, Best(xs, floor).value)
    ensures Best(xs, floor).None? <==> forall j | 0 <= j < |xs| :: xs[j] <= floor
  {
    if xs != [] {
      var last := |xs| - 1;
      var init := xs[..last];
      BestIsFirstMax(init, floor);
      assert forall j | 0 <= j < last :: init[j] == xs[j];
    }
  }

  /** At most one position is the first maximum. */
  lemma FirstMaxUnique(xs: seq<real>, floor: real, a: int, b: int)
    requires IsFirstMax(xs, floor, a) && IsFirstMax(xs, floor, b)
    ensures a == b
  {
  }

  /** Best is the only candidate with the first-maximum property. */
  lemma BestCharacterised(xs: seq<real>, floor: real, k: int)
    ensures IsFirstMax(xs, floor, k) <==> Best(xs, floor) == Some(k)
  {
    BestIsFirstMax(xs, floor);
    if IsFirstMax(xs, floor, k) {
      assert xs[k] > floor;
      FirstMaxUnique(xs, floor, k, Best(xs, floor).value);
    }
  }

  /** The running best after one more value, as the loop body updates it. */
  lemma BestSnoc(xs: seq<real>, x: real, floor: real)
    ensures Best(xs + [x], floor) ==
              (if x > BestValue(xs, floor) then Some(|xs|) else Best(xs, floor))
  {
    assert (xs + [x])[..|xs|] == xs;
  }
}
