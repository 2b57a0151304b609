/**
 * The boom spacings 2_el_yagi_15m.py plots against detune: the spacing
 * fractions inside [0.05, 0.20], and the column each of them has in the
 * gain and F/B matrices.
 */
module PlottedSpacings {

  predicate InWindow(f: real) { 0.05 <= f <= 0.20 }

  /** The fractions between 0.05 and 0.20 inclusive, in their original order. */
  function SpacingSubset(fracs: seq<real>): (sub: seq<real>)
    ensures |sub| <= |fracs|
    ensures forall k | 0 <= k < |sub| :: InWindow(sub[k])
  {
    if fracs == [] then []
    else if InWindow(fracs[0]) then [fracs[0]] + SpacingSubset(fracs[1..])
    else SpacingSubset(fracs[1..])
  }

  /** The position of the first occurrence of x, as list.index gives it. */
  function IndexOf(fracs: seq<real>, x: real): (i: nat)
    requires x in fracs
    ensures i < |fracs| && fracs[i] == x
    ensures forall k | 0 <= k < i :: fracs[k] != x
  {
    if fracs[0] == x then 0 else 1 + IndexOf(fracs[1..], x)
  }

  /**
   * idx_subset: for each kept fraction, the first position holding it.
   */
  function IndexSubset(fracs: seq<real>): (idx: seq<nat>)
    ensures |idx| == |SpacingSubset(fracs)|
    ensures forall k | 0 <= k < |idx| :: idx[k] < |fracs| && fracs[idx[k]] == SpacingSubset(fracs)[k]
    ensures forall k, t | 0 <= k < |idx| && 0 <= t < idx[k] :: fracs[t] != SpacingSubset(fracs)[k]
  {
    var sub := SpacingSubset(fracs);
    SubsetMembers(fracs);
    seq(|sub|, k requires 0 <= k < |sub| => IndexOf(fracs, sub[k]))
  }

  /**
   * When the plotted fractions are the first n of fracs, all different,
   * idx_subset selects the first n matrix columns.
   */
  lemma LeadingColumns(fracs: seq<real>, n: nat)
    requires n <= |fracs| && SpacingSubset(fracs) == fracs[..n]
    requires forall s, t | 0 <= s < t < n :: fracs[s] != fracs[t]
    ensures IndexSubset(fracs) == Positions(n)
  {
    forall k | 0 <= k < n
      ensures IndexSubset(fracs)[k] == k
    {
      assert fracs[k] == SpacingSubset(fracs)[k];
    }
  }

  /** The positions 0 to n - 1, in order. */
  function Positions(n: nat): (ps: seq<nat>)
    ensures |ps| == n && forall k | 0 <= k < n :: ps[k] == k
  {
    seq(n, k requires 0 <= k < n => k)
  }

  /** The subset keeps exactly the fractions of fracs that lie in [0.05, 0.20]. */
  lemma {:induction false} SubsetMembers(fracs: seq<real>)
    ensures forall x :: x in SpacingSubset(fracs) <==> x in fracs && InWindow(x)
  {
    if fracs != [] {
      SubsetMembers(fracs[1..]);
      assert fracs == [fracs[0]] + fracs[1..];
    }
  }

  /** A list with no fraction in the window plots nothing. */
  lemma {:induction false} SubsetEmpty(fracs: seq<real>)
    requires forall i | 0 <= i < |fracs| :: !InWindow(fracs[i])
    ensures SpacingSubset(fracs) == []
  {
    if fracs != [] {
      assert forall i | 0 <= i < |fracs| - 1 :: fracs[1..][i] == fracs[i + 1];
      SubsetEmpty(fracs[1..]);
    }
  }

  predicate Distinct(xs: seq<real>) { forall a, b | 0 <= a < b < |xs| :: xs[a] != xs[b] }

  predicate Increasing(xs: seq<nat>) { forall a, b | 0 <= a < b < |xs| :: xs[a] < xs[b] }

  /**
   * With distinct fractions, idx_subset lists the positions of the kept
   * fractions in increasing order, so the subset keeps the original order,
   * and every position whose fraction lies in the window is listed.
   */
  lemma {:induction false} SubsetPositions(fracs: seq<real>)
    requires Distinct(fracs)
    ensures Increasing(IndexSubset(fracs))
    ensures forall i | 0 <= i < |fracs| :: InWindow(fracs[i]) <==> i in IndexSubset(fracs)
  {
    if fracs != [] {
      var tail := fracs[1..];
      DistinctTail(fracs);
      SubsetPositions(tail);
      var idx := IndexSubset(fracs);
      var idx' := IndexSubset(tail);
      SubsetShift(fracs);
      ShiftedPositions(idx, idx', Lead(fracs));
      forall i | 0 <= i < |fracs|
        ensures InWindow(fracs[i]) <==> i in idx
      {
        if i > 0 {
          assert fracs[i] == tail[i - 1];
        }
      }
    }
  }

  /** 1 when the first fraction is kept, else 0. */
  function Lead(fracs: seq<real>): nat
    requires fracs != []
  {
    if InWindow(fracs[0]) then 1 else 0
  }

  /** s is t after `shift` leading entries. */
  predicate ShiftedSeq(s: seq<real>, t: seq<real>, shift: nat)
  {
    |s| == |t| + shift && forall k | shift <= k < |s| :: s[k] == t[k - shift]
  }

  /**
   * idx holds position 0 when shift is 1, followed by one past each
   * position of idx'.
   */
  predicate ShiftedPositionsOf(idx: seq<nat>, idx': seq<nat>, shift: nat)
  {
    shift <= 1 && |idx| == |idx'| + shift
    && (shift == 1 ==> idx[0] == 0)
    && forall k | shift <= k < |idx| :: idx[k] == 1 + idx'[k - shift]
  }

  /**
   * One step of SubsetPositions: the subset's positions are 0 when the first
   * fraction is kept, followed by one past each position within the tail.
   */
  lemma SubsetShift(fracs: seq<real>)
    requires Distinct(fracs) && fracs != []
    ensures ShiftedPositionsOf(IndexSubset(fracs), IndexSubset(fracs[1..]), Lead(fracs))
  {
    var shift := Lead(fracs);
    var idx := IndexSubset(fracs);
    var idx' := IndexSubset(fracs[1..]);
    SubsetUnfold(fracs);
    forall k | shift <= k < |idx|
      ensures idx[k] == 1 + idx'[k - shift]
    {
      ShiftedPosition(fracs, k);
    }
    if shift == 1 {
      assert fracs[idx[0]] == fracs[0];
    }
  }

  /** One entry of SubsetShift: a kept tail fraction sits one past its position in the tail. */
  lemma ShiftedPosition(fracs: seq<real>, k: nat)
    requires Distinct(fracs) && fracs != []
    requires ShiftedSeq(SpacingSubset(fracs), SpacingSubset(fracs[1..]), Lead(fracs))
    requires Lead(fracs) <= k < |IndexSubset(fracs)|
    ensures IndexSubset(fracs)[k] == 1 + IndexSubset(fracs[1..])[k - Lead(fracs)]
  {
    var tail := fracs[1..];
    var j := k - Lead(fracs);
    var i' := IndexSubset(tail)[j];
    assert SpacingSubset(fracs)[k] == SpacingSubset(tail)[j];
    assert fracs[IndexSubset(fracs)[k]] == tail[i'] == fracs[1 + i'];
  }

  /** The subset is the first fraction, when it lies in the window, followed by the tail's subset. */
  lemma SubsetUnfold(fracs: seq<real>)
    requires fracs != []
    ensures ShiftedSeq(SpacingSubset(fracs), SpacingSubset(fracs[1..]), Lead(fracs))
    ensures Lead(fracs) == 1 ==> SpacingSubset(fracs)[0] == fracs[0]
  {
    var sub := SpacingSubset(fracs);
    var sub' := SpacingSubset(fracs[1..]);
    if InWindow(fracs[0]) {
      assert sub == [fracs[0]] + sub';
      ConsIndices(sub, fracs[0], sub');
    } else {
      assert sub == sub';
    }
  }

  lemma ConsIndices(s: seq<real>, x: real, t: seq<real>)
    requires s == [x] + t
    ensures s[0] == x && ShiftedSeq(s, t, 1)
  {
  }

  lemma DistinctTail(fracs: seq<real>)
    requires Distinct(fracs) && fracs != []
    ensures Distinct(fracs[1..])
  {
    var tail := fracs[1..];
    forall a, b | 0 <= a < b < |tail| ensures tail[a] != tail[b] {
      assert tail[a] == fracs[a + 1] && tail[b] == fracs[b + 1];
    }
  }

  /**
   * The positions of a subset whose first entry may or may not be position
   * 0, the rest being one past the positions within the tail.
   */
  lemma ShiftedPositions(idx: seq<nat>, idx': seq<nat>, shift: nat)
    requires ShiftedPositionsOf(idx, idx', shift)
    requires Increasing(idx')
    ensures Increasing(idx)
    ensures 0 in idx <==> shift == 1
    ensures forall i | i >= 1 :: i in idx <==> i - 1 in idx'
  {
    forall a, b | 0 <= a < b < |idx|
      ensures idx[a] < idx[b]
    {
      assert idx[b] == 1 + idx'[b - shift];
      if a >= shift {
        assert idx[a] == 1 + idx'[a - shift];
      }
    }
    forall i | i >= 1
      ensures i in idx <==> i - 1 in idx'
    {
      if i - 1 in idx' {
        var k :| 0 <= k < |idx'| && idx'[k] == i - 1;
        assert idx[k + shift] == i;
      }
      if i in idx {
        var k :| 0 <= k < |idx| && idx[k] == i;
        assert idx'[k - shift] == i - 1;
      }
    }
  }
}
