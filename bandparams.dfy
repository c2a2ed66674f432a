/** Parameters of a single spectral band sampled as (x, y) pairs:
    the global maximum and its position, the intensity-weighted barycenter,
    and the full width at half maximum found by one scan over consecutive
    sample pairs with linear interpolation.  Floats are modelled as reals. */
module BandParams {

  /** One row of the table: abscissa x (the index) and intensity y. */
  datatype Sample = Sample(x: real, y: real)

  /** The four values the analysis returns. */
  datatype Params = Params(barycenter: real, maxPos: real, fwhm: real, maxVal: real)

  /** Why a call fails, in the order the source would raise them:
      the maximum of an empty table, weights that sum to zero,
      then `x2` read before `x1` in `x2 - x1`. */
  datatype Error = EmptyTable | ZeroWeights | X2Unbound | X1Unbound

  datatype Option<T> = None | Some(value: T)

  datatype Result<T> = Ok(value: T) | Err(error: Error)

  /** The two crossing points the scan may have bound. */
  datatype Crossings = Crossings(x1: Option<real>, x2: Option<real>)

  predicate StrictlyAscending(s: seq<Sample>)
  {
    forall i, j :: 0 <= i < j < |s| ==> s[i].x < s[j].x
  }

  // ---------------------------------------------------------------------
  // Maximum
  // ---------------------------------------------------------------------

  /** Index of the first sample with the greatest y. */
  function ArgMax(s: seq<Sample>): (i: nat)
    requires |s| > 0
    ensures i < |s|
    ensures forall j :: 0 <= j < |s| ==> s[j].y <= s[i].y
    ensures forall j :: 0 <= j < i ==> s[j].y < s[i].y
  {
    ArgMaxBelow(s, |s|)
  }

  /** Index of the first sample with the greatest y among rows 0..n-1. */
  function ArgMaxBelow(s: seq<Sample>, n: nat): (i: nat)
    requires 0 < n <= |s|
    ensures i < n
    ensures forall j :: 0 <= j < n ==> s[j].y <= s[i].y
    ensures forall j :: 0 <= j < i ==> s[j].y < s[i].y
    decreases n
  {
    if n == 1 then 0
    else
      var k := ArgMaxBelow(s, n - 1);
      if s[n - 1].y > s[k].y then n - 1 else k
  }

  // ---------------------------------------------------------------------
  // Barycenter
  // ---------------------------------------------------------------------

  function SumY(s: seq<Sample>): real
  {
    if s == [] then 0.0 else s[0].y + SumY(s[1..])
  }

  function SumXY(s: seq<Sample>): real
  {
    if s == [] then 0.0 else s[0].x * s[0].y + SumXY(s[1..])
  }

  /** Weighted mean of x with weights y; undefined when the weights sum to zero. */
  function Barycenter(s: seq<Sample>): (b: Option<real>)
    ensures b.Some? <==> SumY(s) != 0.0
  {
    if SumY(s) == 0.0 then None else Some(SumXY(s) / SumY(s))
  }

  /** The barycenter solves the weighted-mean equation b * Σy = Σx·y. */
  lemma BarycenterSolves(s: seq<Sample>)
    ensures Barycenter(s).Some? ==> Barycenter(s).value * SumY(s) == SumXY(s)
  {
  }

  /** With nonnegative weights, the weighted x-sum lies between the
      smallest and largest x times the total weight. */
  lemma {:induction false} SumXYBetween(s: seq<Sample>, lo: real, hi: real)
    requires forall i :: 0 <= i < |s| ==> lo <= s[i].x <= hi && 0.0 <= s[i].y
    ensures lo * SumY(s) <= SumXY(s) <= hi * SumY(s)
  {
    if s != [] {
      var r := s[1..];
      assert forall i :: 0 <= i < |r| ==> r[i] == s[i + 1];
      SumXYBetween(r, lo, hi);
      MulNonNeg(s[0].x - lo, s[0].y);
      MulNonNeg(hi - s[0].x, s[0].y);
      assert lo * SumY(s) == lo * s[0].y + lo * SumY(r);
      assert hi * SumY(s) == hi * s[0].y + hi * SumY(r);
    }
  }

  lemma MulNonNeg(a: real, b: real)
    requires a >= 0.0 && b >= 0.0
    ensures a * b >= 0.0
  {
  }

  /** A quotient whose numerator lies between lo and hi times a positive
      denominator lies between lo and hi. */
  lemma QuotientBetween(lo: real, hi: real, b: real, w: real, v: real)
    requires w > 0.0 && b * w == v && lo * w <= v <= hi * w
    ensures lo <= b <= hi
  {
    assert (b - lo) * w >= 0.0;
    assert (hi - b) * w >= 0.0;
  }

  /** With nonnegative intensities of positive sum and ascending x, the
      barycenter lies within the sampled x range. */
  lemma BarycenterWithinRange(s: seq<Sample>)
    requires StrictlyAscending(s)
    requires forall i :: 0 <= i < |s| ==> 0.0 <= s[i].y
    requires SumY(s) > 0.0
    ensures |s| > 0 && Barycenter(s).Some?
    ensures s[0].x <= Barycenter(s).value <= s[|s| - 1].x
  {
    var lo, hi := s[0].x, s[|s| - 1].x;
    Spread(s);
    SumXYBetween(s, lo, hi);
    BarycenterSolves(s);
    QuotientBetween(lo, hi, Barycenter(s).value, SumY(s), SumXY(s));
  }

  /** Every x of an ascending table lies between the first and the last. */
  lemma Spread(s: seq<Sample>)
    requires StrictlyAscending(s) && |s| > 0
    ensures forall i :: 0 <= i < |s| ==> s[0].x <= s[i].x <= s[|s| - 1].x
  {
    forall i | 0 <= i < |s| ensures s[0].x <= s[i].x <= s[|s| - 1].x {
      if 0 < i { assert s[0].x < s[i].x; }
      if i < |s| - 1 { assert s[i].x < s[|s| - 1].x; }
    }
  }

  // ---------------------------------------------------------------------
  // Half-maximum crossings
  // ---------------------------------------------------------------------

  /** The pair (prev, cur) climbs onto the level hh. */
  predicate Rises(prev: Sample, cur: Sample, hh: real)
  {
    prev.y < hh && cur.y >= hh
  }

  /** The pair (prev, cur) drops below the level hh. */
  predicate Falls(prev: Sample, cur: Sample, hh: real)
  {
    prev.y >= hh && cur.y < hh
  }

  /** The x at which the chord through prev and cur has height hh,
      computed from the right end of the pair. */
  function Interpolate(prev: Sample, cur: Sample, hh: real): (xc: real)
    requires Rises(prev, cur, hh) || Falls(prev, cur, hh)
    ensures Rises(prev, cur, hh) ==> cur.y > prev.y
    ensures Falls(prev, cur, hh) ==> cur.y < prev.y
  {
    cur.x + (hh - cur.y) * (cur.x - prev.x) / (cur.y - prev.y)
  }

  /** The point (Interpolate(prev, cur, hh), hh) lies on the line through
      prev and cur. */
  lemma InterpolateOnChord(prev: Sample, cur: Sample, hh: real)
    requires Rises(prev, cur, hh) || Falls(prev, cur, hh)
    ensures var xc := Interpolate(prev, cur, hh);
            (xc - prev.x) * (cur.y - prev.y) == (hh - prev.y) * (cur.x - prev.x)
  {
    var d := cur.y - prev.y;
    var t := (hh - cur.y) * (cur.x - prev.x) / d;
    assert t * d == (hh - cur.y) * (cur.x - prev.x);
    assert (cur.x + t - prev.x) * d == (cur.x - prev.x) * d + t * d;
  }

  lemma MulPos(a: real, b: real)
    requires a > 0.0 && b > 0.0
    ensures a * b > 0.0
  {
  }

  /** An upward crossing lies in (prev.x, cur.x], a downward one in [prev.x, cur.x). */
  lemma CrossingWithinInterval(prev: Sample, cur: Sample, hh: real)
    requires prev.x < cur.x
    requires Rises(prev, cur, hh) || Falls(prev, cur, hh)
    ensures Rises(prev, cur, hh) ==> prev.x < Interpolate(prev, cur, hh) <= cur.x
    ensures Falls(prev, cur, hh) ==> prev.x <= Interpolate(prev, cur, hh) < cur.x
  {
    var xc := Interpolate(prev, cur, hh);
    var d := cur.y - prev.y;
    var w := cur.x - prev.x;
    var t := (hh - cur.y) * w / d;
    assert xc == cur.x + t;
    assert t * d == (hh - cur.y) * w;
    if Rises(prev, cur, hh) {
      MulPos(hh - prev.y, w);
    } else {
      MulPos(hh - cur.y, w);
    }
  }

  predicate RisesAt(s: seq<Sample>, hh: real, j: int)
    requires 1 <= j < |s|
  {
    Rises(s[j - 1], s[j], hh)
  }

  predicate FallsAt(s: seq<Sample>, hh: real, j: int)
    requires 1 <= j < |s|
  {
    Falls(s[j - 1], s[j], hh)
  }

  /** The interpolated crossing of pair j, the pair (s[j-1], s[j]). */
  function CrossAt(s: seq<Sample>, hh: real, j: int): real
    requires 1 <= j < |s|
    requires RisesAt(s, hh, j) || FallsAt(s, hh, j)
  {
    Interpolate(s[j - 1], s[j], hh)
  }

  /** The first pair at or after `from` that drops below hh. */
  function FirstFall(s: seq<Sample>, hh: real, from: nat): (k: Option<nat>)
    requires 1 <= from
    ensures k.Some? ==> from <= k.value < |s| && FallsAt(s, hh, k.value)
    ensures k.Some? ==> forall j :: from <= j < k.value ==> !FallsAt(s, hh, j)
    ensures k.None? ==> forall j :: from <= j < |s| ==> !FallsAt(s, hh, j)
    decreases |s| - from
  {
    if from >= |s| then None
    else if FallsAt(s, hh, from) then Some(from)
    else FirstFall(s, hh, from + 1)
  }

  /** A falling pair k with no fall in [from, k) is what FirstFall finds. */
  lemma {:induction false} FirstFallIs(s: seq<Sample>, hh: real, from: nat, k: nat)
    requires 1 <= from <= k < |s| && FallsAt(s, hh, k)
    requires forall j :: from <= j < k ==> !FallsAt(s, hh, j)
    ensures FirstFall(s, hh, from) == Some(k)
    decreases k - from
  {
    if from < k {
      FirstFallIs(s, hh, from + 1, k);
    }
  }

  /** The last pair strictly before pair k that climbs onto hh. */
  function LastRise(s: seq<Sample>, hh: real, k: nat): (j: Option<nat>)
    requires k <= |s|
    ensures j.Some? ==> 1 <= j.value < k && RisesAt(s, hh, j.value)
    ensures j.Some? ==> forall i :: j.value < i < k ==> !RisesAt(s, hh, i)
    ensures j.None? ==> forall i :: 1 <= i < k ==> !RisesAt(s, hh, i)
    decreases k
  {
    if k <= 1 then None
    else if RisesAt(s, hh, k - 1) then Some(k - 1)
    else LastRise(s, hh, k - 1)
  }

  /** The crossing of the last rise before pair k, if there is one. */
  function RiseBefore(s: seq<Sample>, hh: real, k: nat): Option<real>
    requires k <= |s|
  {
    match LastRise(s, hh, k)
    case None => None
    case Some(j) => Some(CrossAt(s, hh, j))
  }

  /** What the scan binds: x2 from the first fall, x1 from the last rise
      before it (or before the end when nothing falls). */
  function Scan(s: seq<Sample>, hh: real): Crossings
  {
    match FirstFall(s, hh, 1)
    case Some(k) => Crossings(RiseBefore(s, hh, k), Some(CrossAt(s, hh, k)))
    case None => Crossings(RiseBefore(s, hh, |s|), None)
  }

  /** The scan over consecutive rows: a rise assigns x1, the first fall
      binds x2 and ends the loop.  The assignment to x1 could overwrite an
      earlier one, but RiseIsUnique shows that at most one rise precedes the
      first fall, so LastRise finds the only one. */
  method ScanCrossings(s: seq<Sample>, hh: real) returns (x1: Option<real>, x2: Option<real>)
    ensures Crossings(x1, x2) == Scan(s, hh)
  {
    x1, x2 := None, None;
    var prevX, prevY := 0.0, 0.0;
    var initialized := false;
    var i := 0;
    while i < |s|
      invariant 0 <= i <= |s|
      invariant initialized <==> i > 0
      invariant i > 0 ==> prevX == s[i - 1].x && prevY == s[i - 1].y
      invariant x2 == None
      invariant forall j :: 1 <= j < i ==> !FallsAt(s, hh, j)
      invariant x1 == RiseBefore(s, hh, i)
    {
      var x, y := s[i].x, s[i].y;
      if initialized {
        if prevY < hh && y >= hh {
          assert Sample(prevX, prevY) == s[i - 1] && Sample(x, y) == s[i];
          x1 := Some(Interpolate(Sample(prevX, prevY), Sample(x, y), hh));
          assert LastRise(s, hh, i + 1) == Some(i);
        } else if prevY >= hh && y < hh {
          assert Sample(prevX, prevY) == s[i - 1] && Sample(x, y) == s[i];
          x2 := Some(Interpolate(Sample(prevX, prevY), Sample(x, y), hh));
          FirstFallIs(s, hh, 1, i);
          break;
        } else {
          assert LastRise(s, hh, i + 1) == LastRise(s, hh, i);
        }
      }
      prevX := x;
      prevY := y;
      initialized := true;
      i := i + 1;
    }
  }

  /** Rows after the first fall never influence the scan. */
  lemma ScanIgnoresTail(s: seq<Sample>, hh: real, t: seq<Sample>)
    requires FirstFall(s, hh, 1).Some?
    ensures var k := FirstFall(s, hh, 1).value;
            Scan(s[..k + 1] + t, hh) == Scan(s, hh)
  {
    var k := FirstFall(s, hh, 1).value;
    var u := s[..k + 1] + t;
    assert forall j :: 0 <= j <= k ==> u[j] == s[j];
    assert FallsAt(u, hh, k);
    forall j | 1 <= j < k ensures !FallsAt(u, hh, j) {
      assert !FallsAt(s, hh, j);
    }
    FirstFallIs(u, hh, 1, k);
    LastRiseOnPrefix(s, u, hh, k);
  }

  /** LastRise before pair k reads only rows 0..k-1. */
  lemma {:induction false} LastRiseOnPrefix(s: seq<Sample>, u: seq<Sample>, hh: real, k: nat)
    requires k <= |s| && k <= |u|
    requires forall j :: 0 <= j < k ==> u[j] == s[j]
    ensures LastRise(u, hh, k) == LastRise(s, hh, k)
    ensures RiseBefore(u, hh, k) == RiseBefore(s, hh, k)
    decreases k
  {
    if k > 1 {
      LastRiseOnPrefix(s, u, hh, k - 1);
    }
  }

  // ---------------------------------------------------------------------
  // The whole analysis
  // ---------------------------------------------------------------------

  /** What a call of the analysis produces, as a function of the table. */
  function Outcome(s: seq<Sample>): Result<Params>
  {
    if |s| == 0 then Err(EmptyTable)
    else
      var m := ArgMax(s);
      match Barycenter(s)
      case None => Err(ZeroWeights)
      case Some(b) =>
        var c := Scan(s, s[m].y / 2.0);
        if c.x2.None? then Err(X2Unbound)
        else if c.x1.None? then Err(X1Unbound)
        else Ok(Params(b, s[m].x, c.x2.value - c.x1.value, s[m].y))
  }

  /** The analysis of a table whose x values strictly ascend. */
  method Analyze(s: seq<Sample>) returns (r: Result<Params>)
    requires StrictlyAscending(s)
    ensures r == Outcome(s)
    ensures r.Ok? ==> r.value.fwhm >= 0.0
  {
    if |s| == 0 {
      return Err(EmptyTable);
    }
    var m := ArgMax(s);
    var maxPos := s[m].x;
    var maxVal := s[m].y;
    var barycenter := Barycenter(s);
    if barycenter.None? {
      return Err(ZeroWeights);
    }
    var hh := maxVal / 2.0;
    var x1, x2 := ScanCrossings(s, hh);
    if x2.None? {
      return Err(X2Unbound);
    }
    if x1.None? {
      return Err(X1Unbound);
    }
    r := Ok(Params(barycenter.value, maxPos, x2.value - x1.value, maxVal));
    FwhmNonNegative(s);
  }

  /** On success, the reported width is never negative: the rise that
      bound x1 strictly precedes the fall that bound x2. */
  lemma FwhmNonNegative(s: seq<Sample>)
    requires StrictlyAscending(s)
    ensures Outcome(s).Ok? ==> Outcome(s).value.fwhm >= 0.0
  {
    if Outcome(s).Ok? {
      var hh := s[ArgMax(s)].y / 2.0;
      var k := FirstFall(s, hh, 1).value;
      var j := LastRise(s, hh, k).value;
      CrossingWithinInterval(s[j - 1], s[j], hh);
      CrossingWithinInterval(s[k - 1], s[k], hh);
      if j < k - 1 {
        assert s[j].x < s[k - 1].x;
      }
    }
  }

  /** The reported maximum is the greatest y, taken at the first row
      that attains it. */
  lemma OutcomeMaximum(s: seq<Sample>)
    requires Outcome(s).Ok?
    ensures var p := Outcome(s).value;
            (exists i :: 0 <= i < |s| && s[i].x == p.maxPos && s[i].y == p.maxVal
              && (forall j :: 0 <= j < i ==> s[j].y < p.maxVal))
            && (forall j :: 0 <= j < |s| ==> s[j].y <= p.maxVal)
  {
    var m := ArgMax(s);
    var p := Outcome(s).value;
    assert p.maxPos == s[m].x && p.maxVal == s[m].y;
  }

  /** The reported barycenter is the weighted mean, so it solves the
      weighted-mean equation that Barycenter guarantees. */
  lemma OutcomeBarycenter(s: seq<Sample>)
    requires Outcome(s).Ok?
    ensures Barycenter(s) == Some(Outcome(s).value.barycenter)
  {
  }

  /** Past the two input checks, the outcome is decided by what the scan bound. */
  lemma OutcomeByScan(s: seq<Sample>)
    requires |s| > 0 && SumY(s) != 0.0
    ensures var c := Scan(s, s[ArgMax(s)].y / 2.0);
            (c.x2.None? ==> Outcome(s) == Err(X2Unbound))
            && (c.x2.Some? && c.x1.None? ==> Outcome(s) == Err(X1Unbound))
            && (Outcome(s).Ok? <==> c.x1.Some? && c.x2.Some?)
  {
  }

  /** The scan binds both points exactly when some pair falls below hh
      and a pair before the first such fall climbs onto hh. */
  lemma ScanBindsBoth(s: seq<Sample>, hh: real)
    ensures Scan(s, hh).x1.Some? && Scan(s, hh).x2.Some? <==>
      exists k :: 1 <= k < |s| && FallsAt(s, hh, k)
        && (forall j :: 1 <= j < k ==> !FallsAt(s, hh, j))
        && (exists j :: 1 <= j < k && RisesAt(s, hh, j))
  {
    var f := FirstFall(s, hh, 1);
    if f.Some? {
      var k := f.value;
      var r := LastRise(s, hh, k);
      if r.Some? {
        assert RisesAt(s, hh, r.value);
      }
      forall k' | 1 <= k' < |s| && FallsAt(s, hh, k') && (forall j :: 1 <= j < k' ==> !FallsAt(s, hh, j))
        ensures k' == k
      {
        FirstFallIs(s, hh, 1, k');
      }
    }
  }

  /** Exactly when the analysis succeeds: a nonempty table with nonzero
      total weight, a pair that falls below half maximum, and a rise
      before the first such fall. */
  lemma OutcomeOkIff(s: seq<Sample>)
    ensures Outcome(s).Ok? <==>
      |s| > 0 && SumY(s) != 0.0 &&
      var hh := s[ArgMax(s)].y / 2.0;
      exists k :: 1 <= k < |s| && FallsAt(s, hh, k)
        && (forall j :: 1 <= j < k ==> !FallsAt(s, hh, j))
        && (exists j :: 1 <= j < k && RisesAt(s, hh, j))
  {
    if |s| > 0 && SumY(s) != 0.0 {
      OutcomeByScan(s);
      ScanBindsBoth(s, s[ArgMax(s)].y / 2.0);
    }
  }

  /** If the first row is already at or above half maximum, no rise can
      precede the first fall, so x1 is never bound. */
  lemma StartAboveHalfFails(s: seq<Sample>)
    requires |s| > 0 && SumY(s) != 0.0
    requires s[0].y >= s[ArgMax(s)].y / 2.0
    ensures Outcome(s).Err?
  {
    OutcomeByScan(s);
    var hh := s[ArgMax(s)].y / 2.0;
    var f := FirstFall(s, hh, 1);
    if f.Some? {
      AboveUntilFall(s, hh, f.value);
    }
  }

  /** Before the first fall every row stays at or above hh when row 0 does. */
  lemma {:induction false} AboveUntilFall(s: seq<Sample>, hh: real, k: nat)
    requires 0 < k < |s| && s[0].y >= hh
    requires forall j :: 1 <= j < k ==> !FallsAt(s, hh, j)
    ensures forall i :: 0 <= i < k ==> s[i].y >= hh
    ensures forall j :: 1 <= j < k ==> !RisesAt(s, hh, j)
    decreases k
  {
    if k > 1 {
      AboveUntilFall(s, hh, k - 1);
      assert !FallsAt(s, hh, k - 1);
    }
  }

  /** Without a fall in between, a row at or above hh keeps every later
      row at or above hh. */
  lemma {:induction false} AboveFrom(s: seq<Sample>, hh: real, a: nat, m: nat)
    requires a <= m < |s| && s[a].y >= hh
    requires forall j :: a < j <= m ==> !FallsAt(s, hh, j)
    ensures s[m].y >= hh
    decreases m - a
  {
    if a < m {
      AboveFrom(s, hh, a, m - 1);
      assert !FallsAt(s, hh, m);
    }
  }

  /** Two distinct rises cannot both precede the first fall: after a rise
      the intensity stays at or above hh until something falls. */
  lemma RiseIsUnique(s: seq<Sample>, hh: real, a: nat, k: nat)
    requires 1 <= a < k <= |s|
    requires forall j :: 1 <= j < k ==> !FallsAt(s, hh, j)
    requires RisesAt(s, hh, a)
    ensures forall b :: a < b < k ==> !RisesAt(s, hh, b)
  {
    forall b | a < b < k ensures !RisesAt(s, hh, b) {
      AboveFrom(s, hh, a, b - 1);
    }
  }

  /** A table whose intensities never decrease has no fall, so x2 is never bound. */
  lemma NondecreasingFails(s: seq<Sample>)
    requires |s| > 0 && SumY(s) != 0.0
    requires forall i :: 1 <= i < |s| ==> s[i - 1].y <= s[i].y
    ensures Outcome(s) == Err(X2Unbound)
  {
    OutcomeByScan(s);
  }

  /** A table whose intensities sum to zero has no barycenter. */
  lemma ZeroSumFails(s: seq<Sample>)
    requires |s| > 0 && SumY(s) == 0.0
    ensures Outcome(s) == Err(ZeroWeights)
  {
  }

  /** A one-row table fails: at the weighted average when its y is zero,
      otherwise because there is no pair to bind x2. */
  lemma SingleRowFails(r: Sample)
    ensures Outcome([r]) == if r.y == 0.0 then Err(ZeroWeights) else Err(X2Unbound)
  {
    assert SumY([r]) == r.y;
  }

  /** A triangular band: peak 4 at x = 2, crossings at 1 and 3. */
  lemma TriangleExample()
    ensures Outcome([Sample(0.0, 0.0), Sample(1.0, 2.0), Sample(2.0, 4.0),
                     Sample(3.0, 2.0), Sample(4.0, 0.0)])
            == Ok(Params(2.0, 2.0, 2.0, 4.0))
  {
    var s := [Sample(0.0, 0.0), Sample(1.0, 2.0), Sample(2.0, 4.0),
              Sample(3.0, 2.0), Sample(4.0, 0.0)];
    assert ArgMaxBelow(s, 2) == 1;
    assert ArgMaxBelow(s, 3) == 2;
    assert ArgMaxBelow(s, 4) == 2;
    assert ArgMax(s) == 2;
    assert SumY(s) == 8.0;
    assert SumXY(s) == 16.0;
    assert FirstFall(s, 2.0, 1) == Some(4);
    assert LastRise(s, 2.0, 4) == Some(1);
  }
}
