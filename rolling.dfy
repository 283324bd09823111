/** The trailing-window indicators shared by both feature modules:
    pandas' `rolling(window=w).mean()` and `.std()` (min_periods = w),
    `diff(1)`, the gain/loss split and the RSI formula. */
module Rolling {
  import opened Frame

  predicate Complete(s: Column) {
    forall k :: 0 <= k < |s| ==> s[k].Some?
  }

  /** The numbers of a column that has no missing cell. */
  function Vals(s: Column): seq<real>
    requires Complete(s)
  {
    seq(|s|, k requires 0 <= k < |s| => s[k].value)
  }

  function Sum(v: seq<real>): real {
    if v == [] then 0.0 else Sum(v[..|v| - 1]) + v[|v| - 1]
  }

  /** The trailing window of `w` rows that ends at row `i` (inclusive). */
  function Window(c: Column, i: nat, w: nat): Column
    requires w <= i + 1 <= |c|
  {
    c[i + 1 - w .. i + 1]
  }

  /** Rolling mean at row `i`: missing until a full window exists, and
      missing when any cell of the window is missing. */
  function WindowMean(c: Column, i: nat, w: nat): Option<real>
    requires 1 <= w && i < |c|
  {
    if i + 1 < w then None
    else if Complete(Window(c, i, w)) then Some(Sum(Vals(Window(c, i, w))) / w as real)
    else None
  }

  /** `c.rolling(window=w).mean()`. */
  function RollingMean(c: Column, w: nat): (r: Column)
    requires 1 <= w
    ensures |r| == |c|
  {
    seq(|c|, i requires 0 <= i < |c| => WindowMean(c, i, w))
  }

  // ---------------------------------------------------------------------------
  // Sums

  lemma {:induction false} SumBounds(v: seq<real>, lo: real, hi: real)
    requires forall k :: 0 <= k < |v| ==> lo <= v[k] <= hi
    ensures |v| as real * lo <= Sum(v) <= |v| as real * hi
  {
    if v != [] {
      var p := v[..|v| - 1];
      SumBounds(p, lo, hi);
      assert |v| as real * lo == |p| as real * lo + lo;
      assert |v| as real * hi == |p| as real * hi + hi;
    }
  }

  lemma {:induction false} SumAtLeast(v: seq<real>, lo: real)
    requires forall k :: 0 <= k < |v| ==> lo <= v[k]
    ensures |v| as real * lo <= Sum(v)
  {
    if v != [] {
      var p := v[..|v| - 1];
      SumAtLeast(p, lo);
      assert |v| as real * lo == |p| as real * lo + lo;
    }
  }

  lemma {:induction false} SumCons(x: real, v: seq<real>)
    ensures Sum([x] + v) == x + Sum(v)
    decreases |v|
  {
    if v != [] {
      var p := v[..|v| - 1];
      assert ([x] + v)[..|v|] == [x] + p;
      SumCons(x, p);
    } else {
      assert ([x] + v)[..0] == [];
    }
  }

  // ---------------------------------------------------------------------------
  // Real arithmetic the solver needs spelled out

  lemma DivBounds(s: real, W: real, lo: real, hi: real)
    requires W > 0.0 && W * lo <= s <= W * hi
    ensures lo <= s / W <= hi
  {
    var m := s / W;
    assert m * W == s;
  }
  lemma HalfMean(s: real, W: real, x: real)
    requires W > 0.0 && 2.0 * s == W * x
    ensures s / W == x / 2.0
  {
    assert (s / W) * W == s;
    assert (x / 2.0) * W == s;
    var a := s / W; var b := x / 2.0;
    assert (a - b) * W == 0.0;
  }
  lemma SquareNonNegative(e: real)
    ensures e * e >= 0.0
  {
    if e < 0.0 { assert e * e == (-e) * (-e); }
  }
  lemma RsiAlgebra(g: real, l: real)
    requires g >= 0.0 && l > 0.0
    ensures 100.0 - 100.0 / (1.0 + g / l) == 100.0 * g / (g + l)
  {
    var D := g + l;
    var s := 1.0 + g / l;
    assert s * l == D;
    var t := 100.0 / s;
    assert t * s == 100.0;
    assert t * D == 100.0 * l by {
      assert t * D == t * (s * l);
      assert t * (s * l) == (t * s) * l;
    }
    var u := 100.0 * g / D;
    assert u * D == 100.0 * g;
    assert (100.0 - t) * D == 100.0 * g;
    var x := 100.0 - t - u;
    assert x * D == 0.0;
  }

  // ---------------------------------------------------------------------------
  // Rolling mean

  /** Where the rolling mean is defined, and what it holds. */
  lemma RollingMeanAt(c: Column, w: nat, i: nat)
    requires 1 <= w && i < |c|
    ensures RollingMean(c, w)[i].Some? <==> w <= i + 1 && Complete(c[i + 1 - w .. i + 1])
    ensures RollingMean(c, w)[i].Some? ==>
              RollingMean(c, w)[i].value * w as real == Sum(Vals(c[i + 1 - w .. i + 1]))
  {
  }

  /** On a column without missing cells the mean is defined exactly from row
      w - 1 on; a window longer than the column leaves it entirely missing. */
  lemma RollingMeanOfComplete(c: Column, w: nat)
    requires 1 <= w && Complete(c)
    ensures forall i :: 0 <= i < |c| ==> (RollingMean(c, w)[i].Some? <==> w <= i + 1)
    ensures w > |c| ==> forall i :: 0 <= i < |c| ==> RollingMean(c, w)[i].None?
  {
    forall i | 0 <= i < |c| && w <= i + 1
      ensures Complete(Window(c, i, w))
    {
      assert forall k :: 0 <= k < w ==> Window(c, i, w)[k] == c[i + 1 - w + k];
    }
  }

  /** Cell `k` of a complete window is row `i + 1 - w + k` of the column. */
  lemma WindowValue(c: Column, i: nat, w: nat, k: nat)
    requires w <= i + 1 <= |c| && Complete(Window(c, i, w)) && k < w
    ensures c[i + 1 - w + k].Some?
    ensures Vals(Window(c, i, w))[k] == c[i + 1 - w + k].value
  {
    assert Window(c, i, w)[k] == c[i + 1 - w + k];
  }

  /** The mean of a window lies between any bounds of its values. */
  lemma MeanWithinBounds(c: Column, w: nat, i: nat, lo: real, hi: real)
    requires 1 <= w && i < |c|
    requires forall k :: 0 <= k < |c| && c[k].Some? ==> lo <= c[k].value <= hi
    ensures RollingMean(c, w)[i].Some? ==> lo <= RollingMean(c, w)[i].value <= hi
  {
    if RollingMean(c, w)[i].Some? {
      assert RollingMean(c, w)[i] == WindowMean(c, i, w);
      assert w <= i + 1 && Complete(Window(c, i, w));
      var v := Vals(Window(c, i, w));
      forall k | 0 <= k < |v| ensures lo <= v[k] <= hi {
        WindowValue(c, i, w, k);
      }
      SumBounds(v, lo, hi);
      DivBounds(Sum(v), w as real, lo, hi);
    }
  }

  /** The running update of a sliding-window sum: each step adds the new row
      and drops the row that falls out of the window. */
  lemma SlidingMean(c: Column, w: nat, i: nat)
    requires 1 <= w <= i < |c| && Complete(c)
    ensures RollingMean(c, w)[i].Some? && RollingMean(c, w)[i - 1].Some?
    ensures RollingMean(c, w)[i].value ==
              RollingMean(c, w)[i - 1].value + (c[i].value - c[i - w].value) / w as real
  {
    RollingMeanAt(c, w, i);
    RollingMeanAt(c, w, i - 1);
    WindowSumStep(c, w, i);
    MeanStep(RollingMean(c, w)[i].value, RollingMean(c, w)[i - 1].value, w as real,
             c[i - w].value, c[i].value);
  }

  /** Sliding a full window one row on adds the new row and drops the oldest. */
  lemma WindowSumStep(c: Column, w: nat, i: nat)
    requires 1 <= w <= i < |c| && Complete(c)
    ensures Complete(Window(c, i, w)) && Complete(Window(c, i - 1, w))
    ensures Sum(Vals(Window(c, i, w))) == Sum(Vals(Window(c, i - 1, w))) - c[i - w].value + c[i].value
  {
    var prev := Vals(Window(c, i - 1, w));
    var cur := Vals(Window(c, i, w));
    var mid := Vals(c[i + 1 - w .. i]);
    assert prev == [c[i - w].value] + mid;
    assert cur == mid + [c[i].value];
    assert cur[..|cur| - 1] == mid;
    SumCons(c[i - w].value, mid);
  }

  lemma MeanStep(m: real, p: real, W: real, a: real, b: real)
    requires W > 0.0 && m * W == p * W - a + b
    ensures m == p + (b - a) / W
  {
    assert (m - p) * W == b - a;
  }

  /** Evenly spaced values: each one `d` above the one before. */
  predicate EvenlySpaced(v: seq<real>, d: real) {
    forall k :: 0 < k < |v| ==> v[k] == v[k - 1] + d
  }

  lemma {:induction false} EvenlySpacedAt(v: seq<real>, d: real, k: nat)
    requires EvenlySpaced(v, d) && k < |v|
    ensures v[k] == v[0] + k as real * d
  {
    if k > 0 {
      EvenlySpacedAt(v, d, k - 1);
    }
  }

  /** The sum of evenly spaced values is the count times the mean of the ends. */
  lemma {:induction false} EvenlySpacedSum(v: seq<real>, d: real)
    requires EvenlySpaced(v, d) && |v| >= 1
    ensures 2.0 * Sum(v) == |v| as real * (v[0] + v[|v| - 1])
  {
    var n := |v|;
    var p := v[..n - 1];
    if n == 1 {
      assert p == [];
    } else {
      assert EvenlySpaced(p, d);
      EvenlySpacedSum(p, d);
      EvenlySpacedAt(v, d, n - 1);
      EvenlySpacedAt(v, d, n - 2);
      var N := n as real;
      var a := v[0];
      assert 2.0 * Sum(p) == (N - 1.0) * (a + a + (N - 2.0) * d);
      assert 2.0 * Sum(v) == (N - 1.0) * (a + a + (N - 2.0) * d) + 2.0 * (a + (N - 1.0) * d);
    }
  }

  /** For evenly spaced prices the moving average is the midpoint of the
      window's first and last price. */
  lemma MovingAverageOfEvenlySpaced(c: Column, d: real, w: nat, i: nat)
    requires 1 <= w <= i + 1 <= |c| && Complete(c) && EvenlySpaced(Vals(c), d)
    ensures RollingMean(c, w)[i] == Some((c[i + 1 - w].value + c[i].value) / 2.0)
  {
    var win := Window(c, i, w);
    assert Complete(win) by {
      forall k | 0 <= k < |win| ensures win[k].Some? {
        assert win[k] == c[i + 1 - w + k];
      }
    }
    var v := Vals(win);
    assert EvenlySpaced(v, d) by {
      forall k | 0 < k < |v| ensures v[k] == v[k - 1] + d {
        assert v[k] == Vals(c)[i + 1 - w + k];
        assert v[k - 1] == Vals(c)[i + 1 - w + k - 1];
      }
    }
    EvenlySpacedSum(v, d);
    HalfMean(Sum(v), w as real, c[i + 1 - w].value + c[i].value);
  }

  // ---------------------------------------------------------------------------
  // Relative strength index

  /** `c.diff(1)`: missing in the first row and wherever either operand is. */
  function Diff(c: Column): (d: Column)
    ensures |d| == |c|
  {
    seq(|c|, i requires 0 <= i < |c| =>
      if i == 0 || c[i].None? || c[i - 1].None? then None else Some(c[i].value - c[i - 1].value))
  }

  /** `delta.where(delta > 0, 0)`: a missing delta fails the test and becomes 0. */
  function Gains(delta: Column): (g: Column)
    ensures |g| == |delta|
    ensures forall i :: 0 <= i < |g| ==> g[i].Some? && g[i].value >= 0.0
  {
    seq(|delta|, i requires 0 <= i < |delta| =>
      if delta[i].Some? && delta[i].value > 0.0 then delta[i] else Some(0.0))
  }

  /** `-delta.where(delta < 0, 0)`. */
  function Losses(delta: Column): (l: Column)
    ensures |l| == |delta|
    ensures forall i :: 0 <= i < |l| ==> l[i].Some? && l[i].value >= 0.0
  {
    seq(|delta|, i requires 0 <= i < |delta| =>
      Some(-(if delta[i].Some? && delta[i].value < 0.0 then delta[i].value else 0.0)))
  }

  /** Gain and loss split each change: at most one of them is non-zero, and
      their difference is the change (0 where the change is missing). */
  lemma GainLossSplit(delta: Column, i: nat)
    requires i < |delta|
    ensures Gains(delta)[i].value == 0.0 || Losses(delta)[i].value == 0.0
    ensures Gains(delta)[i].value - Losses(delta)[i].value ==
              if delta[i].Some? then delta[i].value else 0.0
  {
  }

  /** `100 - 100 / (1 + gain / loss)` evaluated as IEEE arithmetic does for the
      non-negative means that reach it: a zero loss makes the ratio infinite
      (RSI 100) unless the gain is zero too (0/0 is NaN). */
  function RsiOf(gain: Option<real>, loss: Option<real>): Option<real>
    requires gain.Some? ==> gain.value >= 0.0
    requires loss.Some? ==> loss.value >= 0.0
  {
    if gain.None? || loss.None? then None
    else if loss.value == 0.0 then (if gain.value == 0.0 then None else Some(100.0))
    else
      assert gain.value / loss.value >= 0.0;
      Some(100.0 - 100.0 / (1.0 + gain.value / loss.value))
  }

  lemma MeanNonNegative(c: Column, w: nat)
    requires 1 <= w
    requires forall k :: 0 <= k < |c| ==> c[k].Some? && c[k].value >= 0.0
    ensures forall i :: 0 <= i < |c| && RollingMean(c, w)[i].Some? ==> RollingMean(c, w)[i].value >= 0.0
  {
    forall i | 0 <= i < |c| && RollingMean(c, w)[i].Some?
      ensures RollingMean(c, w)[i].value >= 0.0
    {
      var v := Vals(Window(c, i, w));
      SumAtLeast(v, 0.0);
    }
  }

  /** The RSI column: trailing means of gains and losses over `w` rows. */
  function Rsi(c: Column, w: nat): (r: Column)
    requires 1 <= w
    ensures |r| == |c|
  {
    var delta := Diff(c);
    var gain := RollingMean(Gains(delta), w);
    var loss := RollingMean(Losses(delta), w);
    MeanNonNegative(Gains(delta), w);
    MeanNonNegative(Losses(delta), w);
    seq(|c|, i requires 0 <= i < |c| => RsiOf(gain[i], loss[i]))
  }

  /** RSI at row `i`: defined exactly where a full window exists and the
      window saw any movement, equal to 100·gain/(gain+loss), so in [0, 100],
      and 100 when the window has gains but no losses. */
  lemma RsiAt(c: Column, w: nat, i: nat)
    requires 1 <= w && i < |c|
    ensures var gain := RollingMean(Gains(Diff(c)), w)[i];
            var loss := RollingMean(Losses(Diff(c)), w)[i];
            && (gain.Some? <==> w <= i + 1)
            && (loss.Some? <==> w <= i + 1)
            && (Rsi(c, w)[i].Some? <==> w <= i + 1 && gain.value + loss.value > 0.0)
            && (Rsi(c, w)[i].Some? ==>
                  && Rsi(c, w)[i].value == 100.0 * gain.value / (gain.value + loss.value)
                  && 0.0 <= Rsi(c, w)[i].value <= 100.0)
            && (w <= i + 1 && loss.value == 0.0 && gain.value > 0.0 ==> Rsi(c, w)[i] == Some(100.0))
  {
    var delta := Diff(c);
    RollingMeanOfComplete(Gains(delta), w);
    RollingMeanOfComplete(Losses(delta), w);
    MeanNonNegative(Gains(delta), w);
    MeanNonNegative(Losses(delta), w);
    var gain := RollingMean(Gains(delta), w)[i];
    var loss := RollingMean(Losses(delta), w)[i];
    if w <= i + 1 {
      RsiOfValues(gain.value, loss.value);
    }
  }

  /** What an RSI column `rsi` of `c` holds at row `i`: the mean gain and
      loss are defined exactly from row w-1 on; the cell is defined iff
      they are and their sum is positive, and then it is
      100·gain/(gain+loss), within [0, 100]; zero loss with a positive gain
      gives 100. */
  predicate RsiCellFacts(rsi: Column, c: Column, w: nat, i: nat) {
    && 1 <= w && i < |c| && |rsi| == |c|
    && var gain := RollingMean(Gains(Diff(c)), w)[i];
       var loss := RollingMean(Losses(Diff(c)), w)[i];
       && (gain.Some? <==> w <= i + 1) && (loss.Some? <==> w <= i + 1)
       && (rsi[i].Some? <==> gain.Some? && loss.Some? && gain.value + loss.value > 0.0)
       && (rsi[i].Some? ==>
             && gain.Some? && loss.Some?
             && rsi[i].value == 100.0 * gain.value / (gain.value + loss.value))
       && (rsi[i].Some? ==> 0.0 <= rsi[i].value <= 100.0)
       && (gain.Some? && loss.Some? && loss.value == 0.0 && gain.value > 0.0 ==> rsi[i] == Some(100.0))
  }

  /** `RsiAt`, stated for a column known to be the RSI column of `c`. */
  lemma RsiCell(rsi: Column, c: Column, w: nat, i: nat)
    requires 1 <= w && i < |c| && rsi == Rsi(c, w)
    ensures RsiCellFacts(rsi, c, w, i)
  {
    RsiAt(c, w, i);
  }

  /** RSI of one pair of defined averages. */
  lemma RsiOfValues(g: real, l: real)
    requires g >= 0.0 && l >= 0.0
    ensures RsiOf(Some(g), Some(l)).Some? <==> g + l > 0.0
    ensures RsiOf(Some(g), Some(l)).Some? ==>
              && RsiOf(Some(g), Some(l)).value == 100.0 * g / (g + l)
              && 0.0 <= RsiOf(Some(g), Some(l)).value <= 100.0
    ensures l == 0.0 && g > 0.0 ==> RsiOf(Some(g), Some(l)) == Some(100.0)
  {
    if l > 0.0 {
      RsiAlgebra(g, l);
      assert 0.0 <= g / (g + l) * 100.0;
      assert 100.0 * g / (g + l) <= 100.0 by {
        assert g <= g + l;
      }
    } else if g > 0.0 {
      assert g + l == g;
      assert 100.0 * g / g == 100.0;
    }
  }

  /** Strictly rising prices have no losses, so every RSI with a full window
      after the first row is 100. */
  lemma RsiOfRisingPrices(c: Column, w: nat, i: nat)
    requires Complete(c)
    requires forall k :: 0 < k < |c| ==> c[k - 1].value < c[k].value
    requires 1 <= w <= i + 1 && 1 <= i < |c|
    ensures Rsi(c, w)[i] == Some(100.0)
  {
    RisingLosses(c, w, i);
    RisingGains(c, w, i);
  }

  lemma ScaledSign(x: real, W: real)
    requires W > 0.0
    ensures x * W == 0.0 ==> x == 0.0
    ensures x * W > 0.0 ==> x > 0.0
  {
  }

  /** A loss is 0 wherever the price did not fall (and on the first row). */
  lemma NoLossAt(c: Column, k: nat)
    requires k < |c| && Complete(c)
    requires k > 0 ==> c[k - 1].value < c[k].value
    ensures Losses(Diff(c))[k] == Some(0.0)
  {
  }

  /** The gain on a row where the price rose is the rise. */
  lemma GainAt(c: Column, k: nat)
    requires 1 <= k < |c| && Complete(c) && c[k - 1].value < c[k].value
    ensures Gains(Diff(c))[k] == Some(c[k].value - c[k - 1].value)
  {
  }

  lemma RisingLosses(c: Column, w: nat, i: nat)
    requires Complete(c)
    requires forall k :: 0 < k < |c| ==> c[k - 1].value < c[k].value
    requires 1 <= w <= i + 1 && i < |c|
    ensures RollingMean(Losses(Diff(c)), w)[i] == Some(0.0)
  {
    var losses := Losses(Diff(c));
    forall j | i + 1 - w <= j <= i ensures losses[j] == Some(0.0) {
      NoLossAt(c, j);
    }
    ZeroWindowMean(losses, w, i);
  }

  /** A full window of zeros has mean 0. */
  lemma ZeroWindowMean(c: Column, w: nat, i: nat)
    requires 1 <= w <= i + 1 && i < |c|
    requires forall j :: i + 1 - w <= j <= i ==> c[j] == Some(0.0)
    ensures RollingMean(c, w)[i] == Some(0.0)
  {
    var lw := Window(c, i, w);
    forall k | 0 <= k < |lw| ensures lw[k] == Some(0.0) {
      assert lw[k] == c[i + 1 - w + k];
    }
    assert Complete(lw);
    forall k | 0 <= k < w ensures Vals(lw)[k] == 0.0 {
      WindowValue(c, i, w, k);
    }
    SumBounds(Vals(lw), 0.0, 0.0);
    RollingMeanAt(c, w, i);
    ScaledSign(RollingMean(c, w)[i].value, w as real);
  }

  lemma RisingGains(c: Column, w: nat, i: nat)
    requires Complete(c)
    requires forall k :: 0 < k < |c| ==> c[k - 1].value < c[k].value
    requires 1 <= w <= i + 1 && 1 <= i < |c|
    ensures RollingMean(Gains(Diff(c)), w)[i].Some?
    ensures RollingMean(Gains(Diff(c)), w)[i].value > 0.0
  {
    var gains := Gains(Diff(c));
    GainAt(c, i);
    RisingGainsSum(gains, w, i);
    RollingMeanAt(gains, w, i);
    ScaledSign(RollingMean(gains, w)[i].value, w as real);
  }

  /** A window of non-negative gains whose last one is positive has a
      positive sum. */
  lemma RisingGainsSum(gains: Column, w: nat, i: nat)
    requires forall k :: 0 <= k < |gains| ==> gains[k].Some? && gains[k].value >= 0.0
    requires 1 <= w <= i + 1 && i < |gains| && gains[i].value > 0.0
    ensures Complete(Window(gains, i, w))
    ensures Sum(Vals(Window(gains, i, w))) > 0.0
  {
    var gw := Window(gains, i, w);
    assert forall k :: 0 <= k < |gw| ==> gw[k] == gains[i + 1 - w + k];
    var gv := Vals(gw);
    SumAtLeast(gv[..w - 1], 0.0);
    assert Sum(gv) == Sum(gv[..w - 1]) + gv[w - 1];
  }

  // ---------------------------------------------------------------------------
  // Bollinger bands

  type NonNegReal = x: real | 0.0 <= x

  function SumSquaredDeviations(v: seq<real>, m: real): real {
    if v == [] then 0.0
    else SumSquaredDeviations(v[..|v| - 1], m) + (v[|v| - 1] - m) * (v[|v| - 1] - m)
  }

  /** Sample variance (ddof = 1, pandas' default for `rolling().std()`). */
  function SampleVariance(v: seq<real>): real
    requires |v| >= 2
  {
    SumSquaredDeviations(v, Sum(v) / |v| as real) / (|v| - 1) as real
  }

  lemma {:induction false} SumSquaredDeviationsNonNegative(v: seq<real>, m: real)
    ensures SumSquaredDeviations(v, m) >= 0.0
  {
    if v != [] {
      SumSquaredDeviationsNonNegative(v[..|v| - 1], m);
      SquareNonNegative(v[|v| - 1] - m);
    }
  }

  lemma {:induction false} SumSquaredDeviationsOfConstant(v: seq<real>, m: real)
    requires forall k :: 0 <= k < |v| ==> v[k] == m
    ensures SumSquaredDeviations(v, m) == 0.0
  {
    if v != [] {
      SumSquaredDeviationsOfConstant(v[..|v| - 1], m);
    }
  }

  /** The variance is never negative, and it is zero for a flat window. */
  lemma SampleVarianceFacts(v: seq<real>)
    requires |v| >= 2
    ensures SampleVariance(v) >= 0.0
    ensures (forall k :: 0 <= k < |v| ==> v[k] == v[0]) ==> SampleVariance(v) == 0.0
  {
    var m := Sum(v) / |v| as real;
    SumSquaredDeviationsNonNegative(v, m);
    if forall k :: 0 <= k < |v| ==> v[k] == v[0] {
      SumBounds(v, v[0], v[0]);
      assert m == v[0];
      SumSquaredDeviationsOfConstant(v, m);
    }
  }

  /** `c.rolling(window=w).std()`: the square root `sqrt` of the sample
      variance of each full window; a one-row window has no sample variance. */
  function RollingStd(c: Column, w: nat, sqrt: real -> NonNegReal): (r: Column)
    requires 1 <= w
    ensures |r| == |c|
    ensures forall i :: 0 <= i < |r| && r[i].Some? ==> r[i].value >= 0.0
  {
    seq(|c|, i requires 0 <= i < |c| =>
      if i + 1 < w || w < 2 then None
      else if Complete(Window(c, i, w)) then Some(sqrt(SampleVariance(Vals(Window(c, i, w)))) as real)
      else None)
  }

  /** `ma + (std * 2)`, missing wherever either operand is. */
  function BandHigh(c: Column, w: nat, sqrt: real -> NonNegReal): (r: Column)
    requires 1 <= w
    ensures |r| == |c|
  {
    var ma := RollingMean(c, w);
    var sd := RollingStd(c, w, sqrt);
    seq(|c|, i requires 0 <= i < |c| =>
      if ma[i].Some? && sd[i].Some? then Some(ma[i].value + sd[i].value * 2.0) else None)
  }

  /** `ma - (std * 2)`. */
  function BandLow(c: Column, w: nat, sqrt: real -> NonNegReal): (r: Column)
    requires 1 <= w
    ensures |r| == |c|
  {
    var ma := RollingMean(c, w);
    var sd := RollingStd(c, w, sqrt);
    seq(|c|, i requires 0 <= i < |c| =>
      if ma[i].Some? && sd[i].Some? then Some(ma[i].value - sd[i].value * 2.0) else None)
  }

  /** The bands at row `i`: defined exactly where the sample deviation is (a
      full window of at least two defined prices), symmetric about the moving
      average at twice the deviation, and never crossed. */
  lemma BandsAt(c: Column, w: nat, sqrt: real -> NonNegReal, i: nat)
    requires 1 <= w && i < |c|
    ensures BandHigh(c, w, sqrt)[i].Some? <==> RollingStd(c, w, sqrt)[i].Some?
    ensures BandLow(c, w, sqrt)[i].Some? <==> RollingStd(c, w, sqrt)[i].Some?
    ensures RollingStd(c, w, sqrt)[i].Some? <==> 2 <= w <= i + 1 && Complete(c[i + 1 - w .. i + 1])
    ensures BandHigh(c, w, sqrt)[i].Some? ==>
              && RollingMean(c, w)[i].Some?
              && BandHigh(c, w, sqrt)[i].value - RollingMean(c, w)[i].value
                 == 2.0 * RollingStd(c, w, sqrt)[i].value
              && RollingMean(c, w)[i].value - BandLow(c, w, sqrt)[i].value
                 == 2.0 * RollingStd(c, w, sqrt)[i].value
              && BandLow(c, w, sqrt)[i].value <= BandHigh(c, w, sqrt)[i].value
  {
  }
}
