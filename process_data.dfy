/** src/data/process_data.py: cleaning, the `MA_w` and `RSI` indicator
    columns, standardisation (as an opaque step), gap padding, and the
    chronological train/test split. */
module ProcessData {
  import opened Frame
  import opened Rows
  import opened Rolling
  import opened Fill

  const DateKey: string := "date"
  const CloseKey: string := "close"
  const RsiKey: string := "RSI"

  /** `f'MA_{window_size}'`. */
  function MaKey(w: nat): string {
    "MA_" + NatToString(w)
  }

  /** The columns `normalize_features` standardises, as listed in the source. */
  const Features: seq<string> := ["open", "high", "low", "close", "volume", "MA_5", "RSI"]

  /** The moving-average column never collides with the other names this
      file writes or reads, and it is `MA_5` exactly for window 5. */
  lemma MaKeyFacts(w: nat)
    ensures MaKey(w) != DateKey && MaKey(w) != CloseKey && MaKey(w) != RsiKey
    ensures MaKey(w) == "MA_5" <==> w == 5
    ensures MaKey(w)[0] == 'M'
  {
    assert MaKey(w)[0] == 'M' && MaKey(w)[1] == 'A';
    assert NatToString(5) == "5";
    if MaKey(w) == "MA_5" {
      assert NatToString(w) == MaKey(w)[3..] == "5";
      NatToStringInjective(w, 5);
    }
  }

  lemma DateIsNotAFeature()
    ensures DateKey !in Features
  {
    forall k | k in Features ensures k[0] != 'd' {
    }
  }

  // ---------------------------------------------------------------------------
  // clean_data

  /** `data.dropna()` followed by `drop_duplicates(subset='date', keep='first')`;
      the second step raises KeyError when there is no `date` column. */
  function CleanData(t: Table): (r: Result<Table>)
    requires t.Valid()
    ensures r.Err? <==> DateKey !in t.cols
    ensures r.Err? ==> r.error == KeyError(DateKey)
    ensures r.Ok? ==> r.value.Valid() && r.value.names == t.names && r.value.rows <= t.rows
    ensures r.Ok? ==> forall k :: k in r.value.cols <==> k in t.cols
  {
    var complete := DropMissing(t);
    if DateKey !in complete.cols then Err(KeyError(DateKey))
    else
      var r := DropDuplicates(complete, DateKey);
      IncreasingLength(CompleteRows(t), t.rows);
      IncreasingLength(FirstRows(complete.cols[DateKey]), complete.rows);
      Ok(r)
  }

  /** Row i survives `clean_data`: it has no missing cell, and no earlier
      row without a missing cell carries the same date (duplicates among
      rows that `dropna` already removed do not count). */
  predicate KeptByClean(t: Table, i: nat)
    requires t.Valid() && DateKey in t.cols && i < t.rows
  {
    && RowComplete(t, i)
    && forall j :: 0 <= j < i && RowComplete(t, j) ==> t.cols[DateKey][j] != t.cols[DateKey][i]
  }

  /** The input rows `clean_data` keeps, in order. */
  function CleanRows(t: Table): (idx: seq<nat>)
    requires t.Valid() && DateKey in t.cols
    ensures Increasing(idx)
    ensures forall m :: 0 <= m < |idx| ==> idx[m] < t.rows
  {
    var a := CompleteRows(t);
    var b := FirstRows(Pick(t.cols[DateKey], a));
    ComposeIncreasing(a, b);
    Pick(a, b)
  }

  lemma CleanRowsSound(t: Table, i: nat)
    requires t.Valid() && DateKey in t.cols && i < t.rows
    requires i in CleanRows(t)
    ensures KeptByClean(t, i)
  {
    var a := CompleteRows(t);
    var dates := Pick(t.cols[DateKey], a);
    var b := FirstRows(dates);
    var idx := CleanRows(t);
    var m :| 0 <= m < |idx| && idx[m] == i;
    assert i == a[b[m]];
    assert FirstOccurrence(dates, b[m]);
    forall j | 0 <= j < i && RowComplete(t, j) ensures t.cols[DateKey][j] != t.cols[DateKey][i] {
      assert j in a;
      var p :| 0 <= p < |a| && a[p] == j;
      IncreasingOrder(a, p, b[m]);
      assert dates[p] != dates[b[m]];
    }
  }

  lemma CleanRowsComplete(t: Table, i: nat)
    requires t.Valid() && DateKey in t.cols && i < t.rows
    requires KeptByClean(t, i)
    ensures i in CleanRows(t)
  {
    var a := CompleteRows(t);
    var dates := Pick(t.cols[DateKey], a);
    var b := FirstRows(dates);
    assert i in a;
    var p :| 0 <= p < |a| && a[p] == i;
    forall q | 0 <= q < p ensures dates[q] != dates[p] {
      IncreasingOrder(a, q, p);
    }
    assert FirstOccurrence(dates, p);
    var m :| 0 <= m < |b| && b[m] == p;
    assert CleanRows(t)[m] == i;
  }

  /** `clean_data` keeps an order-preserving selection of the input rows. */
  lemma CleanDataSelectsRows(t: Table)
    requires t.Valid() && DateKey in t.cols
    ensures CleanData(t) == Ok(Select(t, CleanRows(t)))
  {
    var a := CompleteRows(t);
    SelectSelect(t, a, FirstRows(Pick(t.cols[DateKey], a)));
  }

  /** Row i is among the rows `clean_data` keeps exactly when it is kept by
      the rule of `KeptByClean`. */
  lemma CleanDataKeepsFirstCompleteRows(t: Table)
    requires t.Valid() && DateKey in t.cols
    ensures forall i :: 0 <= i < t.rows ==> (i in CleanRows(t) <==> KeptByClean(t, i))
  {
    forall i | 0 <= i < t.rows ensures i in CleanRows(t) <==> KeptByClean(t, i) {
      if i in CleanRows(t) {
        CleanRowsSound(t, i);
      }
      if KeptByClean(t, i) {
        CleanRowsComplete(t, i);
      }
    }
  }

  /** Every cell that `clean_data` returns is defined. */
  lemma CleanDataComplete(t: Table)
    requires t.Valid() && DateKey in t.cols
    ensures forall k, m :: k in CleanData(t).value.cols && 0 <= m < CleanData(t).value.rows ==>
              CleanData(t).value.cols[k][m].Some?
  {
    CleanDataSelectsRows(t);
    var idx := CleanRows(t);
    forall m | 0 <= m < |idx| ensures RowComplete(t, idx[m]) {
      CleanRowsSound(t, idx[m]);
    }
  }

  /** The dates `clean_data` returns are pairwise distinct. */
  lemma CleanDataDistinctDates(t: Table)
    requires t.Valid() && DateKey in t.cols
    ensures var r := CleanData(t).value;
            forall x, y :: 0 <= x < y < r.rows ==> r.cols[DateKey][x] != r.cols[DateKey][y]
  {
    CleanDataSelectsRows(t);
    var idx := CleanRows(t);
    var r := CleanData(t).value;
    forall x, y | 0 <= x < y < r.rows ensures r.cols[DateKey][x] != r.cols[DateKey][y] {
      CleanRowsSound(t, idx[x]);
      CleanRowsSound(t, idx[y]);
      assert idx[x] < idx[y];
    }
  }

  /** A table with no missing cell and distinct dates is already clean. */
  lemma CleanDataOfCleanTable(t: Table)
    requires t.Valid() && DateKey in t.cols
    requires forall k, m :: k in t.cols && 0 <= m < t.rows ==> t.cols[k][m].Some?
    requires forall x, y :: 0 <= x < y < t.rows ==> t.cols[DateKey][x] != t.cols[DateKey][y]
    ensures CleanData(t) == Ok(t)
  {
    CompleteRowsOfComplete(t);
    SelectRange(t);
    assert DropMissing(t) == t;
    FirstRowsOfDistinct(t.cols[DateKey]);
  }

  /** Cleaning twice is cleaning once. */
  lemma CleanDataIdempotent(t: Table)
    requires t.Valid() && DateKey in t.cols
    ensures CleanData(CleanData(t).value) == CleanData(t)
  {
    CleanDataComplete(t);
    CleanDataDistinctDates(t);
    CleanDataOfCleanTable(CleanData(t).value);
  }

  // ---------------------------------------------------------------------------
  // add_moving_average, add_rsi

  /** `data[f'MA_{w}'] = data['close'].rolling(window=w).mean()`. */
  function AddMovingAverage(t: Table, w: nat): (r: Result<Table>)
    requires t.Valid() && 1 <= w
    ensures r.Err? <==> CloseKey !in t.cols
    ensures r.Err? ==> r.error == KeyError(CloseKey)
    ensures r.Ok? ==> r.value.Valid() && r.value.rows == t.rows
    ensures r.Ok? ==> r.value.names == if MaKey(w) in t.cols then t.names else t.names + [MaKey(w)]
    ensures r.Ok? ==> forall k :: k in t.cols && k != MaKey(w) ==> k in r.value.cols && r.value.cols[k] == t.cols[k]
    ensures r.Ok? ==> forall k :: k in r.value.cols ==> k in t.cols || k == MaKey(w)
  {
    if CloseKey !in t.cols then Err(KeyError(CloseKey))
    else Ok(WithColumn(t, MaKey(w), RollingMean(t.cols[CloseKey], w)))
  }

  /** What `MA_w` holds: nothing before row w-1; from there, the mean of the
      w closing prices ending at that row whenever all of them are defined. */
  lemma AddMovingAverageColumn(t: Table, w: nat, i: nat)
    requires t.Valid() && 1 <= w && CloseKey in t.cols && i < t.rows
    ensures var ma := AddMovingAverage(t, w).value.cols[MaKey(w)];
            var close := t.cols[CloseKey];
            && |ma| == t.rows
            && (i + 1 < w ==> ma[i].None?)
            && (w <= i + 1 ==>
                  && (ma[i].Some? <==> Complete(close[i + 1 - w .. i + 1]))
                  && (ma[i].Some? ==> ma[i].value * w as real == Sum(Vals(close[i + 1 - w .. i + 1]))))
  {
    RollingMeanAt(t.cols[CloseKey], w, i);
  }

  /** `close` = 1, 2, 3, 4, 5 with a window of 3 gives [NaN, NaN, 2, 3, 4]. */
  lemma MovingAverageExample()
    ensures RollingMean([Some(1.0), Some(2.0), Some(3.0), Some(4.0), Some(5.0)], 3)
            == [None, None, Some(2.0), Some(3.0), Some(4.0)]
  {
    var c: Column := [Some(1.0), Some(2.0), Some(3.0), Some(4.0), Some(5.0)];
    var r := RollingMean(c, 3);
    assert Complete(c);
    RollingMeanOfComplete(c, 3);
    assert r[0] == None && r[1] == None;
    assert Vals(c) == [1.0, 2.0, 3.0, 4.0, 5.0];
    assert EvenlySpaced(Vals(c), 1.0);
    MovingAverageOfEvenlySpaced(c, 1.0, 3, 2);
    assert r[2] == Some(2.0);
    MovingAverageOfEvenlySpaced(c, 1.0, 3, 3);
    assert r[3] == Some(3.0);
    MovingAverageOfEvenlySpaced(c, 1.0, 3, 4);
    assert r[4] == Some(4.0);
  }

  /** `data['RSI'] = 100 - (100 / (1 + gain / loss))` over `close`. */
  function AddRsi(t: Table, w: nat): (r: Result<Table>)
    requires t.Valid() && 1 <= w
    ensures r.Err? <==> CloseKey !in t.cols
    ensures r.Err? ==> r.error == KeyError(CloseKey)
    ensures r.Ok? ==> r.value.Valid() && r.value.rows == t.rows
    ensures r.Ok? ==> r.value.names == if RsiKey in t.cols then t.names else t.names + [RsiKey]
    ensures r.Ok? ==> forall k :: k in t.cols && k != RsiKey ==> k in r.value.cols && r.value.cols[k] == t.cols[k]
    ensures r.Ok? ==> forall k :: k in r.value.cols ==> k in t.cols || k == RsiKey
  {
    if CloseKey !in t.cols then Err(KeyError(CloseKey))
    else Ok(WithColumn(t, RsiKey, Rsi(t.cols[CloseKey], w)))
  }

  /** What `RSI` holds (see `RsiCellFacts`): defined from row w-1 wherever
      the window's mean gain plus mean loss is positive, and then
      100·gain/(gain+loss), in [0, 100]; 100 on zero loss with a gain. */
  lemma AddRsiColumn(t: Table, w: nat, i: nat)
    requires t.Valid() && 1 <= w && CloseKey in t.cols && i < t.rows
    ensures |AddRsi(t, w).value.cols[RsiKey]| == t.rows
    ensures RsiCellFacts(AddRsi(t, w).value.cols[RsiKey], t.cols[CloseKey], w, i)
  {
    assert AddRsi(t, w).value.cols[RsiKey] == Rsi(t.cols[CloseKey], w);
    RsiCell(AddRsi(t, w).value.cols[RsiKey], t.cols[CloseKey], w, i);
  }

  // ---------------------------------------------------------------------------
  // normalize_features (opaque)

  /** A standardised column: the scaler's value `z(c, i)` at every defined
      cell, missing cells left missing. */
  function Standardize(c: Column, z: (Column, nat) -> real): (r: Column)
    ensures |r| == |c|
    ensures forall i :: 0 <= i < |c| ==> (r[i].Some? <==> c[i].Some?)
  {
    seq(|c|, i requires 0 <= i < |c| => if c[i].Some? then Some(z(c, i)) else None)
  }

  /** The first of `keys` that is not a column of `t`. */
  function MissingKey(keys: seq<string>, t: Table): (r: Option<string>)
    ensures r.None? <==> forall k :: k in keys ==> k in t.cols
    ensures r.Some? ==> r.value in keys && r.value !in t.cols
  {
    if keys == [] then None
    else if keys[0] !in t.cols then Some(keys[0])
    else MissingKey(keys[1..], t)
  }

  /** `data[features] = StandardScaler().fit_transform(data[features])`:
      selecting the hard-coded columns raises KeyError when one is absent,
      and the scaler rejects an empty table. The scaling itself is the
      parameter `z`; only its shape is modelled. */
  function NormalizeFeatures(t: Table, z: (Column, nat) -> real): (r: Result<Table>)
    requires t.Valid()
    ensures r.Err? <==> MissingKey(Features, t).Some? || t.rows == 0
    ensures r.Err? && MissingKey(Features, t).Some? ==> r.error == KeyError(MissingKey(Features, t).value)
    ensures r.Ok? ==> r.value.Valid() && r.value.names == t.names && r.value.rows == t.rows
    ensures r.Ok? ==> forall k :: k in r.value.cols <==> k in t.cols
    ensures r.Ok? ==> forall k :: k in t.cols && k !in Features ==> r.value.cols[k] == t.cols[k]
    ensures r.Ok? ==> forall k, i :: k in t.cols && 0 <= i < t.rows ==>
              (r.value.cols[k][i].Some? <==> t.cols[k][i].Some?)
  {
    match MissingKey(Features, t)
    case Some(k) => Err(KeyError(k))
    case None =>
      if t.rows == 0 then Err(EmptyInput)
      else Ok(Table(t.names, StandardizeListed(t, z), t.rows))
  }

  /** The columns of `t` with every listed feature standardized. */
  function StandardizeListed(t: Table, z: (Column, nat) -> real): (m: map<string, Column>)
    requires t.Valid()
    ensures forall k :: k in m <==> k in t.cols
    ensures forall k :: k in t.cols && k !in Features ==> m[k] == t.cols[k]
    ensures forall k :: k in t.cols ==> |m[k]| == t.rows
    ensures forall k, i :: k in t.cols && 0 <= i < t.rows ==> (m[k][i].Some? <==> t.cols[k][i].Some?)
  {
    map k | k in t.cols :: if k in Features then Standardize(t.cols[k], z) else t.cols[k]
  }

  // ---------------------------------------------------------------------------
  // pad_missing_values

  /** Forward- then back-fills `MA_w` and then `RSI`; reading either column
      raises KeyError when it is absent, `MA_w` being read first. */
  function PadMissingValues(t: Table, w: nat): (r: Result<Table>)
    requires t.Valid()
    ensures r.Err? <==> MaKey(w) !in t.cols || RsiKey !in t.cols
    ensures r.Err? ==> r.error == KeyError(if MaKey(w) !in t.cols then MaKey(w) else RsiKey)
    ensures r.Ok? ==> r.value.Valid() && r.value.names == t.names && r.value.rows == t.rows
    ensures r.Ok? ==> forall k :: k in r.value.cols <==> k in t.cols
    ensures r.Ok? ==> forall k :: k in t.cols && k != MaKey(w) && k != RsiKey ==> r.value.cols[k] == t.cols[k]
    ensures r.Ok? ==> && r.value.cols[MaKey(w)] == Pad(t.cols[MaKey(w)])
                      && r.value.cols[RsiKey] == Pad(t.cols[RsiKey])
  {
    if MaKey(w) !in t.cols then Err(KeyError(MaKey(w)))
    else if RsiKey !in t.cols then Err(KeyError(RsiKey))
    else
      MaKeyFacts(w);
      var t1 := WithColumn(t, MaKey(w), Pad(t.cols[MaKey(w)]));
      Ok(WithColumn(t1, RsiKey, Pad(t1.cols[RsiKey])))
  }

  /** Padding a column keeps every defined cell, gives a missing cell below
      a defined one the nearest defined cell above it, gives a missing cell
      above every defined one the first defined cell, leaves no gap when the
      column has a defined cell, and leaves an all-missing column alone. */
  predicate PaddedFrom(before: Column, after: Column) {
    && |after| == |before|
    && (forall i :: 0 <= i < |before| && before[i].Some? ==> after[i] == before[i])
    && (forall k, i :: 0 <= k < i < |before| && before[k].Some? && (forall m :: k < m <= i ==> before[m].None?) ==>
          after[i] == before[k])
    && (forall k, i :: 0 <= i < k < |before| && before[k].Some? && (forall m :: 0 <= m < k ==> before[m].None?) ==>
          after[i] == before[k])
    && ((exists k :: 0 <= k < |before| && before[k].Some?) ==> forall i :: 0 <= i < |after| ==> after[i].Some?)
    && ((forall k :: 0 <= k < |before| ==> before[k].None?) ==> forall i :: 0 <= i < |after| ==> after[i].None?)
  }

  lemma PadIsPaddedFrom(c: Column)
    ensures PaddedFrom(c, Pad(c))
  {
    forall i | 0 <= i < |c| {
      PadAt(c, i);
    }
    if exists k :: 0 <= k < |c| && c[k].Some? {
      var k :| 0 <= k < |c| && c[k].Some?;
      PadFillsEverything(c, k);
    }
  }

  /** `pad_missing_values` changes only `MA_w` and `RSI`, and pads both. */
  lemma PadMissingValuesPads(t: Table, w: nat)
    requires t.Valid() && MaKey(w) in t.cols && RsiKey in t.cols
    ensures var r := PadMissingValues(t, w).value;
            && PaddedFrom(t.cols[MaKey(w)], r.cols[MaKey(w)])
            && PaddedFrom(t.cols[RsiKey], r.cols[RsiKey])
  {
    MaKeyFacts(w);
    PadIsPaddedFrom(t.cols[MaKey(w)]);
    PadIsPaddedFrom(t.cols[RsiKey]);
  }

  // ---------------------------------------------------------------------------
  // prepare_data

  /** `int(n * (1 - test_size))`, which truncates a non-negative product. */
  function SplitIndex(n: nat, testSize: real): (k: nat)
    requires 0.0 <= testSize <= 1.0
    ensures k <= n
    ensures k as real <= n as real * (1.0 - testSize) < k as real + 1.0
  {
    var x := n as real * (1.0 - testSize);
    assert 0.0 <= x <= n as real by {
      assert x == n as real - n as real * testSize;
      assert n as real * testSize >= 0.0;
    }
    x.Floor
  }

  /** `data.iloc[:split_idx]` and `data.iloc[split_idx:]`. */
  function Split(t: Table, testSize: real): (r: (Table, Table))
    requires t.Valid() && 0.0 <= testSize <= 1.0
    ensures r.0.Valid() && r.1.Valid() && r.0.names == t.names && r.1.names == t.names
    ensures r.0.rows == SplitIndex(t.rows, testSize) && r.0.rows + r.1.rows == t.rows
    ensures forall k :: (k in r.0.cols <==> k in t.cols) && (k in r.1.cols <==> k in t.cols)
    ensures forall k :: k in t.cols ==> r.0.cols[k] + r.1.cols[k] == t.cols[k]
  {
    var cut := SplitIndex(t.rows, testSize);
    var train := Slice(t, 0, cut);
    var test := Slice(t, cut, t.rows);
    assert forall k :: k in t.cols ==> t.cols[k][0..cut] + t.cols[k][cut..t.rows] == t.cols[k];
    (train, test)
  }

  /** The columns `prepare_data` reads from its input: `date` for cleaning
      and sorting, `close` for the indicators, and the scaler's list (where
      `MA_5` is supplied by the moving-average step when the window is 5,
      and `RSI` always by the RSI step). */
  predicate HasInputs(t: Table, maWindow: nat) {
    DateKey in t.cols && CloseKey in t.cols && HasScalerInputs(t, maWindow)
  }

  predicate HasScalerInputs(t: Table, maWindow: nat) {
    && "open" in t.cols && "high" in t.cols && "low" in t.cols && "volume" in t.cols
    && ("MA_5" in t.cols || maWindow == 5)
  }

  /** Every step of `prepare_data` before the sort. */
  function Preprocess(t: Table, maWindow: nat, rsiWindow: nat, z: (Column, nat) -> real): (r: Result<Table>)
    requires t.Valid() && 1 <= maWindow && 1 <= rsiWindow
    ensures r.Ok? ==> && r.value.Valid()
                      && CleanData(t).Ok?
                      && r.value.rows == CleanData(t).value.rows
                      && DateKey in r.value.cols
                      && r.value.cols[DateKey] == CleanData(t).value.cols[DateKey]
                      && (forall k :: k in r.value.cols <==> k in t.cols || k == MaKey(maWindow) || k == RsiKey)
    ensures r.Ok? ==> forall k :: k in t.cols && k !in Features && k != MaKey(maWindow) && k != RsiKey ==>
              k in CleanData(t).value.cols && r.value.cols[k] == CleanData(t).value.cols[k]
  {
    MaKeyFacts(maWindow);
    var cleaned :- CleanData(t);
    var withMa :- AddMovingAverage(cleaned, maWindow);
    // add_rsi cannot fail once add_moving_average has read `close`
    var withRsi := AddRsi(withMa, rsiWindow).value;
    assert withRsi.rows == cleaned.rows;
    assert withRsi.cols[DateKey] == cleaned.cols[DateKey];
    assert forall k :: k in withRsi.cols <==> k in t.cols || k == MaKey(maWindow) || k == RsiKey;
    var normalized :- NormalizeFeatures(withRsi, z);
    DateIsNotAFeature();
    PadMissingValues(normalized, maWindow)
  }

  /** When the steps before the sort succeed, and which error they raise
      otherwise: a missing `date` stops cleaning, a missing `close` stops the
      moving average, a missing scaler column or an empty cleaned table
      stops the scaler. */
  lemma PreprocessOutcome(t: Table, maWindow: nat, rsiWindow: nat, z: (Column, nat) -> real)
    requires t.Valid() && 1 <= maWindow && 1 <= rsiWindow
    ensures var r := Preprocess(t, maWindow, rsiWindow, z);
            && (DateKey !in t.cols ==> r == Err(KeyError(DateKey)))
            && (DateKey in t.cols && CloseKey !in t.cols ==> r == Err(KeyError(CloseKey)))
            && (DateKey in t.cols && CloseKey in t.cols && !HasInputs(t, maWindow) ==>
                  r.Err? && r.error.KeyError? && r.error.key in Features)
            && (HasInputs(t, maWindow) && CleanData(t).value.rows == 0 ==> r == Err(EmptyInput))
            && (r.Ok? <==> HasInputs(t, maWindow) && CleanData(t).value.rows > 0)
  {
    MaKeyFacts(maWindow);
    if DateKey in t.cols && CloseKey in t.cols {
      var cleaned := CleanData(t).value;
      var withMa := AddMovingAverage(cleaned, maWindow).value;
      var withRsi := AddRsi(withMa, rsiWindow).value;
      assert forall k :: k in withRsi.cols <==> k in t.cols || k == MaKey(maWindow) || k == RsiKey;
      FeaturesPresent(t, withRsi, maWindow);
    }
  }

  lemma FeaturesPresent(t: Table, u: Table, maWindow: nat)
    requires forall k :: k in u.cols <==> k in t.cols || k == MaKey(maWindow) || k == RsiKey
    requires CloseKey in t.cols
    ensures MissingKey(Features, u).None? <==> HasScalerInputs(t, maWindow)
  {
    MaKeyFacts(maWindow);
    var m := MaKey(maWindow);
    assert "open" in u.cols <==> "open" in t.cols by {
      assert "open"[0] != m[0] && "open"[0] != RsiKey[0];
    }
    assert "high" in u.cols <==> "high" in t.cols by {
      assert "high"[0] != m[0] && "high"[0] != RsiKey[0];
    }
    assert "low" in u.cols <==> "low" in t.cols by {
      assert "low"[0] != m[0] && "low"[0] != RsiKey[0];
    }
    assert "volume" in u.cols <==> "volume" in t.cols by {
      assert "volume"[0] != m[0] && "volume"[0] != RsiKey[0];
    }
    assert "MA_5" in u.cols <==> "MA_5" in t.cols || maWindow == 5 by {
      assert "MA_5"[1] != RsiKey[1];
    }
    assert RsiKey in u.cols;
    FeaturesOf(u);
  }

  lemma FeaturesOf(u: Table)
    ensures MissingKey(Features, u).None? <==>
              && "open" in u.cols && "high" in u.cols && "low" in u.cols && CloseKey in u.cols
              && "volume" in u.cols && "MA_5" in u.cols && RsiKey in u.cols
  {
  }

  /** The tail of `prepare_data`: `sort_values(by='date')`, then the cut at
      `int(n * (1 - test_size))` into training and test rows. */
  function SortAndSplit(t: Table, testSize: real): (r: (Table, Table))
    requires t.Valid() && DateKey in t.cols && 0.0 <= testSize <= 1.0
    ensures r.0.Valid() && r.1.Valid() && r.0.names == t.names && r.1.names == t.names
    ensures r.0.rows + r.1.rows == t.rows && r.0.rows == SplitIndex(t.rows, testSize)
    ensures forall k :: (k in r.0.cols <==> k in t.cols) && (k in r.1.cols <==> k in t.cols)
    ensures forall k :: k in t.cols ==> r.0.cols[k] + r.1.cols[k] == SortBy(t, DateKey).cols[k]
    ensures forall k :: k in t.cols ==> multiset(r.0.cols[k] + r.1.cols[k]) == multiset(t.cols[k])
  {
    SortByPermutes(t, DateKey);
    Split(SortBy(t, DateKey), testSize)
  }

  /** Whole rows move together: one date-ordered permutation `p` of the row
      positions gives row `m` of train ++ test, in every column, as input
      row `p[m]`. */
  lemma SortAndSplitRows(t: Table, testSize: real)
    requires t.Valid() && DateKey in t.cols && 0.0 <= testSize <= 1.0
    ensures var p := SortedPositions(t.cols[DateKey], t.rows);
            var (train, test) := SortAndSplit(t, testSize);
            && SortedPermutation(t.cols[DateKey], p, t.rows)
            && forall k, m :: k in t.cols && 0 <= m < t.rows ==>
                 (train.cols[k] + test.cols[k])[m] == t.cols[k][p[m]]
  {
    var (train, test) := SortAndSplit(t, testSize);
    var sorted := SortBy(t, DateKey);
    forall k | k in t.cols ensures train.cols[k] + test.cols[k] == sorted.cols[k] {
    }
  }

  /** The split is chronological: when the dates are defined and distinct,
      reading the training rows and then the test rows, every date is
      strictly later than the one before, so no test row precedes a
      training row. */
  lemma SortAndSplitChronological(t: Table, testSize: real)
    requires t.Valid() && DateKey in t.cols && 0.0 <= testSize <= 1.0
    requires forall m :: 0 <= m < t.rows ==> t.cols[DateKey][m].Some?
    requires forall x, y :: 0 <= x < y < t.rows ==> t.cols[DateKey][x] != t.cols[DateKey][y]
    ensures var (train, test) := SortAndSplit(t, testSize);
            var d := train.cols[DateKey] + test.cols[DateKey];
            forall x, y :: 0 <= x < y < |d| ==> d[x].Some? && d[y].Some? && d[x].value < d[y].value
  {
    SortByStrictlyIncreasing(t, DateKey);
  }

  /** `prepare_data`: clean, add `MA_w` and `RSI`, standardise, pad, sort by
      date, and split. */
  function PrepareData(t: Table, testSize: real, maWindow: nat, rsiWindow: nat, z: (Column, nat) -> real)
    : (r: Result<(Table, Table)>)
    requires t.Valid() && 0.0 <= testSize <= 1.0 && 1 <= maWindow && 1 <= rsiWindow
    ensures r.Ok? ==> && CleanData(t).Ok?
                      && r.value.0.rows + r.value.1.rows == CleanData(t).value.rows
                      && r.value.0.names == r.value.1.names
  {
    var padded :- Preprocess(t, maWindow, rsiWindow, z);
    Ok(SortAndSplit(padded, testSize))
  }

  /** Which inputs `prepare_data` accepts, and the error it raises for the
      others: a missing `date` stops cleaning, a missing `close` stops the
      moving average, a missing scaler column or an empty cleaned table
      stops the scaler. */
  lemma PrepareDataOutcome(t: Table, testSize: real, maWindow: nat, rsiWindow: nat, z: (Column, nat) -> real)
    requires t.Valid() && 0.0 <= testSize <= 1.0 && 1 <= maWindow && 1 <= rsiWindow
    ensures var r := PrepareData(t, testSize, maWindow, rsiWindow, z);
            && (DateKey !in t.cols ==> r == Err(KeyError(DateKey)))
            && (DateKey in t.cols && CloseKey !in t.cols ==> r == Err(KeyError(CloseKey)))
            && (DateKey in t.cols && CloseKey in t.cols && !HasInputs(t, maWindow) ==>
                  r.Err? && r.error.KeyError? && r.error.key in Features)
            && (HasInputs(t, maWindow) && CleanData(t).value.rows == 0 ==> r == Err(EmptyInput))
            && (r.Ok? <==> HasInputs(t, maWindow) && CleanData(t).value.rows > 0)
  {
    PreprocessOutcome(t, maWindow, rsiWindow, z);
  }

  /** On success the two halves are the preprocessed table sorted by date
      and cut in two: train ++ test is, column by column, the sorted table
      (so whole rows move together, see `SortAndSplitRows`), its dates
      strictly increase, the training half has the split index's length,
      and both carry the `MA_w` and `RSI` columns. */
  lemma PrepareDataSplit(t: Table, testSize: real, maWindow: nat, rsiWindow: nat, z: (Column, nat) -> real)
    requires t.Valid() && 0.0 <= testSize <= 1.0 && 1 <= maWindow && 1 <= rsiWindow
    requires PrepareData(t, testSize, maWindow, rsiWindow, z).Ok?
    ensures Preprocess(t, maWindow, rsiWindow, z).Ok?
    ensures var padded := Preprocess(t, maWindow, rsiWindow, z).value;
            var (train, test) := PrepareData(t, testSize, maWindow, rsiWindow, z).value;
            forall k :: k in padded.cols ==>
              && k in train.cols && k in test.cols
              && train.cols[k] + test.cols[k] == SortBy(padded, DateKey).cols[k]
    ensures CleanData(t).Ok?
    ensures var (train, test) := PrepareData(t, testSize, maWindow, rsiWindow, z).value;
            && train.rows + test.rows == CleanData(t).value.rows
            && train.rows == SplitIndex(CleanData(t).value.rows, testSize)
            && train.names == test.names
            && MaKey(maWindow) in train.cols && RsiKey in train.cols
            && MaKey(maWindow) in test.cols && RsiKey in test.cols
            && DateKey in train.cols && DateKey in test.cols
            && var d := train.cols[DateKey] + test.cols[DateKey];
               forall x, y :: 0 <= x < y < |d| ==> d[x].Some? && d[y].Some? && d[x].value < d[y].value
  {
    var padded := Preprocess(t, maWindow, rsiWindow, z).value;
    CleanDataComplete(t);
    CleanDataDistinctDates(t);
    SortAndSplitChronological(padded, testSize);
  }

  /** The unit test of `prepare_data`, for any table shaped like its input:
      five rows of days 1 to 5 with no missing cell and the columns the
      pipeline reads; a test share of 0.4 gives three training rows and two
      test rows, both carrying `MA_5` and `RSI`. */
  lemma PrepareDataExample(t: Table, z: (Column, nat) -> real)
    requires t.Valid() && t.rows == 5 && HasInputs(t, 5)
    requires forall k :: k in t.cols ==> Complete(t.cols[k])
    requires t.cols[DateKey] == [Some(1.0), Some(2.0), Some(3.0), Some(4.0), Some(5.0)]
    ensures var r := PrepareData(t, 0.4, 5, 14, z);
            && r.Ok?
            && r.value.0.rows == 3 && r.value.1.rows == 2
            && "MA_5" in r.value.0.cols && "RSI" in r.value.0.cols
            && "MA_5" in r.value.1.cols && "RSI" in r.value.1.cols
  {
    DistinctDays(t.cols[DateKey]);
    CleanDataOfCleanTable(t);
    PrepareDataOutcome(t, 0.4, 5, 14, z);
    PrepareDataSplit(t, 0.4, 5, 14, z);
    MaKeyFacts(5);
    assert SplitIndex(5, 0.4) == 3;
  }

  lemma DistinctDays(d: Column)
    requires d == [Some(1.0), Some(2.0), Some(3.0), Some(4.0), Some(5.0)]
    ensures forall x, y :: 0 <= x < y < |d| ==> d[x] != d[y]
  {
    forall x, y | 0 <= x < y < |d| ensures d[x] != d[y] {
      assert d[x].value == x as real + 1.0 && d[y].value == y as real + 1.0;
    }
  }

  /** The unit test of `clean_data`: of three rows dated 1, 1 and 2, the
      last two have a missing `close`, so only the first row is kept. */
  lemma CleanDataExample(t: Table)
    requires t == Table(["date", "open", "close"],
                        map["date" := [Some(1.0), Some(1.0), Some(2.0)],
                            "open" := [Some(100.0), Some(101.0), Some(102.0)],
                            "close" := [Some(105.0), None, None]],
                        3)
    ensures t.Valid()
    ensures var r := CleanData(t);
            r.Ok? && r.value.rows == 1 && "open" in r.value.cols && r.value.cols["open"] == [Some(100.0)]
  {
    CleanDataExampleRows(t);
    CleanDataSelectsRows(t);
    SelectOne(t, "open", 0);
  }

  lemma SelectOne(t: Table, k: string, i: nat)
    requires t.Valid() && k in t.cols && i < t.rows
    ensures Select(t, [i]).rows == 1 && k in Select(t, [i]).cols
    ensures Select(t, [i]).cols[k] == [t.cols[k][i]]
  {
  }

  lemma CleanDataExampleRows(t: Table)
    requires t == Table(["date", "open", "close"],
                        map["date" := [Some(1.0), Some(1.0), Some(2.0)],
                            "open" := [Some(100.0), Some(101.0), Some(102.0)],
                            "close" := [Some(105.0), None, None]],
                        3)
    ensures t.Valid() && DateKey in t.cols && CleanRows(t) == [0]
  {
    assert t.Valid();
    var close := t.cols["close"];
    assert !RowComplete(t, 1) by {
      assert close[1].None?;
    }
    assert !RowComplete(t, 2) by {
      assert close[2].None?;
    }
    assert RowComplete(t, 0);
    CleanRowsSingle(t, 0);
  }

  /** When exactly one row passes the rule, it is all `clean_data` keeps. */
  lemma CleanRowsSingle(t: Table, i: nat)
    requires t.Valid() && DateKey in t.cols && i < t.rows && KeptByClean(t, i)
    requires forall j :: 0 <= j < t.rows && j != i ==> !RowComplete(t, j)
    ensures CleanRows(t) == [i]
  {
    var idx := CleanRows(t);
    CleanRowsComplete(t, i);
    var last := |idx| - 1;
    CleanRowsSound(t, idx[0]);
    CleanRowsSound(t, idx[last]);
    IncreasingOrder(idx, 0, last);
    assert idx[0] == i == idx[last];
  }
}
