/** src/features/build_features.py: the lower-case indicator columns
    `ma_w`, `rsi`, `bb_high` and `bb_low`, and the length guard in front of
    them. */
module BuildFeatures {
  import opened Frame
  import opened Rolling

  const CloseKey: string := "close"
  const RsiKey: string := "rsi"
  const BandHighKey: string := "bb_high"
  const BandLowKey: string := "bb_low"

  /** `MIN_REQUIRED_LENGTH`. */
  const MinRequiredLength: nat := 50
  /** The default arguments `build_features` relies on. */
  const DefaultWindows: seq<nat> := [5, 20, 50]
  const DefaultRsiWindow: nat := 14
  const DefaultBandWindow: nat := 20

  /** `f'ma_{window}'`. */
  function MaName(w: nat): string {
    "ma_" + NatToString(w)
  }

  function MaNames(windows: seq<nat>): (r: seq<string>)
    ensures |r| == |windows| && forall j :: 0 <= j < |windows| ==> r[j] == MaName(windows[j])
  {
    seq(|windows|, j requires 0 <= j < |windows| => MaName(windows[j]))
  }

  /** An `ma_w` name never collides with the other columns this file reads
      or writes, and different windows give different names. */
  lemma MaNameFacts(w: nat)
    ensures MaName(w)[0] == 'm'
    ensures MaName(w) != CloseKey && MaName(w) != RsiKey && MaName(w) != BandHighKey && MaName(w) != BandLowKey
  {
    assert MaName(w)[0] == 'm';
  }

  lemma MaNameInjective(a: nat, b: nat)
    requires MaName(a) == MaName(b)
    ensures a == b
  {
    assert NatToString(a) == MaName(a)[3..] == MaName(b)[3..] == NatToString(b);
    NatToStringInjective(a, b);
  }

  /** The column order after assigning `news` one by one: a name already
      present keeps its place, a new one goes last. */
  function AppendNew(names: seq<string>, news: seq<string>): seq<string> {
    if news == [] then names
    else
      var p := AppendNew(names, news[..|news| - 1]);
      if news[|news| - 1] in p then p else p + [news[|news| - 1]]
  }

  /** Names none of which is present yet are appended in order. */
  lemma {:induction false} AppendNewFresh(names: seq<string>, news: seq<string>)
    requires forall n :: n in news ==> n !in names
    requires forall a, b :: 0 <= a < b < |news| ==> news[a] != news[b]
    ensures AppendNew(names, news) == names + news
  {
    if news != [] {
      var init := news[..|news| - 1];
      AppendNewFresh(names, init);
      assert news[|news| - 1] !in init;
      assert news == init + [news[|news| - 1]];
    }
  }

  /** Assigning one more name: it goes last unless already present. */
  lemma AppendNewSnoc(names: seq<string>, news: seq<string>, x: string)
    ensures var p := AppendNew(names, news);
            AppendNew(names, news + [x]) == if x in p then p else p + [x]
  {
    assert (news + [x])[..|news|] == news;
  }

  /** Writing a column onto a table whose names are `news` assigned onto
      `base` gives the names of one more assignment. */
  lemma WithColumnAppends(t: Table, base: seq<string>, news: seq<string>, x: string, c: Column)
    requires t.Valid() && |c| == t.rows && t.names == AppendNew(base, news)
    ensures WithColumn(t, x, c).names == AppendNew(base, news + [x])
  {
    AppendNewSnoc(base, news, x);
  }

  /** Assigning `xs` and then `ys` is assigning `xs + ys`. */
  lemma {:induction false} AppendNewConcat(base: seq<string>, xs: seq<string>, ys: seq<string>)
    ensures AppendNew(AppendNew(base, xs), ys) == AppendNew(base, xs + ys)
  {
    if ys == [] {
      assert xs + ys == xs;
    } else {
      var init := ys[..|ys| - 1];
      AppendNewConcat(base, xs, init);
      assert (xs + ys)[..|xs + ys| - 1] == xs + init;
    }
  }

  // ---------------------------------------------------------------------------
  // add_moving_averages

  /** `cur` is `t` after the `ma_w` columns of `ws` have been written, in
      order. */
  ghost predicate MovingAveragesWritten(t: Table, ws: seq<nat>, cur: Table)
    requires CloseKey in t.cols
  {
    && cur.Valid() && cur.rows == t.rows
    && cur.names == AppendNew(t.names, MaNames(ws))
    && (forall k :: k in cur.cols <==> k in t.cols || k in MaNames(ws))
    && (forall k :: k in t.cols && k !in MaNames(ws) ==> cur.cols[k] == t.cols[k])
    && (forall m :: 0 <= m < |ws| ==>
          && 1 <= ws[m] && MaName(ws[m]) in cur.cols
          && cur.cols[MaName(ws[m])] == RollingMean(t.cols[CloseKey], ws[m]))
  }

  /** Writing one more window keeps the description above. */
  lemma MovingAveragesStep(t: Table, ws: seq<nat>, cur: Table, w: nat)
    requires t.Valid() && CloseKey in t.cols && forall j :: 0 <= j < |ws| ==> 1 <= ws[j]
    requires 1 <= w && MovingAveragesWritten(t, ws, cur)
    ensures CloseKey in cur.cols && cur.cols[CloseKey] == t.cols[CloseKey]
    ensures MovingAveragesWritten(t, ws + [w], WithColumn(cur, MaName(w), RollingMean(cur.cols[CloseKey], w)))
  {
    assert CloseKey !in MaNames(ws) by {
      forall m | 0 <= m < |ws| ensures MaNames(ws)[m] != CloseKey {
        MaNameFacts(ws[m]);
      }
    }
    MaNamesSnoc(ws, w);
    StepNames(t, ws, cur, w);
    StepColumns(t, ws, cur, w);
  }

  lemma MaNamesSnoc(ws: seq<nat>, w: nat)
    ensures MaNames(ws + [w]) == MaNames(ws) + [MaName(w)]
  {
  }

  lemma StepNames(t: Table, ws: seq<nat>, cur: Table, w: nat)
    requires t.Valid() && CloseKey in t.cols && forall j :: 0 <= j < |ws| ==> 1 <= ws[j]
    requires 1 <= w && MovingAveragesWritten(t, ws, cur)
    requires MaNames(ws + [w]) == MaNames(ws) + [MaName(w)]
    ensures var next := WithColumn(cur, MaName(w), RollingMean(t.cols[CloseKey], w));
            && next.names == AppendNew(t.names, MaNames(ws + [w]))
            && (forall k :: k in next.cols <==> k in t.cols || k in MaNames(ws + [w]))
            && (forall k :: k in t.cols && k !in MaNames(ws + [w]) ==> next.cols[k] == t.cols[k])
  {
    assert MaNames(ws + [w])[..|ws|] == MaNames(ws);
  }

  lemma StepColumns(t: Table, ws: seq<nat>, cur: Table, w: nat)
    requires t.Valid() && CloseKey in t.cols && forall j :: 0 <= j < |ws| ==> 1 <= ws[j]
    requires 1 <= w && MovingAveragesWritten(t, ws, cur)
    ensures var next := WithColumn(cur, MaName(w), RollingMean(t.cols[CloseKey], w));
            forall m :: 0 <= m < |ws| + 1 ==>
              MaName((ws + [w])[m]) in next.cols &&
              next.cols[MaName((ws + [w])[m])] == RollingMean(t.cols[CloseKey], (ws + [w])[m])
  {
    var close := t.cols[CloseKey];
    var next := WithColumn(cur, MaName(w), RollingMean(close, w));
    var ws' := ws + [w];
    forall m | 0 <= m < |ws'|
      ensures MaName(ws'[m]) in next.cols && next.cols[MaName(ws'[m])] == RollingMean(close, ws'[m])
    {
      if m < |ws| && MaName(ws[m]) == MaName(w) {
        MaNameInjective(ws[m], w);
      }
    }
  }

  /** `for window in windows: data[f'ma_{window}'] = data['close'].rolling(window=window).mean()`:
      reading `close` raises KeyError unless the list is empty. Each listed
      window gets its trailing mean of `close`; every other column is left
      alone; new names go last, in list order. */
  method AddMovingAverages(t: Table, windows: seq<nat>) returns (r: Result<Table>)
    requires t.Valid()
    requires forall j :: 0 <= j < |windows| ==> 1 <= windows[j]
    ensures r.Err? <==> |windows| > 0 && CloseKey !in t.cols
    ensures r.Err? ==> r.error == KeyError(CloseKey)
    ensures r.Ok? ==> r.value.Valid() && r.value.rows == t.rows
    ensures r.Ok? ==> r.value.names == AppendNew(t.names, MaNames(windows))
    ensures r.Ok? ==> forall k :: k in r.value.cols <==> k in t.cols || k in MaNames(windows)
    ensures r.Ok? ==> forall k :: k in t.cols && k !in MaNames(windows) ==> r.value.cols[k] == t.cols[k]
    ensures r.Ok? ==> forall j :: 0 <= j < |windows| ==>
              MaName(windows[j]) in r.value.cols &&
              r.value.cols[MaName(windows[j])] == RollingMean(t.cols[CloseKey], windows[j])
  {
    if windows == [] {
      return Ok(t);
    }
    if CloseKey !in t.cols {
      return Err(KeyError(CloseKey));
    }
    var cur := t;
    var j := 0;
    WrittenNone(t, windows);
    while j < |windows|
      invariant 0 <= j <= |windows|
      invariant MovingAveragesWritten(t, windows[..j], cur)
    {
      WrittenNext(t, windows, j, cur);
      cur := WithColumn(cur, MaName(windows[j]), RollingMean(cur.cols[CloseKey], windows[j]));
      j := j + 1;
    }
    WrittenAll(t, windows, cur);
    return Ok(cur);
  }

  lemma WrittenNone(t: Table, windows: seq<nat>)
    requires t.Valid() && CloseKey in t.cols && forall j :: 0 <= j < |windows| ==> 1 <= windows[j]
    ensures MovingAveragesWritten(t, windows[..0], t)
  {
    assert MaNames(windows[..0]) == [];
  }

  lemma WrittenNext(t: Table, windows: seq<nat>, j: nat, cur: Table)
    requires t.Valid() && CloseKey in t.cols && forall j :: 0 <= j < |windows| ==> 1 <= windows[j]
    requires j < |windows| && MovingAveragesWritten(t, windows[..j], cur)
    ensures CloseKey in cur.cols && cur.cols[CloseKey] == t.cols[CloseKey]
    ensures MovingAveragesWritten(t, windows[..j + 1],
              WithColumn(cur, MaName(windows[j]), RollingMean(cur.cols[CloseKey], windows[j])))
  {
    PrefixSnoc(windows, j);
    MovingAveragesStep(t, windows[..j], cur, windows[j]);
  }

  lemma PrefixSnoc<T>(s: seq<T>, j: nat)
    requires j < |s|
    ensures s[..j + 1] == s[..j] + [s[j]]
  {
  }

  lemma WrittenAll(t: Table, windows: seq<nat>, cur: Table)
    requires t.Valid() && CloseKey in t.cols && forall j :: 0 <= j < |windows| ==> 1 <= windows[j]
    requires MovingAveragesWritten(t, windows[..|windows|], cur)
    ensures MovingAveragesWritten(t, windows, cur)
  {
    assert windows[..|windows|] == windows;
  }

  // ---------------------------------------------------------------------------
  // add_rsi, add_bollinger_bands

  /** `data['rsi'] = 100 - (100 / (1 + rs))` over `close`. */
  function AddRsi(t: Table, w: nat): (r: Result<Table>)
    requires t.Valid() && 1 <= w
    ensures r.Err? <==> CloseKey !in t.cols
    ensures r.Err? ==> r.error == KeyError(CloseKey)
    ensures r.Ok? ==> r.value.Valid() && r.value.rows == t.rows
    ensures r.Ok? ==> r.value.names == AppendNew(t.names, [RsiKey])
    ensures r.Ok? ==> forall k :: k in t.cols && k != RsiKey ==> k in r.value.cols && r.value.cols[k] == t.cols[k]
    ensures r.Ok? ==> forall k :: k in r.value.cols ==> k in t.cols || k == RsiKey
  {
    if CloseKey !in t.cols then Err(KeyError(CloseKey))
    else
      WithColumnAppends(t, t.names, [], RsiKey, Rsi(t.cols[CloseKey], w));
      Ok(WithColumn(t, RsiKey, Rsi(t.cols[CloseKey], w)))
  }

  /** What `rsi` holds (see `RsiCellFacts`): defined from row w-1 wherever
      the window's mean gain plus mean loss is positive, and then
      100·gain/(gain+loss), in [0, 100]; 100 on zero loss with a gain. */
  lemma AddRsiColumn(t: Table, w: nat, i: nat)
    requires t.Valid() && 1 <= w && CloseKey in t.cols && i < t.rows
    ensures |AddRsi(t, w).value.cols[RsiKey]| == t.rows
    ensures RsiCellFacts(AddRsi(t, w).value.cols[RsiKey], t.cols[CloseKey], w, i)
  {
    assert AddRsi(t, w).value.cols[RsiKey] == Rsi(t.cols[CloseKey], w);
    RsiCell(AddRsi(t, w).value.cols[RsiKey], t.cols[CloseKey], w, i);
  }

  /** `data['bb_high'] = ma + (std * 2)` and `data['bb_low'] = ma - (std * 2)`
      over `close`, both new names appended in that order when absent. */
  function AddBollingerBands(t: Table, w: nat, sqrt: real -> NonNegReal): (r: Result<Table>)
    requires t.Valid() && 1 <= w
    ensures r.Err? <==> CloseKey !in t.cols
    ensures r.Err? ==> r.error == KeyError(CloseKey)
    ensures r.Ok? ==> r.value.Valid() && r.value.rows == t.rows
    ensures r.Ok? ==> r.value.names == AppendNew(t.names, [BandHighKey, BandLowKey])
    ensures r.Ok? ==> forall k :: k in t.cols && k != BandHighKey && k != BandLowKey ==>
              k in r.value.cols && r.value.cols[k] == t.cols[k]
    ensures r.Ok? ==> forall k :: k in r.value.cols ==> k in t.cols || k == BandHighKey || k == BandLowKey
    ensures r.Ok? ==> && BandHighKey in r.value.cols && BandLowKey in r.value.cols
                      && r.value.cols[BandHighKey] == BandHigh(t.cols[CloseKey], w, sqrt)
                      && r.value.cols[BandLowKey] == BandLow(t.cols[CloseKey], w, sqrt)
  {
    if CloseKey !in t.cols then Err(KeyError(CloseKey))
    else
      var close := t.cols[CloseKey];
      var t1 := WithColumn(t, BandHighKey, BandHigh(close, w, sqrt));
      WithColumnAppends(t, t.names, [], BandHighKey, BandHigh(close, w, sqrt));
      WithColumnAppends(t1, t.names, [BandHighKey], BandLowKey, BandLow(close, w, sqrt));
      Ok(WithColumn(t1, BandLowKey, BandLow(close, w, sqrt)))
  }

  // ---------------------------------------------------------------------------
  // build_features

  /** The six columns `build_features` writes, in the order it writes them. */
  const FeatureNames: seq<string> := ["ma_5", "ma_20", "ma_50", "rsi", "bb_high", "bb_low"]

  /** What each of `FeatureNames` holds, computed from `close`. */
  function FeatureColumns(close: Column, sqrt: real -> NonNegReal): seq<Column> {
    [ RollingMean(close, 5), RollingMean(close, 20), RollingMean(close, 50),
      Rsi(close, DefaultRsiWindow),
      BandHigh(close, DefaultBandWindow, sqrt), BandLow(close, DefaultBandWindow, sqrt) ]
  }

  lemma DefaultNames()
    ensures MaNames(DefaultWindows) == ["ma_5", "ma_20", "ma_50"]
    ensures MaNames(DefaultWindows) + [RsiKey] + [BandHighKey, BandLowKey] == FeatureNames
  {
    assert NatToString(5) == "5";
    assert NatToString(20) == NatToString(2) + [DigitChar(0)] == "20";
    assert NatToString(50) == NatToString(5) + [DigitChar(0)] == "50";
    assert MaName(5) == "ma_5" && MaName(20) == "ma_20" && MaName(50) == "ma_50";
  }

  /** `add_rsi` then `add_bollinger_bands` with their default windows, on a
      table that has `close`. */
  function AddIndicators(m: Table, sqrt: real -> NonNegReal): (r: Table)
    requires m.Valid() && CloseKey in m.cols
    ensures r.Valid() && r.rows == m.rows
  {
    AddBollingerBands(AddRsi(m, DefaultRsiWindow).value, DefaultBandWindow, sqrt).value
  }

  lemma IndicatorsKeep(m: Table, sqrt: real -> NonNegReal, k: string)
    requires m.Valid() && CloseKey in m.cols && k in m.cols
    requires k != RsiKey && k != BandHighKey && k != BandLowKey
    ensures k in AddIndicators(m, sqrt).cols && AddIndicators(m, sqrt).cols[k] == m.cols[k]
  {
  }

  lemma IndicatorsNames(t: Table, m: Table, sqrt: real -> NonNegReal)
    requires t.Valid() && CloseKey in t.cols && MovingAveragesWritten(t, DefaultWindows, m)
    ensures CloseKey in m.cols
    ensures AddIndicators(m, sqrt).names == AppendNew(t.names, FeatureNames)
  {
    var ma := MaNames(DefaultWindows);
    var withRsi := AddRsi(m, DefaultRsiWindow).value;
    AppendNewConcat(t.names, ma, [RsiKey]);
    assert withRsi.names == AppendNew(t.names, ma + [RsiKey]);
    AppendNewConcat(t.names, ma + [RsiKey], [BandHighKey, BandLowKey]);
    assert AddIndicators(m, sqrt).names == AppendNew(t.names, ma + [RsiKey] + [BandHighKey, BandLowKey]);
    DefaultNames();
  }

  lemma IndicatorsKeys(t: Table, m: Table, sqrt: real -> NonNegReal)
    requires t.Valid() && CloseKey in t.cols && MovingAveragesWritten(t, DefaultWindows, m)
    ensures CloseKey in m.cols
    ensures var r := AddIndicators(m, sqrt);
            && (forall k :: k in r.cols <==> k in t.cols || k in FeatureNames)
            && (forall k :: k in t.cols && k !in FeatureNames ==> r.cols[k] == t.cols[k])
  {
    DefaultNames();
  }

  lemma IndicatorsColumns(t: Table, m: Table, sqrt: real -> NonNegReal)
    requires t.Valid() && CloseKey in t.cols && MovingAveragesWritten(t, DefaultWindows, m)
    ensures CloseKey in m.cols
    ensures var r := AddIndicators(m, sqrt);
            && CloseKey in r.cols && r.cols[CloseKey] == t.cols[CloseKey]
            && forall j :: 0 <= j < |FeatureNames| ==>
                 FeatureNames[j] in r.cols && r.cols[FeatureNames[j]] == FeatureColumns(t.cols[CloseKey], sqrt)[j]
  {
    CloseKept(t, m);
    var r := AddIndicators(m, sqrt);
    var cols := FeatureColumns(t.cols[CloseKey], sqrt);
    IndicatorsKeep(m, sqrt, CloseKey);
    forall j | 0 <= j < |FeatureNames| ensures FeatureNames[j] in r.cols && r.cols[FeatureNames[j]] == cols[j] {
      IndicatorsFeature(t, m, sqrt, j);
    }
  }

  lemma IndicatorsFeature(t: Table, m: Table, sqrt: real -> NonNegReal, j: nat)
    requires t.Valid() && CloseKey in t.cols && MovingAveragesWritten(t, DefaultWindows, m)
    requires j < |FeatureNames|
    ensures CloseKey in m.cols
    ensures FeatureNames[j] in AddIndicators(m, sqrt).cols
    ensures AddIndicators(m, sqrt).cols[FeatureNames[j]] == FeatureColumns(t.cols[CloseKey], sqrt)[j]
  {
    CloseKept(t, m);
    var close := t.cols[CloseKey];
    FeatureColumnsAt(close, sqrt, j);
    if j < 3 {
      IndicatorsMovingAverage(t, m, sqrt, j);
    } else {
      IndicatorsOwn(m, sqrt);
    }
  }

  /** Which column each feature name is given. */
  lemma FeatureColumnsAt(close: Column, sqrt: real -> NonNegReal, j: nat)
    requires j < |FeatureNames|
    ensures j < 3 ==> FeatureColumns(close, sqrt)[j] == RollingMean(close, DefaultWindows[j])
    ensures j == 3 ==> FeatureNames[j] == RsiKey && FeatureColumns(close, sqrt)[j] == Rsi(close, DefaultRsiWindow)
    ensures j == 4 ==> FeatureNames[j] == BandHighKey &&
                       FeatureColumns(close, sqrt)[j] == BandHigh(close, DefaultBandWindow, sqrt)
    ensures j == 5 ==> FeatureNames[j] == BandLowKey &&
                       FeatureColumns(close, sqrt)[j] == BandLow(close, DefaultBandWindow, sqrt)
  {
    var cols := FeatureColumns(close, sqrt);
    if j == 0 {
      assert cols[0] == RollingMean(close, DefaultWindows[0]);
    } else if j == 1 {
      assert cols[1] == RollingMean(close, DefaultWindows[1]);
    } else if j == 2 {
      assert cols[2] == RollingMean(close, DefaultWindows[2]);
    }
  }

  /** The moving averages leave `close` as it was. */
  lemma CloseKept(t: Table, m: Table)
    requires t.Valid() && CloseKey in t.cols && MovingAveragesWritten(t, DefaultWindows, m)
    ensures CloseKey in m.cols && m.cols[CloseKey] == t.cols[CloseKey]
  {
    assert CloseKey !in MaNames(DefaultWindows) by {
      forall n | 0 <= n < 3 ensures MaNames(DefaultWindows)[n] != CloseKey {
        MaNameFacts(DefaultWindows[n]);
      }
    }
  }

  lemma IndicatorsMovingAverage(t: Table, m: Table, sqrt: real -> NonNegReal, j: nat)
    requires t.Valid() && CloseKey in t.cols && MovingAveragesWritten(t, DefaultWindows, m)
    requires j < 3
    ensures CloseKey in m.cols
    ensures FeatureNames[j] in AddIndicators(m, sqrt).cols
    ensures AddIndicators(m, sqrt).cols[FeatureNames[j]] == RollingMean(t.cols[CloseKey], DefaultWindows[j])
  {
    DefaultNames();
    var n := MaName(DefaultWindows[j]);
    MaNameFacts(DefaultWindows[j]);
    IndicatorsKeep(m, sqrt, n);
  }

  /** The three columns `add_rsi` and `add_bollinger_bands` write. */
  lemma IndicatorsOwn(m: Table, sqrt: real -> NonNegReal)
    requires m.Valid() && CloseKey in m.cols
    ensures var r := AddIndicators(m, sqrt);
            var close := m.cols[CloseKey];
            && RsiKey in r.cols && r.cols[RsiKey] == Rsi(close, DefaultRsiWindow)
            && BandHighKey in r.cols && r.cols[BandHighKey] == BandHigh(close, DefaultBandWindow, sqrt)
            && BandLowKey in r.cols && r.cols[BandLowKey] == BandLow(close, DefaultBandWindow, sqrt)
  {
    var withRsi := AddRsi(m, DefaultRsiWindow).value;
    assert withRsi.cols[CloseKey] == m.cols[CloseKey];
    assert RsiKey[0] != BandHighKey[0] && RsiKey[0] != BandLowKey[0];
  }

  /** `build_features`: unless `runningTests` (the `RUNNING_TESTS` variable)
      is set, fewer than 50 rows raise the length error; otherwise
      `ma_5`, `ma_20`, `ma_50`, `rsi`, `bb_high` and `bb_low` are computed
      from `close` (a KeyError when it is absent) and the rows and every
      other column are kept. */
  method BuildFeatures(t: Table, runningTests: bool, sqrt: real -> NonNegReal) returns (r: Result<Table>)
    requires t.Valid()
    ensures r.Err? <==> (!runningTests && t.rows < MinRequiredLength) || CloseKey !in t.cols
    ensures !runningTests && t.rows < MinRequiredLength ==>
              r == Err(InsufficientData(MinRequiredLength, t.rows))
    ensures (runningTests || t.rows >= MinRequiredLength) && CloseKey !in t.cols ==>
              r == Err(KeyError(CloseKey))
    ensures r.Ok? ==> && r.value.Valid() && r.value.rows == t.rows
                      && r.value.names == AppendNew(t.names, FeatureNames)
                      && (forall k :: k in r.value.cols <==> k in t.cols || k in FeatureNames)
                      && (forall k :: k in t.cols && k !in FeatureNames ==> r.value.cols[k] == t.cols[k])
    ensures r.Ok? ==> CloseKey in r.value.cols && r.value.cols[CloseKey] == t.cols[CloseKey]
    ensures r.Ok? ==> forall j :: 0 <= j < |FeatureNames| ==>
              FeatureNames[j] in r.value.cols &&
              r.value.cols[FeatureNames[j]] == FeatureColumns(t.cols[CloseKey], sqrt)[j]
  {
    if !runningTests && t.rows < MinRequiredLength {
      return Err(InsufficientData(MinRequiredLength, t.rows));
    }
    var withMa :- AddMovingAverages(t, DefaultWindows);
    assert MovingAveragesWritten(t, DefaultWindows, withMa);
    IndicatorsNames(t, withMa, sqrt);
    IndicatorsKeys(t, withMa, sqrt);
    IndicatorsColumns(t, withMa, sqrt);
    return Ok(AddIndicators(withMa, sqrt));
  }

  // ---------------------------------------------------------------------------
  // Scenarios: a closing price rising by 2 a day from 10

  /** The closing prices 10, 12, 14, ...: complete and evenly spaced by 2. */
  predicate SteadyRise(close: Column) {
    && Complete(close) && |close| >= 1 && close[0].value == 10.0
    && EvenlySpaced(Vals(close), 2.0)
  }

  /** Over 50 such rows the last 2-day average is 107 and the last 4-day
      average is 105. */
  lemma SteadyRiseMovingAverages(close: Column)
    requires SteadyRise(close) && |close| == 50
    ensures RollingMean(close, 2)[49] == Some(107.0)
    ensures RollingMean(close, 4)[49] == Some(105.0)
  {
    var v := Vals(close);
    EvenlySpacedAt(v, 2.0, 46);
    EvenlySpacedAt(v, 2.0, 48);
    EvenlySpacedAt(v, 2.0, 49);
    MovingAverageOfEvenlySpaced(close, 2.0, 2, 49);
    MovingAverageOfEvenlySpaced(close, 2.0, 4, 49);
  }

  /** On a rising price the RSI column is not entirely missing: from row 13
      (the 14th row, the first full window) on it is 100. */
  lemma SteadyRiseRsi(t: Table, i: nat)
    requires t.Valid() && CloseKey in t.cols && SteadyRise(t.cols[CloseKey])
    requires DefaultRsiWindow <= i + 1 && i < t.rows
    ensures AddRsi(t, DefaultRsiWindow).value.cols[RsiKey][i] == Some(100.0)
  {
    var close := t.cols[CloseKey];
    forall k | 0 < k < |close| ensures close[k - 1].value < close[k].value {
      assert Vals(close)[k] == Vals(close)[k - 1] + 2.0;
    }
    RsiOfRisingPrices(close, DefaultRsiWindow, i);
  }

  /** On a complete price column both bands are defined from row w-1 on,
      with the low band never above the high band. */
  lemma BandsDefined(t: Table, w: nat, sqrt: real -> NonNegReal, i: nat)
    requires t.Valid() && CloseKey in t.cols && Complete(t.cols[CloseKey])
    requires 2 <= w <= i + 1 && i < t.rows
    ensures var r := AddBollingerBands(t, w, sqrt).value;
            && r.cols[BandHighKey][i].Some? && r.cols[BandLowKey][i].Some?
            && r.cols[BandLowKey][i].value <= r.cols[BandHighKey][i].value
  {
    var close := t.cols[CloseKey];
    var win := close[i + 1 - w .. i + 1];
    assert Complete(win) by {
      forall k | 0 <= k < |win| ensures win[k].Some? {
        assert win[k] == close[i + 1 - w + k];
      }
    }
    BandsAt(close, w, sqrt, i);
  }

  /** A table holding only `close` gains exactly the six feature columns,
      in order. */
  lemma CloseOnlyNames(t: Table)
    requires t.names == [CloseKey]
    ensures AppendNew(t.names, FeatureNames) == [CloseKey] + FeatureNames
  {
    assert forall n :: n in FeatureNames ==> n[0] != 'c';
    AppendNewFresh(t.names, FeatureNames);
  }

  /** `build_features` on ten rows of `close` with `RUNNING_TESTS` set: the
      length guard is skipped, the columns are `close` followed by the six
      features, and `ma_50` has no defined cell. */
  method BuildFeaturesOnShortTable(t: Table, sqrt: real -> NonNegReal) returns (r: Result<Table>)
    requires t.Valid() && t.names == [CloseKey] && t.rows == 10
    ensures r.Ok? && r.value.names == [CloseKey] + FeatureNames
    ensures r.value.Valid() && r.value.rows == 10 && "ma_50" in r.value.cols
    ensures forall i :: 0 <= i < 10 ==> r.value.cols["ma_50"][i].None?
  {
    r := BuildFeatures(t, true, sqrt);
    CloseOnlyNames(t);
    var close := t.cols[CloseKey];
    assert FeatureNames[2] == "ma_50";
    forall i | 0 <= i < 10 ensures RollingMean(close, 50)[i].None? {
      RollingMeanAt(close, 50, i);
    }
  }
}
