/** The tabular value every stage works on: an ordered list of named numeric
    columns of equal length, where a missing cell stands for pandas' NaN. */
module Frame {

  datatype Option<+T> = None | Some(value: T)

  /** One column of a table; None is a missing (NaN) cell. */
  type Column = seq<Option<real>>

  datatype Error =
    | KeyError(key: string)                          // a column the step reads is absent
    | InsufficientData(required: nat, provided: nat) // build_features' length guard
    | EmptyInput                                     // the scaler was handed zero rows

  datatype Result<+T> = Ok(value: T) | Err(error: Error) {
    predicate IsFailure() { Err? }
    function PropagateFailure<U>(): Result<U> requires Err? { Err(error) }
    function Extract(): T requires Ok? { value }
  }

  /** A data frame: column names in order, the columns by name, and the row count. */
  datatype Table = Table(names: seq<string>, cols: map<string, Column>, rows: nat) {
    predicate Valid() {
      && (forall i, j :: 0 <= i < j < |names| ==> names[i] != names[j])
      && (forall k :: k in names ==> k in cols)
      && (forall k :: k in cols ==> k in names)
      && (forall k :: k in cols ==> |cols[k]| == rows)
    }
  }

  /** `data[name] = c`: replaces the column in place when the name exists,
      otherwise appends it as the last column. */
  function WithColumn(t: Table, name: string, c: Column): (r: Table)
    requires t.Valid() && |c| == t.rows
    ensures r.Valid() && r.rows == t.rows
    ensures r.names == if name in t.cols then t.names else t.names + [name]
    ensures name in r.cols && r.cols[name] == c
    ensures forall k :: k in t.cols && k != name ==> k in r.cols && r.cols[k] == t.cols[k]
    ensures forall k :: k in r.cols ==> k in t.cols || k == name
  {
    Table(if name in t.cols then t.names else t.names + [name], t.cols[name := c], t.rows)
  }

  predicate Increasing(idx: seq<nat>) {
    forall a, b :: 0 <= a < b < |idx| ==> idx[a] < idx[b]
  }

  /** The elements of `c` at the given positions, in the order given. */
  function Pick<T>(c: seq<T>, idx: seq<nat>): (r: seq<T>)
    requires forall m :: 0 <= m < |idx| ==> idx[m] < |c|
    ensures |r| == |idx|
    ensures forall m :: 0 <= m < |idx| ==> r[m] == c[idx[m]]
  {
    seq(|idx|, m requires 0 <= m < |idx| => c[idx[m]])
  }

  /** The rows of `t` at the given positions (a positional `iloc` with a list). */
  function Select(t: Table, idx: seq<nat>): (r: Table)
    requires t.Valid()
    requires forall m :: 0 <= m < |idx| ==> idx[m] < t.rows
    ensures r.Valid() && r.names == t.names && r.rows == |idx|
    ensures forall k :: k in r.cols <==> k in t.cols
    ensures forall k, m :: k in t.cols && 0 <= m < |idx| ==> r.cols[k][m] == t.cols[k][idx[m]]
  {
    Table(t.names, map k | k in t.cols :: Pick(t.cols[k], idx), |idx|)
  }

  /** Rows lo .. hi-1 of `t` (`iloc[lo:hi]`). */
  function Slice(t: Table, lo: nat, hi: nat): (r: Table)
    requires t.Valid() && lo <= hi <= t.rows
    ensures r.Valid() && r.names == t.names && r.rows == hi - lo
    ensures forall k :: k in r.cols <==> k in t.cols
    ensures forall k :: k in t.cols ==> r.cols[k] == t.cols[k][lo..hi]
  {
    Table(t.names, map k | k in t.cols :: t.cols[k][lo..hi], hi - lo)
  }

  // ---------------------------------------------------------------------------
  // Decimal rendering of window sizes in column names (`f'ma_{window}'`).

  function DigitChar(d: nat): char
    requires d < 10
  {
    ('0' as int + d) as char
  }

  function DigitValue(ch: char): int {
    ch as int - '0' as int
  }

  /** Python's `str(n)` for a non-negative integer. */
  function NatToString(n: nat): (s: string)
    ensures |s| > 0
    decreases n
  {
    if n < 10 then [DigitChar(n)] else NatToString(n / 10) + [DigitChar(n % 10)]
  }

  /** Reads a string of decimal digits back as a number. */
  function ParseDecimal(s: string): int {
    if s == [] then 0 else ParseDecimal(s[..|s| - 1]) * 10 + DigitValue(s[|s| - 1])
  }

  lemma {:induction false} DecimalRoundTrip(n: nat)
    ensures ParseDecimal(NatToString(n)) == n
    decreases n
  {
    if n < 10 {
      assert NatToString(n)[..0] == [];
    } else {
      var s := NatToString(n / 10);
      assert (s + [DigitChar(n % 10)])[..|s|] == s;
      DecimalRoundTrip(n / 10);
    }
  }

  /** Different window sizes give different column names. */
  lemma NatToStringInjective(a: nat, b: nat)
    requires NatToString(a) == NatToString(b)
    ensures a == b
  {
    DecimalRoundTrip(a);
    DecimalRoundTrip(b);
  }
}
