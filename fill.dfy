/** Gap padding: pandas' `fillna(method='ffill')` followed by
    `fillna(method='bfill')`, and the nearest-defined-value reading of both. */
module Fill {
  import opened Frame

  /** `fillna(method='ffill')`: each missing cell takes the cell above it
      once that one has been filled. */
  function ForwardFill(c: Column): (r: Column)
    ensures |r| == |c|
  {
    if c == [] then []
    else
      var p := ForwardFill(c[..|c| - 1]);
      p + [if c[|c| - 1].Some? then c[|c| - 1] else if p == [] then None else p[|p| - 1]]
  }

  /** `fillna(method='bfill')`: each missing cell takes the cell below it
      once that one has been filled. */
  function BackFill(c: Column): (r: Column)
    ensures |r| == |c|
  {
    if c == [] then []
    else
      var q := BackFill(c[1..]);
      [if c[0].Some? then c[0] else if q == [] then None else q[0]] + q
  }

  /** `c.fillna(method='ffill').fillna(method='bfill')`. */
  function Pad(c: Column): (r: Column)
    ensures |r| == |c|
  {
    BackFill(ForwardFill(c))
  }

  // ---------------------------------------------------------------------------
  // Reference definitions: the nearest defined cell looking up or down.

  /** The nearest defined cell at or above row `i`, if any. */
  function LastDefined(c: Column, i: nat): Option<real>
    requires i < |c|
  {
    if c[i].Some? then c[i] else if i == 0 then None else LastDefined(c, i - 1)
  }

  /** The nearest defined cell at or below row `i`, if any. */
  function NextDefined(c: Column, i: nat): Option<real>
    requires i < |c|
    decreases |c| - i
  {
    if c[i].Some? then c[i] else if i + 1 == |c| then None else NextDefined(c, i + 1)
  }

  lemma {:induction false} LastDefinedOfPrefix(c: Column, n: nat, i: nat)
    requires i < n <= |c|
    ensures LastDefined(c[..n], i) == LastDefined(c, i)
  {
    if i > 0 {
      LastDefinedOfPrefix(c, n, i - 1);
    }
  }

  lemma {:induction false} NextDefinedOfSuffix(c: Column, i: nat)
    requires 1 <= i < |c|
    ensures NextDefined(c[1..], i - 1) == NextDefined(c, i)
    decreases |c| - i
  {
    if i + 1 < |c| {
      NextDefinedOfSuffix(c, i + 1);
    }
  }

  /** Forward fill puts at each row the nearest defined cell at or above it. */
  lemma {:induction false} ForwardFillIsLastDefined(c: Column, i: nat)
    requires i < |c|
    ensures ForwardFill(c)[i] == LastDefined(c, i)
    decreases |c|
  {
    var n := |c|;
    var pre := c[..n - 1];
    if i < n - 1 {
      ForwardFillIsLastDefined(pre, i);
      LastDefinedOfPrefix(c, n - 1, i);
    } else if c[i].None? && i > 0 {
      ForwardFillIsLastDefined(pre, i - 1);
      LastDefinedOfPrefix(c, n - 1, i - 1);
    }
  }

  /** Back fill puts at each row the nearest defined cell at or below it. */
  lemma {:induction false} BackFillIsNextDefined(c: Column, i: nat)
    requires i < |c|
    ensures BackFill(c)[i] == NextDefined(c, i)
    decreases |c|
  {
    var suf := c[1..];
    if i > 0 {
      BackFillIsNextDefined(suf, i - 1);
      NextDefinedOfSuffix(c, i);
    } else if c[0].None? && |c| > 1 {
      BackFillIsNextDefined(suf, 0);
      NextDefinedOfSuffix(c, 1);
    }
  }

  lemma {:induction false} LastDefinedFinds(c: Column, k: nat, i: nat)
    requires k <= i < |c| && c[k].Some?
    requires forall m :: k < m <= i ==> c[m].None?
    ensures LastDefined(c, i) == c[k]
    decreases i
  {
    if i > k {
      LastDefinedFinds(c, k, i - 1);
    }
  }

  lemma {:induction false} LastDefinedMissing(c: Column, i: nat)
    requires i < |c|
    requires forall m :: 0 <= m <= i ==> c[m].None?
    ensures LastDefined(c, i).None?
  {
    if i > 0 {
      LastDefinedMissing(c, i - 1);
    }
  }

  lemma {:induction false} NextDefinedFinds(c: Column, i: nat, k: nat)
    requires i <= k < |c| && c[k].Some?
    requires forall m :: i <= m < k ==> c[m].None?
    ensures NextDefined(c, i) == c[k]
    decreases k - i
  {
    if i < k {
      NextDefinedFinds(c, i + 1, k);
    }
  }

  lemma {:induction false} NextDefinedMissing(c: Column, i: nat)
    requires i < |c|
    requires forall m :: i <= m < |c| ==> c[m].None?
    ensures NextDefined(c, i).None?
    decreases |c| - i
  {
    if i + 1 < |c| {
      NextDefinedMissing(c, i + 1);
    }
  }

  /** What padding puts at row `i`: a defined cell stays; a missing cell
      below some defined cell takes the nearest defined cell above it; a
      missing cell above every defined cell takes the first defined cell;
      a column with no defined cell stays entirely missing. */
  lemma PadAt(c: Column, i: nat)
    requires i < |c|
    ensures c[i].Some? ==> Pad(c)[i] == c[i]
    ensures forall k :: 0 <= k < i && c[k].Some? && (forall m :: k < m <= i ==> c[m].None?) ==>
              Pad(c)[i] == c[k]
    ensures forall k :: i < k < |c| && c[k].Some? && (forall m :: 0 <= m < k ==> c[m].None?) ==>
              Pad(c)[i] == c[k]
    ensures (forall m :: 0 <= m < |c| ==> c[m].None?) ==> Pad(c)[i].None?
  {
    var f := ForwardFill(c);
    BackFillIsNextDefined(f, i);
    ForwardFillIsLastDefined(c, i);
    forall k | 0 <= k < i && c[k].Some? && (forall m :: k < m <= i ==> c[m].None?)
      ensures Pad(c)[i] == c[k]
    {
      LastDefinedFinds(c, k, i);
    }
    forall k | i < k < |c| && c[k].Some? && (forall m :: 0 <= m < k ==> c[m].None?)
      ensures Pad(c)[i] == c[k]
    {
      forall m | i <= m < k ensures f[m].None? {
        ForwardFillIsLastDefined(c, m);
        LastDefinedMissing(c, m);
      }
      ForwardFillIsLastDefined(c, k);
      NextDefinedFinds(f, i, k);
    }
    if forall m :: 0 <= m < |c| ==> c[m].None? {
      forall m | i <= m < |f| ensures f[m].None? {
        ForwardFillIsLastDefined(c, m);
        LastDefinedMissing(c, m);
      }
      NextDefinedMissing(f, i);
    }
  }

  /** Padding leaves no missing cell in a column that has at least one
      defined cell. */
  lemma PadFillsEverything(c: Column, k: nat)
    requires k < |c| && c[k].Some?
    ensures forall i :: 0 <= i < |c| ==> Pad(c)[i].Some?
  {
    var f := ForwardFill(c);
    ForwardFillIsLastDefined(c, k);
    forall i | 0 <= i < |c| ensures Pad(c)[i].Some? {
      BackFillIsNextDefined(f, i);
      if i <= k {
        NextDefinedFound(f, i, k);
      } else {
        ForwardFillIsLastDefined(c, i);
        LastDefinedFound(c, k, i);
      }
    }
  }

  lemma {:induction false} LastDefinedFound(c: Column, k: nat, i: nat)
    requires k <= i < |c| && c[k].Some?
    ensures LastDefined(c, i).Some?
    decreases i
  {
    if i > k && c[i].None? {
      LastDefinedFound(c, k, i - 1);
    }
  }

  lemma {:induction false} NextDefinedFound(c: Column, i: nat, k: nat)
    requires i <= k < |c| && c[k].Some?
    ensures NextDefined(c, i).Some?
    decreases k - i
  {
    if i < k && c[i].None? {
      NextDefinedFound(c, i + 1, k);
    }
  }
}
