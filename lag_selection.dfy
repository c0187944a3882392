/** Lag-order selection for the reduced-form VAR
    (python/src/oil_svar/var/lag_selection.py).

    Fitting VAR(p) and running the Ljung–Box test are foreign library calls;
    `fit(p)` stands for what they report for lag order p: the roots of the
    fitted process and, per residual column, the Ljung–Box p-values at lags
    1..lb_lags. */
module LagSelection {
  import opened Wrappers
  import Sequences

  /** The failures the selector can raise. */
  datatype LagError =
    | EmptyMinimum                           // numpy's min over no residual columns
    | EmptyTable                             // choosing from a table with no rows
    | MissingColumns(names: seq<string>)     // configured columns absent from the data

  // ---------------------------------------------------------------- stability

  datatype Complex = Complex(re: real, im: real)

  /** |z|², which is below (above) 1 exactly when |z| is. */
  function ModulusSquared(z: Complex): (m: real)
    ensures m >= 0.0
  {
    z.re * z.re + z.im * z.im
  }

  /** The test as the source writes it: every root has modulus below 1
      (numpy's `all`, true of no roots). */
  function IsStableAsWritten(roots: seq<Complex>): (b: bool)
    ensures b <==> forall i :: 0 <= i < |roots| ==> ModulusSquared(roots[i]) < 1.0
  {
    if roots == [] then true
    else ModulusSquared(roots[0]) < 1.0 && IsStableAsWritten(roots[1..])
  }

  /** The corrected test: every root of the characteristic polynomial lies
      outside the unit circle. */
  function IsStable(roots: seq<Complex>): (b: bool)
    ensures b <==> forall i :: 0 <= i < |roots| ==> ModulusSquared(roots[i]) > 1.0
  {
    if roots == [] then true
    else ModulusSquared(roots[0]) > 1.0 && IsStable(roots[1..])
  }

  /** 1/z for z ≠ 0. */
  function Reciprocal(z: Complex): (w: Complex)
    requires ModulusSquared(z) > 0.0
  {
    var m := ModulusSquared(z);
    Complex(z.re / m, -z.im / m)
  }

  /** The roots a fitted VAR reports: the reciprocals of the eigenvalues of
      its companion matrix. */
  function RootsOf(eigenvalues: seq<Complex>): (roots: seq<Complex>)
    requires forall i :: 0 <= i < |eigenvalues| ==> ModulusSquared(eigenvalues[i]) > 0.0
    ensures |roots| == |eigenvalues|
    ensures forall i :: 0 <= i < |roots| ==> roots[i] == Reciprocal(eigenvalues[i])
  {
    seq(|eigenvalues|, i requires 0 <= i < |eigenvalues| => Reciprocal(eigenvalues[i]))
  }

  lemma ReciprocalModulus(z: Complex)
    requires ModulusSquared(z) > 0.0
    ensures ModulusSquared(Reciprocal(z)) * ModulusSquared(z) == 1.0
  {
    var m := ModulusSquared(z);
    var w := Reciprocal(z);
    assert w.re * w.re == (z.re * z.re) / (m * m);
    assert w.im * w.im == (z.im * z.im) / (m * m);
    assert ModulusSquared(w) == m / (m * m);
  }

  /** |1/z| > 1 iff |z| < 1, and |1/z| < 1 iff |z| > 1. */
  lemma ReciprocalInsideOutside(z: Complex)
    requires ModulusSquared(z) > 0.0
    ensures ModulusSquared(Reciprocal(z)) > 1.0 <==> ModulusSquared(z) < 1.0
    ensures ModulusSquared(Reciprocal(z)) < 1.0 <==> ModulusSquared(z) > 1.0
  {
    ReciprocalModulus(z);
    var a, b := ModulusSquared(Reciprocal(z)), ModulusSquared(z);
    assert a * b == 1.0 && a >= 0.0 && b > 0.0;
    if a > 1.0 { assert a * b > b; }
    if b < 1.0 { assert a * b < a; }
    if a < 1.0 { assert a * b < b; }
    if b > 1.0 { assert a * b > a; }
  }

  /** The corrected test holds exactly when every companion eigenvalue lies
      inside the unit circle; the test as written holds exactly when every
      eigenvalue lies outside it. */
  lemma StabilityFromEigenvalues(eigenvalues: seq<Complex>)
    requires forall i :: 0 <= i < |eigenvalues| ==> ModulusSquared(eigenvalues[i]) > 0.0
    ensures IsStable(RootsOf(eigenvalues)) <==>
              forall i :: 0 <= i < |eigenvalues| ==> ModulusSquared(eigenvalues[i]) < 1.0
    ensures IsStableAsWritten(RootsOf(eigenvalues)) <==>
              forall i :: 0 <= i < |eigenvalues| ==> ModulusSquared(eigenvalues[i]) > 1.0
  {
    forall i | 0 <= i < |eigenvalues| {
      ReciprocalInsideOutside(eigenvalues[i]);
    }
  }

  /** The stable VAR(1) y_t = 0.5·y_{t-1} + e_t has the single companion
      eigenvalue 0.5 and the single root 2: the test as written rejects it. */
  lemma StableProcessRejectedAsWritten()
    ensures RootsOf([Complex(0.5, 0.0)]) == [Complex(2.0, 0.0)]
    ensures !IsStableAsWritten(RootsOf([Complex(0.5, 0.0)]))
    ensures IsStable(RootsOf([Complex(0.5, 0.0)]))
  {
    assert Reciprocal(Complex(0.5, 0.0)) == Complex(2.0, 0.0);
  }

  // ---------------------------------------------------------------- Ljung–Box

  /** The smallest element (numpy/pandas `min`). */
  function SeqMin(s: seq<real>): (m: real)
    requires |s| > 0
    ensures m in s
    ensures forall i :: 0 <= i < |s| ==> m <= s[i]
  {
    if |s| == 1 then s[0]
    else
      var rest := SeqMin(s[1..]);
      if s[0] <= rest then s[0] else rest
  }

  /** Every residual column came with at least one p-value (lb_lags ≥ 1). */
  predicate LbShaped(lb: seq<seq<real>>) {
    forall j :: 0 <= j < |lb| ==> |lb[j]| > 0
  }

  /** v is the smallest p-value over all columns and all lags. */
  predicate IsMinOfMins(v: real, lb: seq<seq<real>>) {
    (forall j, l :: 0 <= j < |lb| && 0 <= l < |lb[j]| ==> v <= lb[j][l]) &&
    (exists j, l :: 0 <= j < |lb| && 0 <= l < |lb[j]| && v == lb[j][l])
  }

  /** The per-column minima collected in a loop, then their minimum; no
      columns is numpy's error on an empty minimum. */
  method MinLjungBoxPval(lb: seq<seq<real>>) returns (r: Result<real, LagError>)
    requires LbShaped(lb)
    ensures r.Err? <==> |lb| == 0
    ensures r.Err? ==> r.error == EmptyMinimum
    ensures r.Ok? ==> IsMinOfMins(r.value, lb)
  {
    var pvals: seq<real> := [];
    for j := 0 to |lb|
      invariant |pvals| == j
      invariant forall i :: 0 <= i < j ==> pvals[i] == SeqMin(lb[i])
    {
      pvals := pvals + [SeqMin(lb[j])];
    }
    if |pvals| == 0 {
      return Err(EmptyMinimum);
    }
    var m := SeqMin(pvals);
    var j :| 0 <= j < |pvals| && pvals[j] == m;
    var l :| 0 <= l < |lb[j]| && lb[j][l] == SeqMin(lb[j]);
    assert m == lb[j][l];
    r := Ok(m);
  }

  // ---------------------------------------------------------------- the table

  /** What fitting VAR(p) reports to the selector. */
  datatype Diagnostics = Diagnostics(roots: seq<Complex>, lbPvals: seq<seq<real>>)

  /** One row `{"p", "Stable", "LB_min_pval"}` of the selection table. */
  datatype Row = Row(p: nat, stable: bool, lbMinPval: real)

  /** Rows for p = 1, 2, …, pMax in that order (none when pMax < 1). */
  predicate IsSelectionTable(rows: seq<Row>, pMax: int) {
    |rows| == (if pMax < 0 then 0 else pMax) &&
    forall i :: 0 <= i < |rows| ==> rows[i].p == i + 1
  }

  /** The sweep over p = 1..pMax, one row per lag order; `stability` is the
      stability test applied to each fit's roots. */
  method SelectP(pMax: int, fit: nat -> Diagnostics, stability: seq<Complex> -> bool)
    returns (table: Result<seq<Row>, LagError>)
    requires forall p: nat :: 1 <= p <= pMax ==> LbShaped(fit(p).lbPvals)
    ensures table.Err? <==> exists p: nat :: 1 <= p <= pMax && |fit(p).lbPvals| == 0
    ensures table.Err? ==> table.error == EmptyMinimum
    ensures table.Ok? ==> IsSelectionTable(table.value, pMax)
    ensures table.Ok? ==> forall i :: 0 <= i < |table.value| ==>
              table.value[i].stable == stability(fit(i + 1).roots) &&
              IsMinOfMins(table.value[i].lbMinPval, fit(i + 1).lbPvals)
  {
    var results: seq<Row> := [];
    var p: nat := 1;
    while p <= pMax
      invariant 1 <= p <= (if pMax < 1 then 1 else pMax + 1)
      invariant |results| == p - 1
      invariant forall i :: 0 <= i < |results| ==>
                  results[i].p == i + 1 &&
                  results[i].stable == stability(fit(i + 1).roots) &&
                  IsMinOfMins(results[i].lbMinPval, fit(i + 1).lbPvals)
      invariant forall q: nat :: 1 <= q < p ==> |fit(q).lbPvals| > 0
    {
      var diagnostics := fit(p);
      var stable := stability(diagnostics.roots);
      var lbMin := MinLjungBoxPval(diagnostics.lbPvals);
      if lbMin.Err? {
        return Err(lbMin.error);
      }
      results := results + [Row(p, stable, lbMin.value)];
      p := p + 1;
    }
    table := Ok(results);
  }

  /** `select_p` as the source runs it: the configured columns are loaded
      first, then the sweep fills the Stable column with `is_stable` as
      written. */
  method SelectPAsWritten(configured: seq<string>, present: seq<string>, pMax: int, fit: nat -> Diagnostics)
    returns (table: Result<seq<Row>, LagError>)
    requires forall p: nat :: 1 <= p <= pMax ==> LbShaped(fit(p).lbPvals)
    ensures table.Err? <==>
              LoadAllD(configured, present).Err? || exists p: nat :: 1 <= p <= pMax && |fit(p).lbPvals| == 0
    ensures LoadAllD(configured, present).Err? ==> table == Err(LoadAllD(configured, present).error)
    ensures LoadAllD(configured, present).Ok? && table.Err? ==> table.error == EmptyMinimum
    ensures table.Ok? ==> IsSelectionTable(table.value, pMax)
    ensures table.Ok? ==> forall i :: 0 <= i < |table.value| ==>
              table.value[i].stable == IsStableAsWritten(fit(i + 1).roots) &&
              IsMinOfMins(table.value[i].lbMinPval, fit(i + 1).lbPvals)
  {
    var loaded := LoadAllD(configured, present);
    if loaded.Err? {
      return Err(loaded.error);
    }
    table := SelectP(pMax, fit, IsStableAsWritten);
  }

  /** The same load and sweep with the corrected stability test. */
  method SelectPCorrected(configured: seq<string>, present: seq<string>, pMax: int, fit: nat -> Diagnostics)
    returns (table: Result<seq<Row>, LagError>)
    requires forall p: nat :: 1 <= p <= pMax ==> LbShaped(fit(p).lbPvals)
    ensures table.Err? <==>
              LoadAllD(configured, present).Err? || exists p: nat :: 1 <= p <= pMax && |fit(p).lbPvals| == 0
    ensures LoadAllD(configured, present).Err? ==> table == Err(LoadAllD(configured, present).error)
    ensures LoadAllD(configured, present).Ok? && table.Err? ==> table.error == EmptyMinimum
    ensures table.Ok? ==> IsSelectionTable(table.value, pMax)
    ensures table.Ok? ==> forall i :: 0 <= i < |table.value| ==>
              table.value[i].stable == IsStable(fit(i + 1).roots) &&
              IsMinOfMins(table.value[i].lbMinPval, fit(i + 1).lbPvals)
  {
    var loaded := LoadAllD(configured, present);
    if loaded.Err? {
      return Err(loaded.error);
    }
    table := SelectP(pMax, fit, IsStable);
  }

  // ---------------------------------------------------------------- the rule

  /** Stable, and residuals not significantly autocorrelated (strictly above alpha). */
  predicate Passes(row: Row, alpha: real) {
    row.stable && row.lbMinPval > alpha
  }

  /** The index of the first passing row, if any. */
  function FirstPassing(rows: seq<Row>, alpha: real): (i: Option<nat>)
    ensures i.Some? ==> i.value < |rows| && Passes(rows[i.value], alpha) &&
                        forall j :: 0 <= j < i.value ==> !Passes(rows[j], alpha)
    ensures i.None? ==> forall j :: 0 <= j < |rows| ==> !Passes(rows[j], alpha)
  {
    if rows == [] then None
    else if Passes(rows[0], alpha) then Some(0)
    else match FirstPassing(rows[1..], alpha)
      case Some(j) => Some(j + 1)
      case None => None
  }

  /** The first index of a maximal p-value (pandas `idxmax`). */
  function FirstArgMax(rows: seq<Row>): (i: nat)
    requires |rows| > 0
    ensures i < |rows|
    ensures forall j :: 0 <= j < |rows| ==> rows[j].lbMinPval <= rows[i].lbMinPval
    ensures forall j :: 0 <= j < i ==> rows[j].lbMinPval < rows[i].lbMinPval
  {
    if |rows| == 1 then 0
    else
      var j := FirstArgMax(rows[1..]) + 1;
      if rows[0].lbMinPval >= rows[j].lbMinPval then 0 else j
  }

  /** The lag-order rule: the first row that passes both tests, otherwise the
      first row with the largest p-value; an empty table is an error. */
  function ChooseP(rows: seq<Row>, alpha: real): (r: Result<nat, LagError>)
    ensures r.Err? <==> |rows| == 0
    ensures r.Err? ==> r.error == EmptyTable
    ensures r.Ok? ==> exists i :: 0 <= i < |rows| && r.value == rows[i].p
    ensures forall i :: (0 <= i < |rows| && Passes(rows[i], alpha) &&
              forall j :: 0 <= j < i ==> !Passes(rows[j], alpha)) ==> r == Ok(rows[i].p)
    ensures |rows| > 0 && (forall j :: 0 <= j < |rows| ==> !Passes(rows[j], alpha)) ==>
              exists i :: 0 <= i < |rows| && r == Ok(rows[i].p) &&
                (forall j :: 0 <= j < |rows| ==> rows[j].lbMinPval <= rows[i].lbMinPval) &&
                (forall j :: 0 <= j < i ==> rows[j].lbMinPval < rows[i].lbMinPval)
  {
    if |rows| == 0 then Err(EmptyTable)
    else match FirstPassing(rows, alpha)
      case Some(i) => Ok(rows[i].p)
      case None => Ok(rows[FirstArgMax(rows)].p)
  }

  /** On the sweep's table the chosen order lies in [1, pMax], and it is the
      smallest passing order when one passes. */
  lemma ChoosePInRange(rows: seq<Row>, pMax: int, alpha: real)
    requires IsSelectionTable(rows, pMax)
    ensures pMax >= 1 <==> ChooseP(rows, alpha).Ok?
    ensures ChooseP(rows, alpha).Ok? ==> 1 <= ChooseP(rows, alpha).value <= pMax
    ensures forall i :: 0 <= i < |rows| && Passes(rows[i], alpha) ==>
              ChooseP(rows, alpha).Ok? && ChooseP(rows, alpha).value <= rows[i].p &&
              Passes(rows[ChooseP(rows, alpha).value - 1], alpha)
  {
    var r := ChooseP(rows, alpha);
    if |rows| > 0 {
      var f := FirstPassing(rows, alpha);
      if f.Some? {
        var k := f.value;
        assert r == Ok(rows[k].p) && rows[k].p == k + 1;
        forall i | 0 <= i < |rows| && Passes(rows[i], alpha)
          ensures r.value <= rows[i].p
        {
          assert !(i < k);
        }
      } else {
        var m := FirstArgMax(rows);
        assert r == Ok(rows[m].p) && rows[m].p == m + 1;
      }
    }
  }

  /** A p-value equal to alpha does not pass: when every row sits exactly on
      the threshold the rule falls back to the maximum, and the tie goes to
      the first row. */
  lemma ThresholdIsStrict(rows: seq<Row>, alpha: real)
    requires |rows| > 0
    requires forall i :: 0 <= i < |rows| ==> rows[i].lbMinPval == alpha
    ensures ChooseP(rows, alpha) == Ok(rows[0].p)
  {
    var i :| 0 <= i < |rows| && ChooseP(rows, alpha) == Ok(rows[i].p) &&
      (forall j :: 0 <= j < i ==> rows[j].lbMinPval < rows[i].lbMinPval);
  }

  // ---------------------------------------------------------------- loading

  /** The configured columns that the data lacks, in configuration order. */
  function MissingColumnsOf(configured: seq<string>, present: seq<string>): (missing: seq<string>)
    ensures forall c :: c in missing <==> c in configured && c !in present
    ensures Sequences.IsSubsequence(missing, configured)
    ensures forall c :: multiset(missing)[c] == if c in present then 0 else multiset(configured)[c]
  {
    if configured == [] then []
    else
      var rest := MissingColumnsOf(configured[1..], present);
      assert configured == [configured[0]] + configured[1..];
      assert Sequences.IsSubsequence(rest, configured[1..]);
      if configured[0] !in present then [configured[0]] + rest
      else
        Sequences.SubsequenceOfTail(rest, configured);
        rest
  }

  /** The column check of `load_all_d`: a KeyError listing the missing
      columns, otherwise the configured columns in configured order. */
  function LoadAllD(configured: seq<string>, present: seq<string>): (r: Result<seq<string>, LagError>)
    ensures r.Err? <==> exists c :: c in configured && c !in present
    ensures r.Err? ==> r.error == MissingColumns(MissingColumnsOf(configured, present))
    ensures r.Ok? ==> r.value == configured
  {
    var missing := MissingColumnsOf(configured, present);
    if |missing| > 0 then
      assert missing[0] in missing;
      Err(MissingColumns(missing))
    else
      assert missing == [];
      Ok(configured)
  }

  /** The default configuration: four columns, lag orders up to 15, Ljung–Box
      at 12 lags, significance level 0.05. */
  const DefaultColumns: seq<string> := ["Production_DL", "OCSE_DL", "WTI_real_DL", "Inventories_DL"]
  const DefaultPMax: int := 15
  const DefaultLbLags: nat := 12
  const DefaultAlpha: real := 0.05

  /** The configured lag range: the sweep's chosen order lies in [1, 15]. */
  lemma DefaultChoiceInRange(rows: seq<Row>)
    requires IsSelectionTable(rows, DefaultPMax)
    ensures ChooseP(rows, DefaultAlpha).Ok?
    ensures 1 <= ChooseP(rows, DefaultAlpha).value <= 15
  {
    ChoosePInRange(rows, DefaultPMax, DefaultAlpha);
  }

  /** Loading succeeds with the four configured columns iff all four are present. */
  lemma DefaultColumnsLoad(present: seq<string>)
    ensures LoadAllD(DefaultColumns, present).Ok? <==>
              "Production_DL" in present && "OCSE_DL" in present &&
              "WTI_real_DL" in present && "Inventories_DL" in present
  {
    if !("Production_DL" in present && "OCSE_DL" in present &&
         "WTI_real_DL" in present && "Inventories_DL" in present) {
      var c :| c in DefaultColumns && c !in present;
    }
  }

  /** The example of the finding: roots [2.0] at p = 1 (stable) and [0.5] at
      p = 2 (explosive). The as-written sweep picks the explosive order 2,
      the corrected one picks 1. */
  lemma AsWrittenPicksExplosiveOrder()
    ensures ChooseP([Row(1, IsStableAsWritten([Complex(2.0, 0.0)]), 0.5),
                     Row(2, IsStableAsWritten([Complex(0.5, 0.0)]), 0.9)], DefaultAlpha) == Ok(2)
    ensures ChooseP([Row(1, IsStable([Complex(2.0, 0.0)]), 0.5),
                     Row(2, IsStable([Complex(0.5, 0.0)]), 0.9)], DefaultAlpha) == Ok(1)
  {
    var w := [Row(1, IsStableAsWritten([Complex(2.0, 0.0)]), 0.5),
              Row(2, IsStableAsWritten([Complex(0.5, 0.0)]), 0.9)];
    assert !Passes(w[0], DefaultAlpha) && Passes(w[1], DefaultAlpha);
    var c := [Row(1, IsStable([Complex(2.0, 0.0)]), 0.5),
              Row(2, IsStable([Complex(0.5, 0.0)]), 0.9)];
    assert Passes(c[0], DefaultAlpha);
  }

  /** The script's run: load the four configured columns, sweep p = 1..15
      with Ljung–Box p-values at 12 lags for each of the four residual
      columns, and choose the order at level 0.05. */
  method RunLagSelection(present: seq<string>, fit: nat -> Diagnostics)
    returns (table: Result<seq<Row>, LagError>, pChosen: Result<nat, LagError>)
    requires forall p: nat :: 1 <= p <= DefaultPMax ==>
               |fit(p).lbPvals| == |DefaultColumns| &&
               forall j :: 0 <= j < |fit(p).lbPvals| ==> |fit(p).lbPvals[j]| == DefaultLbLags
    ensures table.Err? <==> exists c :: c in DefaultColumns && c !in present
    ensures table.Err? ==>
              table.error == MissingColumns(MissingColumnsOf(DefaultColumns, present)) && pChosen == Err(table.error)
    ensures table.Ok? ==> |table.value| == 15 && IsSelectionTable(table.value, DefaultPMax)
    ensures table.Ok? ==> forall i :: 0 <= i < |table.value| ==>
              table.value[i].stable == IsStableAsWritten(fit(i + 1).roots)
    ensures table.Ok? ==> forall i :: 0 <= i < |table.value| ==>
              IsMinOfMins(table.value[i].lbMinPval, fit(i + 1).lbPvals)
    ensures table.Ok? ==> pChosen == ChooseP(table.value, DefaultAlpha)
    ensures table.Ok? ==> pChosen.Ok? && 1 <= pChosen.value <= 15
    ensures table.Ok? ==> forall i :: 0 <= i < |table.value| && Passes(table.value[i], DefaultAlpha) ==>
              pChosen.value <= i + 1 && Passes(table.value[pChosen.value - 1], DefaultAlpha)
  {
    assert forall p: nat :: 1 <= p <= DefaultPMax ==> |fit(p).lbPvals| != 0;
    table := SelectPAsWritten(DefaultColumns, present, DefaultPMax, fit);
    if table.Err? {
      pChosen := Err(table.error);
    } else {
      pChosen := ChooseP(table.value, DefaultAlpha);
      ChoosePInRange(table.value, DefaultPMax, DefaultAlpha);
    }
  }
}
