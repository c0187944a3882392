/** Sign-restricted identification of a structural VAR by rejection sampling
    (python/src/oil_svar/var/svar_sign.py).

    The reduced-form impulse-response tensor and the random rotations are
    inputs: the tensor is what the fitted VAR returns, and `rotation(n)` is the
    matrix that the (n+1)-th call of the orthonormal-matrix generator returns. */
module SvarSign {
  import opened Wrappers

  /** A matrix of reals, row-major: m[i][j]. */
  type Matrix = seq<seq<real>>

  /** An impulse-response tensor indexed [horizon][variable][shock]. */
  type Tensor = seq<Matrix>

  predicate IsSquare(m: Matrix, k: nat) {
    |m| == k && forall i :: 0 <= i < k ==> |m[i]| == k
  }

  /** Every horizon holds a k×k matrix. */
  predicate IsTensor(t: Tensor, k: nat) {
    forall h :: 0 <= h < |t| ==> IsSquare(t[h], k)
  }

  /** Σ_{j<n} row[j]·q[j][c]: the first n terms of the row–column product. */
  function ColumnDot(row: seq<real>, q: Matrix, c: nat, n: nat): real
    requires n <= |row| && n <= |q|
    requires forall j :: 0 <= j < n ==> c < |q[j]|
  {
    if n == 0 then 0.0 else ColumnDot(row, q, c, n - 1) + row[n - 1] * q[n - 1][c]
  }

  /** The matrix product m·q of two k×k matrices. */
  function RotateMatrix(m: Matrix, q: Matrix, k: nat): (r: Matrix)
    requires IsSquare(m, k) && IsSquare(q, k)
    ensures IsSquare(r, k)
    ensures forall i, c :: 0 <= i < k && 0 <= c < k ==> r[i][c] == ColumnDot(m[i], q, c, k)
  {
    seq(k, i requires 0 <= i < k => seq(k, c requires 0 <= c < k => ColumnDot(m[i], q, c, k)))
  }

  /** The rotation `einsum("hij,jk->hik", irf, Q)`: every horizon's matrix is
      right-multiplied by Q, so shape (H+1, k, k) is kept. */
  function Rotate(t: Tensor, q: Matrix, k: nat): (r: Tensor)
    requires IsTensor(t, k) && IsSquare(q, k)
    ensures |r| == |t| && IsTensor(r, k)
    ensures forall h, i, c :: 0 <= h < |t| && 0 <= i < k && 0 <= c < k ==>
              r[h][i][c] == ColumnDot(t[h][i], q, c, k)
  {
    seq(|t|, h requires 0 <= h < |t| => RotateMatrix(t[h], q, k))
  }

  /** The k×k identity matrix. */
  function Identity(k: nat): (e: Matrix)
    ensures IsSquare(e, k)
  {
    seq(k, i requires 0 <= i < k => seq(k, j requires 0 <= j < k => if i == j then 1.0 else 0.0))
  }

  lemma {:induction false} ColumnDotIdentity(row: seq<real>, k: nat, c: nat, n: nat)
    requires |row| == k && c < k && n <= k
    ensures ColumnDot(row, Identity(k), c, n) == if c < n then row[c] else 0.0
  {
    if n > 0 {
      ColumnDotIdentity(row, k, c, n - 1);
    }
  }

  /** Rotating by the identity leaves the reduced-form responses unchanged. */
  lemma RotateByIdentity(t: Tensor, k: nat)
    requires IsTensor(t, k)
    ensures Rotate(t, Identity(k), k) == t
  {
    var r := Rotate(t, Identity(k), k);
    forall h | 0 <= h < |t| ensures r[h] == t[h] {
      forall i | 0 <= i < k ensures r[h][i] == t[h][i] {
        forall c | 0 <= c < k ensures r[h][i][c] == t[h][i][c] {
          ColumnDotIdentity(t[h][i], k, c, k);
        }
      }
    }
  }

  /** numpy's sign: +1, -1 or 0. */
  function Sign(x: real): (s: int)
    ensures -1 <= s <= 1
    ensures s == 0 <==> x == 0.0
    ensures s == 1 <==> x > 0.0
  {
    if x > 0.0 then 1 else if x < 0.0 then -1 else 0
  }

  /** One entry `shock_idx: sgn` of an inner restriction dictionary. */
  datatype ShockSign = ShockSign(shock: nat, sign: int)

  /** One entry `var_idx: {shock_idx: sgn, ...}` of the restriction dictionary. */
  datatype VarRules = VarRules(variable: nat, rules: seq<ShockSign>)

  /** The restriction dictionary, in its iteration order. */
  type SignSpec = seq<VarRules>

  /** Every restricted cell is a valid (variable, shock) index of a k×k matrix. */
  predicate InShape(signs: SignSpec, k: nat) {
    forall v :: 0 <= v < |signs| ==>
      signs[v].variable < k &&
      forall r :: 0 <= r < |signs[v].rules| ==> signs[v].rules[r].shock < k
  }

  /** The sign of cell (vr.variable, sr.shock) of m is the required one. */
  predicate RuleHolds(m: Matrix, vr: VarRules, sr: ShockSign) {
    vr.variable < |m| && sr.shock < |m[vr.variable]| &&
    Sign(m[vr.variable][sr.shock]) == sr.sign
  }

  /** Every restriction holds at every horizon 0..checkH-1; with no
      restrictions every draw passes. */
  predicate SatisfiesAll(t: Tensor, signs: SignSpec, checkH: nat)
    ensures signs == [] ==> SatisfiesAll(t, signs, checkH)
  {
    forall h, v, r | 0 <= h < checkH && 0 <= v < |signs| && 0 <= r < |signs[v].rules| ::
      h < |t| && RuleHolds(t[h], signs[v], signs[v].rules[r])
  }

  /** The nested, short-circuiting sign check of one rotated tensor. */
  method CheckSigns(irfS: Tensor, k: nat, signs: SignSpec, checkH: nat) returns (ok: bool)
    requires IsTensor(irfS, k) && checkH <= |irfS| && InShape(signs, k)
    ensures ok <==> SatisfiesAll(irfS, signs, checkH)
  {
    ok := true;
    ghost var bh, bv, br := 0, 0, 0;
    var h := 0;
    while h < checkH
      invariant h <= checkH && ok
      invariant forall h', v, r | 0 <= h' < h && 0 <= v < |signs| && 0 <= r < |signs[v].rules| ::
                  RuleHolds(irfS[h'], signs[v], signs[v].rules[r])
    {
      var v := 0;
      while v < |signs|
        invariant v <= |signs| && ok
        invariant forall v', r | 0 <= v' < v && 0 <= r < |signs[v'].rules| ::
                    RuleHolds(irfS[h], signs[v'], signs[v'].rules[r])
      {
        var rules := signs[v].rules;
        var r := 0;
        while r < |rules|
          invariant r <= |rules| && ok
          invariant forall r' | 0 <= r' < r :: RuleHolds(irfS[h], signs[v], rules[r'])
        {
          if Sign(irfS[h][signs[v].variable][rules[r].shock]) != rules[r].sign {
            ok := false;
            bh, bv, br := h, v, r;
            break;
          }
          r := r + 1;
        }
        if !ok {
          break;
        }
        v := v + 1;
      }
      if !ok {
        break;
      }
      h := h + 1;
    }
    if !ok {
      assert bh < checkH && bv < |signs| && br < |signs[bv].rules|;
      assert !RuleHolds(irfS[bh], signs[bv], signs[bv].rules[br]);
    }
  }

  /** A zero response fails any restriction whose required sign is +1 or -1. */
  lemma ZeroEntryRejected(t: Tensor, signs: SignSpec, checkH: nat, h: nat, v: nat, r: nat)
    requires h < checkH && v < |signs| && r < |signs[v].rules|
    requires h < |t| && signs[v].variable < |t[h]| && signs[v].rules[r].shock < |t[h][signs[v].variable]|
    requires t[h][signs[v].variable][signs[v].rules[r].shock] == 0.0
    requires signs[v].rules[r].sign == 1 || signs[v].rules[r].sign == -1
    ensures !SatisfiesAll(t, signs, checkH)
  {
    assert !RuleHolds(t[h], signs[v], signs[v].rules[r]);
  }

  /** With no horizons to check every draw passes. */
  lemma NoHorizonsAcceptsAll(t: Tensor, signs: SignSpec)
    ensures SatisfiesAll(t, signs, 0)
  {
  }

  /** The tensors accepted among the first n draws, in draw order. */
  function AcceptedAmong(irfRf: Tensor, k: nat, rotation: nat -> Matrix, signs: SignSpec, checkH: nat, n: nat): (acc: seq<Tensor>)
    requires IsTensor(irfRf, k)
    requires forall d :: 0 <= d < n ==> IsSquare(rotation(d), k)
    ensures |acc| <= n
  {
    if n == 0 then []
    else
      var prev := AcceptedAmong(irfRf, k, rotation, signs, checkH, n - 1);
      var candidate := Rotate(irfRf, rotation(n - 1), k);
      if SatisfiesAll(candidate, signs, checkH) then prev + [candidate] else prev
  }

  /** One more draw appends its rotated tensor exactly when it passes. */
  lemma AcceptedStep(irfRf: Tensor, k: nat, rotation: nat -> Matrix, signs: SignSpec, checkH: nat, n: nat,
                     candidate: Tensor, ok: bool)
    requires IsTensor(irfRf, k)
    requires forall d :: 0 <= d < n + 1 ==> IsSquare(rotation(d), k)
    requires candidate == Rotate(irfRf, rotation(n), k)
    requires ok == SatisfiesAll(candidate, signs, checkH)
    ensures AcceptedAmong(irfRf, k, rotation, signs, checkH, n + 1) ==
              if ok then AcceptedAmong(irfRf, k, rotation, signs, checkH, n) + [candidate]
              else AcceptedAmong(irfRf, k, rotation, signs, checkH, n)
  {
  }

  /** Every accepted tensor satisfies all the restrictions and is the rotation
      of the reduced-form tensor by one of the draws. */
  lemma {:induction false} AcceptedSatisfy(irfRf: Tensor, k: nat, rotation: nat -> Matrix, signs: SignSpec, checkH: nat, n: nat)
    requires IsTensor(irfRf, k)
    requires forall d :: 0 <= d < n ==> IsSquare(rotation(d), k)
    ensures forall t :: t in AcceptedAmong(irfRf, k, rotation, signs, checkH, n) ==>
              SatisfiesAll(t, signs, checkH) &&
              exists d :: 0 <= d < n && t == Rotate(irfRf, rotation(d), k)
  {
    if n > 0 {
      AcceptedSatisfy(irfRf, k, rotation, signs, checkH, n - 1);
    }
  }

  /** Later draws only append, so accepted tensors keep the order of their draws. */
  lemma {:induction false} AcceptedPrefix(irfRf: Tensor, k: nat, rotation: nat -> Matrix, signs: SignSpec, checkH: nat, m: nat, n: nat)
    requires m <= n
    requires IsTensor(irfRf, k)
    requires forall d :: 0 <= d < n ==> IsSquare(rotation(d), k)
    ensures AcceptedAmong(irfRf, k, rotation, signs, checkH, m) <= AcceptedAmong(irfRf, k, rotation, signs, checkH, n)
  {
    if m < n {
      AcceptedPrefix(irfRf, k, rotation, signs, checkH, m, n - 1);
    }
  }

  /** Nothing is accepted among the first n draws iff none of them passes. */
  lemma {:induction false} NoneAccepted(irfRf: Tensor, k: nat, rotation: nat -> Matrix, signs: SignSpec, checkH: nat, n: nat)
    requires IsTensor(irfRf, k)
    requires forall d :: 0 <= d < n ==> IsSquare(rotation(d), k)
    ensures AcceptedAmong(irfRf, k, rotation, signs, checkH, n) == [] <==>
            forall d :: 0 <= d < n ==> !SatisfiesAll(Rotate(irfRf, rotation(d), k), signs, checkH)
  {
    if n > 0 {
      NoneAccepted(irfRf, k, rotation, signs, checkH, n - 1);
    }
  }

  /** The rejection loop: draw, rotate, check, keep; stop once nAccept tensors
      are kept or nDraws draws are made. */
  method RunSampler(irfRf: Tensor, rotation: nat -> Matrix, signs: SignSpec, checkH: nat, nDraws: nat, nAccept: nat)
    returns (draws: nat, accepted: seq<Tensor>)
    requires |irfRf| > 0 && IsTensor(irfRf, |irfRf[0]|)
    requires checkH <= |irfRf| && InShape(signs, |irfRf[0]|)
    requires forall d :: 0 <= d < nDraws ==> IsSquare(rotation(d), |irfRf[0]|)
    ensures draws <= nDraws && |accepted| <= nAccept
    ensures |accepted| == nAccept || draws == nDraws
    ensures |accepted| <= draws
    ensures nAccept == 0 || nDraws == 0 ==> draws == 0
    ensures accepted == AcceptedAmong(irfRf, |irfRf[0]|, rotation, signs, checkH, draws)
    ensures forall d :: 0 <= d < draws ==> |AcceptedAmong(irfRf, |irfRf[0]|, rotation, signs, checkH, d)| < nAccept
  {
    var k := |irfRf[0]|;
    accepted := [];
    draws := 0;
    while |accepted| < nAccept && draws < nDraws
      invariant draws <= nDraws && |accepted| <= nAccept
      invariant accepted == AcceptedAmong(irfRf, k, rotation, signs, checkH, draws)
      invariant forall d :: 0 <= d < draws ==> |AcceptedAmong(irfRf, k, rotation, signs, checkH, d)| < nAccept
    {
      ghost var before := draws;
      assert |AcceptedAmong(irfRf, k, rotation, signs, checkH, before)| < nAccept;
      draws := draws + 1;
      var q := rotation(draws - 1);
      var irfS := Rotate(irfRf, q, k);
      var ok := CheckSigns(irfS, k, signs, checkH);
      AcceptedStep(irfRf, k, rotation, signs, checkH, before, irfS, ok);
      if ok {
        accepted := accepted + [irfS];
      }
    }
  }

  /** "No accepted draws" is the only failure. */
  datatype IdentifyError = NoAcceptedDraws

  /** The number of draws tried and the accepted tensors, in draw order. */
  datatype Identified = Identified(draws: nat, accepted: seq<Tensor>)

  /** The sampling loop followed by the empty-result check that precedes the
      median/percentile aggregation. */
  method Identify(irfRf: Tensor, rotation: nat -> Matrix, signs: SignSpec, checkH: nat, nDraws: nat, nAccept: nat)
    returns (outcome: Result<Identified, IdentifyError>)
    requires |irfRf| > 0 && IsTensor(irfRf, |irfRf[0]|)
    requires checkH <= |irfRf| && InShape(signs, |irfRf[0]|)
    requires forall d :: 0 <= d < nDraws ==> IsSquare(rotation(d), |irfRf[0]|)
    ensures outcome.Err? <==>
              nAccept == 0 ||
              forall d :: 0 <= d < nDraws ==> !SatisfiesAll(Rotate(irfRf, rotation(d), |irfRf[0]|), signs, checkH)
    ensures outcome.Ok? ==>
              var r := outcome.value;
              0 < |r.accepted| <= nAccept && r.draws <= nDraws &&
              (|r.accepted| == nAccept || r.draws == nDraws) &&
              r.accepted == AcceptedAmong(irfRf, |irfRf[0]|, rotation, signs, checkH, r.draws) &&
              (forall d :: 0 <= d < r.draws ==>
                 |AcceptedAmong(irfRf, |irfRf[0]|, rotation, signs, checkH, d)| < nAccept) &&
              forall t :: t in r.accepted ==> SatisfiesAll(t, signs, checkH)
  {
    var k := |irfRf[0]|;
    var draws, accepted := RunSampler(irfRf, rotation, signs, checkH, nDraws, nAccept);
    NoneAccepted(irfRf, k, rotation, signs, checkH, draws);
    NoneAccepted(irfRf, k, rotation, signs, checkH, nDraws);
    AcceptedSatisfy(irfRf, k, rotation, signs, checkH, draws);
    if |accepted| == 0 {
      outcome := Err(NoAcceptedDraws);
    } else {
      outcome := Ok(Identified(draws, accepted));
    }
  }

  /** The configuration constants of the script. */
  const Horizon: nat := 30
  const NDraws: nat := 20000
  const NAccept: nat := 200
  const CheckH: nat := 1

  /** Production falls and the price rises after a supply shock; production
      and the price rise after an aggregate-demand shock; the price and
      inventories rise after a precautionary-demand shock. */
  const DefaultSigns: SignSpec := [
    VarRules(0, [ShockSign(0, -1), ShockSign(1, 1)]),
    VarRules(2, [ShockSign(0, 1), ShockSign(1, 1), ShockSign(2, 1)]),
    VarRules(3, [ShockSign(2, 1)])
  ]

  /** The configured restrictions fit the four-variable system and, at the one
      checked horizon, amount to six strict sign conditions. */
  lemma DefaultRestrictions(t: Tensor)
    requires |t| == Horizon + 1 && IsTensor(t, 4)
    ensures InShape(DefaultSigns, 4) && CheckH <= |t|
    ensures SatisfiesAll(t, DefaultSigns, CheckH) <==>
              t[0][0][0] < 0.0 && t[0][0][1] > 0.0 &&
              t[0][2][0] > 0.0 && t[0][2][1] > 0.0 && t[0][2][2] > 0.0 &&
              t[0][3][2] > 0.0
  {
    var s := DefaultSigns;
    if SatisfiesAll(t, s, CheckH) {
      assert RuleHolds(t[0], s[0], s[0].rules[0]);
      assert RuleHolds(t[0], s[0], s[0].rules[1]);
      assert RuleHolds(t[0], s[1], s[1].rules[0]);
      assert RuleHolds(t[0], s[1], s[1].rules[1]);
      assert RuleHolds(t[0], s[1], s[1].rules[2]);
      assert RuleHolds(t[0], s[2], s[2].rules[0]);
    }
  }

  /** The six strict horizon-0 conditions the configured restrictions amount to. */
  predicate ConfiguredSigns(t: Tensor) {
    |t| > 0 && IsSquare(t[0], 4) &&
    t[0][0][0] < 0.0 && t[0][0][1] > 0.0 &&
    t[0][2][0] > 0.0 && t[0][2][1] > 0.0 && t[0][2][2] > 0.0 &&
    t[0][3][2] > 0.0
  }

  /** Every tensor the configured sampler accepts meets the six conditions. */
  lemma AcceptedMeetConfigured(irfRf: Tensor, rotation: nat -> Matrix, n: nat)
    requires |irfRf| == Horizon + 1 && IsTensor(irfRf, 4)
    requires forall d :: 0 <= d < n ==> IsSquare(rotation(d), 4)
    ensures forall t :: t in AcceptedAmong(irfRf, 4, rotation, DefaultSigns, CheckH, n) ==> ConfiguredSigns(t)
  {
    AcceptedSatisfy(irfRf, 4, rotation, DefaultSigns, CheckH, n);
    forall t | t in AcceptedAmong(irfRf, 4, rotation, DefaultSigns, CheckH, n)
      ensures ConfiguredSigns(t)
    {
      var d :| 0 <= d < n && t == Rotate(irfRf, rotation(d), 4);
      DefaultRestrictions(t);
    }
  }

  /** The script's run: 20000 draws at most, stopping at 200 accepted
      four-variable tensors that meet the configured restrictions at horizon 0. */
  method IdentifyConfigured(irfRf: Tensor, rotation: nat -> Matrix)
    returns (outcome: Result<Identified, IdentifyError>)
    requires |irfRf| == Horizon + 1 && IsTensor(irfRf, 4)
    requires forall d :: 0 <= d < NDraws ==> IsSquare(rotation(d), 4)
    ensures outcome.Err? <==>
              forall d :: 0 <= d < NDraws ==> !SatisfiesAll(Rotate(irfRf, rotation(d), 4), DefaultSigns, CheckH)
    ensures outcome.Ok? ==>
              0 < |outcome.value.accepted| <= 200 && outcome.value.draws <= 20000 &&
              (|outcome.value.accepted| == 200 || outcome.value.draws == 20000)
    ensures outcome.Ok? ==>
              outcome.value.accepted == AcceptedAmong(irfRf, 4, rotation, DefaultSigns, CheckH, outcome.value.draws) &&
              forall d :: 0 <= d < outcome.value.draws ==>
                |AcceptedAmong(irfRf, 4, rotation, DefaultSigns, CheckH, d)| < 200
    ensures outcome.Ok? ==> forall t :: t in outcome.value.accepted ==> ConfiguredSigns(t)
  {
    DefaultRestrictions(irfRf);
    outcome := Identify(irfRf, rotation, DefaultSigns, CheckH, NDraws, NAccept);
    if outcome.Ok? {
      AcceptedMeetConfigured(irfRf, rotation, outcome.value.draws);
    }
  }
}
