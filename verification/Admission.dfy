/** Admission of a message: the proximity score, the diversity and reputation gates, and how they interact. */
module Admission {
  import opened Common
  import opened Arithmetic
  import opened Ultrametric
  import opened Dag

  datatype AdicParams = AdicParams(p: nat, d: nat, rho: seq<nat>, q: nat, rMin: real, rSumMin: real)

  /** Each parent's digit vectors, by axis index. */
  type ParentFeatures = seq<seq<seq<Byte>>>

  datatype AdmissionError =
    | MissingAxis(axis: nat) | NotEnoughParents | ParentMissingAxis(axis: nat) | NotAllParentsHaveAxis(axis: nat)
    | WrongParentCount(expected: nat, got: nat)

  /** `get_axis`: the first entry for the axis. */
  function GetAxis(phi: seq<AxisPhi>, axis: nat): (r: Option<seq<Byte>>)
    ensures r.None? ==> forall i :: 0 <= i < |phi| ==> phi[i].axis != axis
    ensures r.Some? ==>
              exists i :: 0 <= i < |phi| && phi[i] == AxisPhi(axis, r.value)
                          && forall j :: 0 <= j < i ==> phi[j].axis != axis
  {
    if phi == [] then None
    else if phi[0].axis == axis then Some(phi[0].digits)
    else GetAxis(phi[1..], axis)
  }

  /** The values of the parents that have axis `j`, in parent order. */
  function AxisValues(parents: ParentFeatures, j: nat): (values: seq<seq<Byte>>)
    ensures |values| <= |parents|
  {
    if parents == [] then []
    else
      var last := parents[|parents| - 1];
      AxisValues(parents[..|parents| - 1], j) + if j < |last| then [last[j]] else []
  }

  lemma {:induction false} AxisValuesAre(parents: ParentFeatures, j: nat)
    ensures forall v ::
              v in AxisValues(parents, j) <==> exists i :: 0 <= i < |parents| && j < |parents[i]| && parents[i][j] == v
    ensures |AxisValues(parents, j)| == |parents| <==> forall i :: 0 <= i < |parents| ==> j < |parents[i]|
  {
    if parents != [] {
      AxisValuesAre(parents[..|parents| - 1], j);
    }
  }

  // ----- the score

  lemma PowAtLeastBase(p: nat, e: nat)
    requires p >= 2
    ensures e > 0 ==> Pow(p, e) >= 2
    ensures e == 0 ==> Pow(p, e) == 1
  {
    if e > 0 {
      PowStep(p, e);
      PowPositive(p, e - 1);
      MulMonotone(2, p, Pow(p, e - 1));
    }
  }

  /** `p^(-max(0, radius - valuation))`. */
  function Term(p: nat, radius: nat, valuation: nat): (t: real)
    requires p >= 2
    ensures 0.0 < t <= 1.0
    ensures if valuation >= radius then t == 1.0 else t <= 0.5
  {
    PowPositive(p, Max(0, radius - valuation));
    PowAtLeastBase(p, Max(0, radius - valuation));
    1.0 / (Pow(p, Max(0, radius - valuation)) as real)
  }

  lemma Divided(n: real, p: real)
    requires n > 0.0 && p > 0.0
    ensures 1.0 / n == p * (1.0 / (p * n))
  {
  }

  /** Each digit short of the radius divides the term by `p`. */
  lemma TermFalls(p: nat, radius: nat, valuation: nat)
    requires p >= 2
    ensures valuation >= radius ==> Term(p, radius, valuation) == 1.0
    ensures valuation < radius ==> Term(p, radius, valuation + 1) == p as real * Term(p, radius, valuation)
  {
    if valuation < radius {
      var e: nat := radius - valuation;
      PowStep(p, e);
      PowPositive(p, e - 1);
      Divided(Pow(p, e - 1) as real, p as real);
    }
  }

  function Lesser(m: Option<real>, t: real): Option<real> {
    if m.None? || t < m.value then Some(t) else m
  }

  /** The least term over the parents' values; none when no parent has the axis. */
  function MinTerm(p: nat, radius: nat, x: seq<Byte>, values: seq<seq<Byte>>): (m: Option<real>)
    requires p >= 2
    ensures m.None? <==> values == []
    ensures m.Some? ==> 0.0 < m.value <= 1.0
    ensures m.Some? ==> (m.value == 1.0 <==> forall v :: v in values ==> VpDiff(x, v) >= radius)
    ensures m.Some? ==> m.value == 1.0 || m.value <= 0.5
  {
    if values == [] then None
    else
      var last := values[|values| - 1];
      var m, t := MinTerm(p, radius, x, values[..|values| - 1]), Term(p, radius, VpDiff(x, last));
      assert values == values[..|values| - 1] + [last];
      Lesser(m, t)
  }

  lemma MinTermStep(p: nat, radius: nat, x: seq<Byte>, parents: ParentFeatures, i: nat, j: nat)
    requires p >= 2 && i < |parents|
    ensures var before := MinTerm(p, radius, x, AxisValues(parents[..i], j));
            MinTerm(p, radius, x, AxisValues(parents[..i + 1], j))
            == if j < |parents[i]| then Lesser(before, Term(p, radius, VpDiff(x, parents[i][j]))) else before
  {
    hide VpDiff, Term;
    assert parents[..i + 1][..i] == parents[..i];
    var values := AxisValues(parents[..i], j);
    if j < |parents[i]| {
      assert AxisValues(parents[..i + 1], j) == values + [parents[i][j]];
      assert (values + [parents[i][j]])[..|values|] == values;
    } else {
      assert AxisValues(parents[..i + 1], j) == values + [] == values;
    }
  }

  lemma {:induction false} MinTermIsLeast(p: nat, radius: nat, x: seq<Byte>, values: seq<seq<Byte>>)
    requires p >= 2 && values != []
    ensures forall v :: v in values ==> MinTerm(p, radius, x, values).value <= Term(p, radius, VpDiff(x, v))
    ensures exists v :: v in values && MinTerm(p, radius, x, values).value == Term(p, radius, VpDiff(x, v))
  {
    var init, last := values[..|values| - 1], values[|values| - 1];
    assert values == init + [last];
    if init != [] {
      MinTermIsLeast(p, radius, x, init);
    } else {
      assert MinTerm(p, radius, x, init).None?;
    }
  }

  /** What axis `j` adds to the score: nothing when the message or every parent lacks it. */
  function Contribution(params: AdicParams, phi: seq<AxisPhi>, parents: ParentFeatures, j: nat): real
    requires params.p >= 2 && j < |params.rho|
  {
    match GetAxis(phi, j)
    case None => 0.0
    case Some(x) =>
      match MinTerm(params.p, params.rho[j], x, AxisValues(parents, j))
      case None => 0.0
      case Some(m) => m
  }

  /** The score over the first `n` axes. */
  function Score(params: AdicParams, phi: seq<AxisPhi>, parents: ParentFeatures, n: nat): real
    requires params.p >= 2 && n <= |params.rho|
  {
    if n == 0 then 0.0 else Score(params, phi, parents, n - 1) + Contribution(params, phi, parents, n - 1)
  }

  /** An axis the message and some parent have adds the term of the farthest parent, any other axis nothing. */
  lemma ContributionExactly(params: AdicParams, phi: seq<AxisPhi>, parents: ParentFeatures, j: nat)
    requires params.p >= 2 && j < |params.rho|
    ensures var c := Contribution(params, phi, parents, j);
            if GetAxis(phi, j).None? || forall i :: 0 <= i < |parents| ==> j >= |parents[i]| then c == 0.0
            else
              var x := GetAxis(phi, j).value;
              && (exists i :: 0 <= i < |parents| && j < |parents[i]|
                              && c == Term(params.p, params.rho[j], VpDiff(x, parents[i][j])))
              && (forall i :: 0 <= i < |parents| && j < |parents[i]| ==>
                                c <= Term(params.p, params.rho[j], VpDiff(x, parents[i][j])))
  {
    hide AxisValues, VpDiff, Term, MinTerm;
    var values := AxisValues(parents, j);
    AxisValuesAre(parents, j);
    assert forall i :: 0 <= i < |parents| && j < |parents[i]| ==> parents[i][j] in values;
    if GetAxis(phi, j).Some? && values != [] {
      assert values[0] in values;
      MinTermIsLeast(params.p, params.rho[j], GetAxis(phi, j).value, values);
    }
  }

  lemma NoTerm(p: nat, radius: nat, x: seq<Byte>, parents: ParentFeatures, j: nat)
    requires p >= 2
    ensures MinTerm(p, radius, x, AxisValues(parents[..0], j)) == None
  {
  }

  /** The inner loop, which both score computations share word for word; no term yet stands for infinity. */
  method LeastTerm(p: nat, radius: nat, x: seq<Byte>, parents: ParentFeatures, j: nat) returns (least: Option<real>)
    requires p >= 2
    ensures least == MinTerm(p, radius, x, AxisValues(parents, j))
  {
    hide MinTerm, AxisValues;
    NoTerm(p, radius, x, parents, j);
    least := None;
    for i := 0 to |parents|
      invariant least == MinTerm(p, radius, x, AxisValues(parents[..i], j))
    {
      MinTermStep(p, radius, x, parents, i, j);
      if j < |parents[i]| {
        var term := Term(p, radius, VpDiff(x, parents[i][j]));
        if least.None? || term < least.value {
          least := Some(term);
        }
      }
    }
    assert parents[..|parents|] == parents;
  }

  /** `compute_security_score`, the validator's loop. */
  method ComputeSecurityScore(params: AdicParams, phi: seq<AxisPhi>, parents: ParentFeatures) returns (total: real)
    requires params.p >= 2
    ensures total == Score(params, phi, parents, |params.rho|)
  {
    hide MinTerm, AxisValues;
    total := 0.0;
    for j := 0 to |params.rho|
      invariant total == Score(params, phi, parents, j)
    {
      var axis := GetAxis(phi, j);
      if axis.Some? {
        var least := LeastTerm(params.p, params.rho[j], axis.value, parents, j);
        if least.Some? {
          total := total + least.value;
        }
      }
    }
  }

  /** `compute_admissibility_score`, the fallback: axes the message lacks are skipped, absent parents count zero. */
  method ComputeAdmissibilityScore(params: AdicParams, phi: seq<AxisPhi>, parents: ParentFeatures) returns (total: real)
    requires params.p >= 2
    ensures total == Score(params, phi, parents, |params.rho|)
  {
    hide MinTerm, AxisValues;
    total := 0.0;
    for j := 0 to |params.rho|
      invariant total == Score(params, phi, parents, j)
    {
      var axis := GetAxis(phi, j);
      if axis.None? {
        continue;
      }
      var least := LeastTerm(params.p, params.rho[j], axis.value, parents, j);
      if least.None? {
        least := Some(0.0);
      }
      total := total + least.value;
    }
  }

  /** The message has axis `j`, some parent does, and every such parent value is in the message's ball. */
  ghost predicate AxisClose(params: AdicParams, phi: seq<AxisPhi>, parents: ParentFeatures, j: nat)
    requires j < |params.rho|
  {
    && GetAxis(phi, j).Some?
    && (exists i :: 0 <= i < |parents| && j < |parents[i]|)
    && forall i :: 0 <= i < |parents| && j < |parents[i]| ==>
         VpDiff(GetAxis(phi, j).value, parents[i][j]) >= params.rho[j]
  }

  lemma ContributionExtremes(params: AdicParams, phi: seq<AxisPhi>, parents: ParentFeatures, j: nat)
    requires params.p >= 2 && j < |params.rho|
    ensures var c := Contribution(params, phi, parents, j);
            if AxisClose(params, phi, parents, j) then c == 1.0 else 0.0 <= c <= 0.5
  {
    hide AxisValues, VpDiff;
    var values := AxisValues(parents, j);
    AxisValuesAre(parents, j);
    if GetAxis(phi, j).Some? {
      var x := GetAxis(phi, j).value;
      if values == [] {
        assert forall i :: 0 <= i < |parents| && j < |parents[i]| ==> parents[i][j] in values;
      } else {
        assert values[0] in values;
        assert (forall v :: v in values ==> VpDiff(x, v) >= params.rho[j])
          <==> (forall i :: 0 <= i < |parents| && j < |parents[i]| ==> VpDiff(x, parents[i][j]) >= params.rho[j]) by {
          assert forall i :: 0 <= i < |parents| && j < |parents[i]| ==> parents[i][j] in values;
        }
      }
    }
  }

  lemma AddTerm(s: real, c: real, bound: real)
    requires s <= bound && (s > bound - 0.5 <==> s == bound) && (c == 1.0 || 0.0 <= c <= 0.5)
    ensures s + c <= bound + 1.0
    ensures s + c > bound + 1.0 - 0.5 <==> s == bound && c == 1.0
    ensures s + c == bound + 1.0 <==> s == bound && c == 1.0
  {
  }

  lemma {:induction false} ScoreBound(params: AdicParams, phi: seq<AxisPhi>, parents: ParentFeatures, n: nat)
    requires params.p >= 2 && n <= |params.rho|
    ensures Score(params, phi, parents, n) <= n as real
    ensures Score(params, phi, parents, n) > n as real - 0.5
            <==> forall j :: 0 <= j < n ==> AxisClose(params, phi, parents, j)
    ensures Score(params, phi, parents, n) > n as real - 0.5 <==> Score(params, phi, parents, n) == n as real
  {
    hide Contribution, AxisClose;
    if n > 0 {
      ScoreBound(params, phi, parents, n - 1);
      ContributionExtremes(params, phi, parents, n - 1);
      AddTerm(Score(params, phi, parents, n - 1), Contribution(params, phi, parents, n - 1), (n - 1) as real);
      assert (n - 1) as real + 1.0 == n as real;
    }
  }

  predicate ScorePassed(params: AdicParams, phi: seq<AxisPhi>, parents: ParentFeatures)
    requires params.p >= 2
  {
    Score(params, phi, parents, |params.rho|) >= params.d as real
  }

  /** The score gate says exactly that every parent value lies in the message's ball on every axis. A failing axis
      costs at least one half, so rounding of the sum cannot change the verdict. */
  lemma ScoreGate(params: AdicParams, phi: seq<AxisPhi>, parents: ParentFeatures)
    requires params.p >= 2 && |params.rho| == params.d
    ensures ScorePassed(params, phi, parents) <==> forall j :: 0 <= j < params.d ==> AxisClose(params, phi, parents, j)
    ensures !ScorePassed(params, phi, parents) ==> Score(params, phi, parents, params.d) <= params.d as real - 0.5
  {
    hide AxisClose;
    ScoreBound(params, phi, parents, params.d);
  }

  // ----- C1, proximity to the diagonal parents

  predicate DiagonalClose(params: AdicParams, phi: seq<AxisPhi>, parents: ParentFeatures, j: nat)
    requires j < |params.rho|
  {
    && GetAxis(phi, j).Some? && j < |parents| && j < |parents[j]|
    && VpDiff(GetAxis(phi, j).value, parents[j][j]) >= params.rho[j]
  }

  /** `verify_c1_ultrametric`: parent `j` is held against the message on axis `j`; the first bad axis decides. */
  method VerifyC1(params: AdicParams, phi: seq<AxisPhi>, parents: ParentFeatures)
      returns (r: Result<bool, AdmissionError>)
    ensures r == Ok(true) <==> forall j :: 0 <= j < |params.rho| ==> DiagonalClose(params, phi, parents, j)
    ensures r != Ok(true) ==>
              exists j :: 0 <= j < |params.rho| && !DiagonalClose(params, phi, parents, j)
                          && (forall i :: 0 <= i < j ==> DiagonalClose(params, phi, parents, i))
                          && r == (if GetAxis(phi, j).None? then Err(MissingAxis(j))
                                   else if j >= |parents| then Err(NotEnoughParents)
                                   else if j >= |parents[j]| then Err(ParentMissingAxis(j))
                                   else Ok(false))
  {
    for j := 0 to |params.rho|
      invariant forall i :: 0 <= i < j ==> DiagonalClose(params, phi, parents, i)
    {
      var axis := GetAxis(phi, j);
      if axis.None? {
        assert !DiagonalClose(params, phi, parents, j);
        return Err(MissingAxis(j));
      }
      if j >= |parents| {
        assert !DiagonalClose(params, phi, parents, j);
        return Err(NotEnoughParents);
      }
      if j >= |parents[j]| {
        assert !DiagonalClose(params, phi, parents, j);
        return Err(ParentMissingAxis(j));
      }
      if VpDiff(axis.value, parents[j][j]) < params.rho[j] {
        assert !DiagonalClose(params, phi, parents, j);
        return Ok(false);
      }
    }
    return Ok(true);
  }

  /** The score gate is stronger than C1 whenever the diagonal parents exist. */
  lemma ScoreGateImpliesC1(params: AdicParams, phi: seq<AxisPhi>, parents: ParentFeatures)
    requires params.p >= 2 && |params.rho| == params.d && ScorePassed(params, phi, parents)
    ensures forall j :: 0 <= j < params.d ==>
              (DiagonalClose(params, phi, parents, j) <==> j < |parents| && j < |parents[j]|)
  {
    ScoreGate(params, phi, parents);
    forall j | 0 <= j < params.d
      ensures DiagonalClose(params, phi, parents, j) <==> j < |parents| && j < |parents[j]|
    {
      assert AxisClose(params, phi, parents, j);
    }
  }

  // ----- C2, diversity

  ghost function BallSet(values: seq<seq<Byte>>, radius: nat): set<seq<Byte>> {
    set i | 0 <= i < |values| :: BallId(values[i], radius)
  }

  lemma BallSetAppend(values: seq<seq<Byte>>, i: nat, radius: nat)
    requires i < |values|
    ensures BallSet(values[..i + 1], radius) == BallSet(values[..i], radius) + {BallId(values[i], radius)}
  {
    var more := values[..i + 1];
    forall b | b in BallSet(more, radius) ensures b in BallSet(values[..i], radius) + {BallId(values[i], radius)} {
      var k :| 0 <= k < |more| && BallId(more[k], radius) == b;
      if k < i {
        assert values[..i][k] == more[k];
      }
    }
    forall b | b in BallSet(values[..i], radius) ensures b in BallSet(more, radius) {
      var k :| 0 <= k < i && BallId(values[..i][k], radius) == b;
      assert more[k] == values[..i][k];
    }
    assert more[i] == values[i];
  }

  method CountDistinctBalls(values: seq<seq<Byte>>, radius: nat) returns (n: nat)
    ensures n == |BallSet(values, radius)|
  {
    var unique: set<seq<Byte>> := {};
    for i := 0 to |values|
      invariant unique == BallSet(values[..i], radius)
    {
      BallSetAppend(values, i, radius);
      unique := unique + {BallId(values[i], radius)};
    }
    assert values[..|values|] == values;
    return |unique|;
  }

  /** Every parent has axis `j`, and their values fall into at least `q` balls. */
  ghost predicate AxisDiverse(params: AdicParams, parents: ParentFeatures, j: nat)
    requires j < |params.rho|
  {
    && (forall i :: 0 <= i < |parents| ==> j < |parents[i]|)
    && |BallSet(AxisValues(parents, j), params.rho[j])| >= params.q
  }

  ghost predicate C2Holds(params: AdicParams, parents: ParentFeatures) {
    forall j :: 0 <= j < |params.rho| ==> AxisDiverse(params, parents, j)
  }

  ghost predicate FirstNotDiverse(params: AdicParams, parents: ParentFeatures, j: nat) {
    j < |params.rho| && !AxisDiverse(params, parents, j) && forall i :: 0 <= i < j ==> AxisDiverse(params, parents, i)
  }

  ghost predicate AreCounts(params: AdicParams, parents: ParentFeatures, counts: seq<nat>) {
    |counts| <= |params.rho|
    && forall i :: 0 <= i < |counts| ==> counts[i] == |BallSet(AxisValues(parents, i), params.rho[i])|
  }

  /** `verify_c2_diversity`: a missing axis is an error; otherwise the counts up to the deciding axis come back. */
  method VerifyC2(params: AdicParams, parents: ParentFeatures) returns (r: Result<(bool, seq<nat>), AdmissionError>)
    ensures match r
            case Err(e) =>
              e.NotAllParentsHaveAxis? && FirstNotDiverse(params, parents, e.axis)
              && exists i :: 0 <= i < |parents| && e.axis >= |parents[i]|
            case Ok((passed, counts)) =>
              && (passed <==> C2Holds(params, parents)) && AreCounts(params, parents, counts)
              && if passed then |counts| == |params.rho|
                 else counts != [] && FirstNotDiverse(params, parents, |counts| - 1)
                      && forall i :: 0 <= i < |parents| ==> |counts| - 1 < |parents[i]|
  {
    hide AxisValues, BallSet;
    var counts: seq<nat> := [];
    for j := 0 to |params.rho|
      invariant forall i :: 0 <= i < j ==> AxisDiverse(params, parents, i)
      invariant |counts| == j && AreCounts(params, parents, counts)
    {
      AxisValuesAre(parents, j);
      var values := AxisValues(parents, j);
      if |values| != |parents| {
        assert !AxisDiverse(params, parents, j);
        return Err(NotAllParentsHaveAxis(j));
      }
      var n := CountDistinctBalls(values, params.rho[j]);
      counts := counts + [n];
      if n < params.q {
        assert !AxisDiverse(params, parents, j);
        return Ok((false, counts));
      }
    }
    return Ok((true, counts));
  }

  /** `check_c2_diversity`, the fallback: a missing axis is a refusal. */
  method CheckC2(params: AdicParams, parents: ParentFeatures) returns (passed: bool)
    ensures passed <==> C2Holds(params, parents)
  {
    hide AxisValues, BallSet;
    for j := 0 to |params.rho|
      invariant forall i :: 0 <= i < j ==> AxisDiverse(params, parents, i)
    {
      AxisValuesAre(parents, j);
      var values := AxisValues(parents, j);
      if |values| != |parents| {
        assert !AxisDiverse(params, parents, j);
        return false;
      }
      var n := CountDistinctBalls(values, params.rho[j]);
      if n < params.q {
        assert !AxisDiverse(params, parents, j);
        return false;
      }
    }
    return true;
  }

  // ----- C3, reputation

  function SumOf(reputations: seq<real>): real {
    if reputations == [] then 0.0 else SumOf(reputations[..|reputations| - 1]) + reputations[|reputations| - 1]
  }

  lemma SumStep(reputations: seq<real>, rep: real)
    ensures SumOf([]) == 0.0 && SumOf(reputations + [rep]) == SumOf(reputations) + rep
  {
    assert (reputations + [rep])[..|reputations|] == reputations;
  }

  function LeastOf(reputations: seq<real>): (m: real)
    ensures reputations == [] ==> m == 0.0
    ensures reputations != [] ==> m in reputations && forall r :: r in reputations ==> m <= r
  {
    if |reputations| <= 1 then (if reputations == [] then 0.0 else reputations[0])
    else
      var m, last := LeastOf(reputations[..|reputations| - 1]), reputations[|reputations| - 1];
      assert reputations == reputations[..|reputations| - 1] + [last];
      if last < m then last else m
  }

  predicate C3Holds(params: AdicParams, reputations: seq<real>) {
    LeastOf(reputations) >= params.rMin && SumOf(reputations) >= params.rSumMin
  }

  /** No reputations at all count as one reputation of zero; otherwise every one must reach the minimum. */
  lemma C3Means(params: AdicParams, reputations: seq<real>)
    ensures C3Holds(params, reputations) <==>
              SumOf(reputations) >= params.rSumMin
              && (if reputations == [] then 0.0 >= params.rMin else forall r :: r in reputations ==> r >= params.rMin)
  {
  }

  // ----- the verdict

  datatype AdmissibilityResult =
    AdmissibilityResult(score: real, scorePassed: bool, c2Passed: bool, c3Passed: bool, isAdmissible: bool)

  /** What a check decides. The validation mode is not among its inputs. */
  ghost function Verdict(params: AdicParams, phi: seq<AxisPhi>, parents: ParentFeatures,
                         reputations: seq<real>): AdmissibilityResult
    requires params.p >= 2
  {
    var s, c2, c3 := ScorePassed(params, phi, parents), C2Holds(params, parents), C3Holds(params, reputations);
    AdmissibilityResult(Score(params, phi, parents, |params.rho|), s, c2, c3, s && c2 && c3)
  }

  /** Admissible is exactly who is close and diverse on every axis, and carried by enough reputation. */
  lemma VerdictExactly(params: AdicParams, phi: seq<AxisPhi>, parents: ParentFeatures, reputations: seq<real>)
    requires params.p >= 2 && |params.rho| == params.d
    ensures var v := Verdict(params, phi, parents, reputations);
            && (v.scorePassed <==> forall j :: 0 <= j < params.d ==> AxisClose(params, phi, parents, j))
            && (v.c2Passed <==> forall j :: 0 <= j < params.d ==> AxisDiverse(params, parents, j))
            && (v.c3Passed <==>
                  && (reputations == [] ==> 0.0 >= params.rMin)
                  && (forall rep :: rep in reputations ==> rep >= params.rMin)
                  && SumOf(reputations) >= params.rSumMin)
            && (v.isAdmissible <==> v.scorePassed && v.c2Passed && v.c3Passed)
  {
    ScoreGate(params, phi, parents);
    C3Means(params, reputations);
    hide Score, AxisClose, AxisDiverse;
  }

  lemma MissingNotDiverse(params: AdicParams, parents: ParentFeatures, j: nat)
    requires FirstNotDiverse(params, parents, j)
    ensures !C2Holds(params, parents)
  {
  }

  /** `check_message`: with the ultrametric validator or with the fallback, the same score, C2 result and verdict. */
  method CheckMessage(params: AdicParams, useUltrametric: bool, message: Message, parents: ParentFeatures,
                      reputations: seq<real>)
      returns (r: Result<AdmissibilityResult, AdmissionError>)
    requires params.p >= 2
    ensures r == if |message.parents| != params.d + 1 then Err(WrongParentCount(params.d + 1, |message.parents|))
                 else Ok(Verdict(params, message.phi, parents, reputations))
    ensures r.Ok? && |params.rho| == params.d ==>
              && (r.value.scorePassed <==>
                    forall j :: 0 <= j < params.d ==> AxisClose(params, message.phi, parents, j))
              && (r.value.c2Passed <==> forall j :: 0 <= j < params.d ==> AxisDiverse(params, parents, j))
              && (r.value.c3Passed <==>
                    && (reputations == [] ==> 0.0 >= params.rMin)
                    && (forall rep :: rep in reputations ==> rep >= params.rMin)
                    && SumOf(reputations) >= params.rSumMin)
              && (r.value.isAdmissible <==> r.value.scorePassed && r.value.c2Passed && r.value.c3Passed)
  {
    if |params.rho| == params.d {
      VerdictExactly(params, message.phi, parents, reputations);
    }
    hide Score, C2Holds, C3Holds, AxisClose, AxisDiverse;
    if |message.parents| != params.d + 1 {
      return Err(WrongParentCount(params.d + 1, |message.parents|));
    }
    var score, c2;
    if useUltrametric {
      score := ComputeSecurityScore(params, message.phi, parents);
      var diversity := VerifyC2(params, parents);
      match diversity {
        case Err(e) =>
          MissingNotDiverse(params, parents, e.axis);
          c2 := false;
        case Ok((passed, _)) =>
          c2 := passed;
      }
    } else {
      score := ComputeAdmissibilityScore(params, message.phi, parents);
      c2 := CheckC2(params, parents);
    }
    var c3 := C3Holds(params, reputations);
    var scorePassed := score >= params.d as real;
    return Ok(AdmissibilityResult(score, scorePassed, c2, c3, scorePassed && c2 && c3));
  }

  // ----- score gate against diversity gate

  /** How many digits of each value lie within the radius. */
  ghost function LengthSet(values: seq<seq<Byte>>, radius: nat): set<nat> {
    set i | 0 <= i < |values| :: Min(radius, |values[i]|)
  }

  /** The low digits all close values share. */
  ghost function Shared(x: seq<Byte>, n: nat): seq<Byte> {
    PadTo(x, n)
  }

  lemma BallIsShared(x: seq<Byte>, v: seq<Byte>, radius: nat)
    requires VpDiff(x, v) >= radius
    ensures BallId(v, radius) == Shared(x, Min(radius, |v|))
  {
    forall i | 0 <= i < Min(radius, |v|) ensures v[i] == DigitAt(x, i) {
      assert DigitAt(x, i) == DigitAt(v, i);
    }
  }

  ghost predicate SharedBalls(x: seq<Byte>, balls: set<seq<Byte>>, lengths: set<nat>) {
    |balls| == |lengths| && forall n: nat :: n in lengths <==> Shared(x, n) in balls
  }

  lemma SharedInjective(x: seq<Byte>)
    ensures forall m: nat, n: nat :: Shared(x, m) == Shared(x, n) ==> m == n
  {
    forall m: nat, n: nat | Shared(x, m) == Shared(x, n) ensures m == n {
      assert |Shared(x, m)| == |Shared(x, n)|;
    }
  }

  lemma AddBoth(x: seq<Byte>, balls: set<seq<Byte>>, lengths: set<nat>, n: nat)
    requires SharedBalls(x, balls, lengths)
    ensures SharedBalls(x, balls + {Shared(x, n)}, lengths + {n})
  {
    SharedInjective(x);
    if n in lengths {
      assert balls + {Shared(x, n)} == balls && lengths + {n} == lengths;
    }
  }

  lemma LengthSetAppend(values: seq<seq<Byte>>, i: nat, radius: nat)
    requires i < |values|
    ensures LengthSet(values[..i + 1], radius) == LengthSet(values[..i], radius) + {Min(radius, |values[i]|)}
  {
    var more := values[..i + 1];
    forall n | n in LengthSet(more, radius) ensures n in LengthSet(values[..i], radius) + {Min(radius, |values[i]|)} {
      var k :| 0 <= k < |more| && Min(radius, |more[k]|) == n;
      if k < i {
        assert values[..i][k] == more[k];
      }
    }
    forall n | n in LengthSet(values[..i], radius) ensures n in LengthSet(more, radius) {
      var k :| 0 <= k < i && Min(radius, |values[..i][k]|) == n;
      assert more[k] == values[..i][k];
    }
    assert more[i] == values[i];
  }

  /** Values in one ball of the padded metric differ, as ball identifiers, only by length. */
  lemma {:induction false} BallsCountLengths(x: seq<Byte>, values: seq<seq<Byte>>, radius: nat)
    requires forall v :: v in values ==> VpDiff(x, v) >= radius
    ensures SharedBalls(x, BallSet(values, radius), LengthSet(values, radius))
  {
    if values == [] {
    } else {
      var i := |values| - 1;
      BallsCountLengths(x, values[..i], radius);
      BallSetAppend(values, i, radius);
      LengthSetAppend(values, i, radius);
      assert values[..i + 1] == values;
      BallIsShared(x, values[i], radius);
      AddBoth(x, BallSet(values[..i], radius), LengthSet(values[..i], radius), Min(radius, |values[i]|));
    }
  }

  ghost predicate AxisSpread(params: AdicParams, parents: ParentFeatures, j: nat)
    requires j < |params.rho|
  {
    && (forall i :: 0 <= i < |parents| ==> j < |parents[i]|)
    && |LengthSet(AxisValues(parents, j), params.rho[j])| >= params.q
  }

  lemma OneBallPerLength(params: AdicParams, phi: seq<AxisPhi>, parents: ParentFeatures, j: nat)
    requires j < |params.rho| && AxisClose(params, phi, parents, j)
    ensures |BallSet(AxisValues(parents, j), params.rho[j])| == |LengthSet(AxisValues(parents, j), params.rho[j])|
  {
    hide AxisValues, VpDiff, BallSet, LengthSet;
    AxisValuesAre(parents, j);
    BallsCountLengths(GetAxis(phi, j).value, AxisValues(parents, j), params.rho[j]);
  }

  /** Behind the score gate, diversity is a matter of vector lengths alone: C2 passes exactly when every parent has
      every axis and their values show at least `q` different lengths within each radius. */
  lemma DiversityBehindScoreGate(params: AdicParams, phi: seq<AxisPhi>, parents: ParentFeatures)
    requires params.p >= 2 && |params.rho| == params.d && ScorePassed(params, phi, parents)
    ensures C2Holds(params, parents) <==>
            forall j :: 0 <= j < params.d ==> AxisSpread(params, parents, j)
  {
    hide LengthSet, BallSet, AxisClose;
    ScoreGate(params, phi, parents);
    forall j | 0 <= j < params.d
      ensures AxisDiverse(params, parents, j) <==> AxisSpread(params, parents, j)
    {
      assert AxisClose(params, phi, parents, j);
      OneBallPerLength(params, phi, parents, j);
    }
  }

  lemma AtMostOne(s: set<nat>, n: nat)
    requires s <= {n}
    ensures |s| <= 1
  {
    if n in s {
      assert s == {n};
    } else {
      assert s == {};
    }
  }

  /** With at least one axis and `q >= 2`, no message whose parents' vectors reach the radius on some axis is ever
      admissible: the score gate puts them all in one ball and C2 asks for two. */
  lemma GatesExclude(params: AdicParams, phi: seq<AxisPhi>, parents: ParentFeatures, reputations: seq<real>, j: nat)
    requires params.p >= 2 && |params.rho| == params.d && params.q >= 2 && j < params.d
    requires forall i :: 0 <= i < |parents| && j < |parents[i]| ==> |parents[i][j]| >= params.rho[j]
    ensures !(ScorePassed(params, phi, parents) && C2Holds(params, parents))
    ensures !Verdict(params, phi, parents, reputations).isAdmissible
  {
    if ScorePassed(params, phi, parents) && C2Holds(params, parents) {
      hide Score, AxisValues;
      DiversityBehindScoreGate(params, phi, parents);
      AxisValuesAre(parents, j);
      assert AxisSpread(params, parents, j);
      var values := AxisValues(parents, j);
      assert forall k :: 0 <= k < |values| ==> values[k] in values;
      AtMostOne(LengthSet(values, params.rho[j]), params.rho[j]);
    }
  }

  const UNEQUAL: ParentFeatures := [[[1, 0]], [[1]]]

  lemma Unequal()
    ensures VpDiff([1, 0], [1, 0]) == 2 && VpDiff([1, 0], [1]) == 2
  {
  }

  lemma UnequalValues()
    ensures AxisValues(UNEQUAL, 0) == [[1, 0], [1]]
    ensures AxisClose(AdicParams(3, 1, [2], 2, 0.0, 0.0), [AxisPhi(0, [1, 0])], UNEQUAL, 0)
  {
    hide VpDiff;
    assert UNEQUAL[..1] == [[[1, 0]]] && UNEQUAL[..1][..0] == [];
    assert AxisValues(UNEQUAL[..1], 0) == [[1, 0]];
    assert GetAxis([AxisPhi(0, [1, 0])], 0) == Some([1, 0]);
    assert 0 < |UNEQUAL[0]|;
    Unequal();
  }

  lemma TwoMembers(s: set<seq<Byte>>, x: seq<Byte>, y: seq<Byte>)
    requires x in s && y in s && x != y
    ensures |s| >= 2
  {
    assert |s - {x}| == |s| - 1 && y in s - {x};
  }

  lemma UnequalBalls()
    ensures |BallSet([[1, 0], [1]], 2)| >= 2
  {
    var values: seq<seq<Byte>> := [[1, 0], [1]];
    assert BallId(values[0], 2) == [1, 0] && BallId(values[1], 2) == [1];
    assert {[1, 0], [1]} <= BallSet(values, 2);
    TwoMembers(BallSet(values, 2), [1, 0], [1]);
  }

  /** Without that, both can pass: the vectors `[1, 0]` and `[1]` read as one point but as two balls. */
  lemma UnequalLengthsPassBoth()
    ensures Verdict(AdicParams(3, 1, [2], 2, 0.0, 0.0), [AxisPhi(0, [1, 0])], UNEQUAL, [1.0, 1.0]).isAdmissible
  {
    hide AxisValues, AxisClose, VpDiff, Score, BallSet, GetAxis;
    var params := AdicParams(3, 1, [2], 2, 0.0, 0.0);
    UnequalValues();
    UnequalBalls();
    ScoreGate(params, [AxisPhi(0, [1, 0])], UNEQUAL);
    assert AxisDiverse(params, UNEQUAL, 0);
    assert [1.0, 1.0][..1] == [1.0] && SumOf([1.0]) == 1.0;
  }
}
