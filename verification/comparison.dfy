/** `analyze_all_categories` of the two comparison scripts for one category:
    the original one filters NaN, drops empty groups and runs the tests only
    with two groups left; the survey one hands every group over unfiltered.
    The tests themselves (`f_oneway`, Tukey's HSD) are inputs: the model
    records what is handed to them. */
module Comparison {
  import opened Wrappers
  import opened Stats
  import opened Grouping

  /** One `(group, scores)` item of a category dict. */
  datatype Group = Group(name: string, scores: seq<Num>)

  /** `data.items()` in insertion order. */
  function Items(d: Dict): (gs: seq<Group>)
    requires WellFormed(d)
    ensures |gs| == |d.keys|
    ensures forall i :: 0 <= i < |gs| ==> gs[i].name == d.keys[i] && gs[i].scores == d.values[d.keys[i]]
  {
    seq(|d.keys|, i requires 0 <= i < |d.keys| => Group(d.keys[i], d.values[d.keys[i]]))
  }

  /** A group with at least one number left after NaN removal. */
  predicate HasNumber(g: Group) {
    |Valid(g.scores)| > 0
  }

  /** The groups kept for the tests: the numbers of each group that has
      any, in dict order. */
  function Kept(gs: seq<Group>): (r: seq<seq<real>>)
    ensures |r| <= |gs|
    ensures forall i :: 0 <= i < |r| ==> |r[i]| > 0
    decreases |gs|
  {
    if |gs| == 0 then []
    else
      var g := gs[|gs| - 1];
      Kept(gs[..|gs| - 1]) + (if HasNumber(g) then [Valid(g.scores)] else [])
  }

  /** The positions of the kept groups: increasing, and exactly the groups
      that have a number. */
  function KeptIndices(gs: seq<Group>): (idx: seq<nat>)
    ensures forall k, l :: 0 <= k < l < |idx| ==> idx[k] < idx[l]
    ensures forall k :: 0 <= k < |idx| ==> idx[k] < |gs| && HasNumber(gs[idx[k]])
    ensures forall i :: 0 <= i < |gs| && HasNumber(gs[i]) ==> i in idx
    decreases |gs|
  {
    if |gs| == 0 then []
    else
      var init := gs[..|gs| - 1];
      var rest := KeptIndices(init);
      assert forall k :: 0 <= k < |rest| ==> gs[rest[k]] == init[rest[k]];
      assert forall i :: 0 <= i < |init| ==> gs[i] == init[i];
      rest + (if HasNumber(gs[|gs| - 1]) then [|gs| - 1] else [])
  }

  /** The k-th kept group is the numbers of the group at the k-th kept
      position. */
  lemma {:induction false} KeptAt(gs: seq<Group>)
    ensures |Kept(gs)| == |KeptIndices(gs)|
    ensures forall k :: 0 <= k < |Kept(gs)| ==> Kept(gs)[k] == Valid(gs[KeptIndices(gs)[k]].scores)
    decreases |gs|
  {
    if |gs| > 0 {
      var init := gs[..|gs| - 1];
      KeptAt(init);
      var idx := KeptIndices(init);
      forall k | 0 <= k < |Kept(gs)|
        ensures Kept(gs)[k] == Valid(gs[KeptIndices(gs)[k]].scores)
      {
        if k < |Kept(init)| {
          assert Kept(gs)[k] == Kept(init)[k];
          assert KeptIndices(gs)[k] == idx[k];
          assert gs[idx[k]] == init[idx[k]];
        }
      }
    }
  }

  /** At least one group is kept exactly when some group has a number. */
  lemma {:induction false} KeptOne(gs: seq<Group>)
    ensures |Kept(gs)| >= 1 <==> exists i :: 0 <= i < |gs| && HasNumber(gs[i])
    decreases |gs|
  {
    if |gs| > 0 {
      var init := gs[..|gs| - 1];
      KeptOne(init);
      if exists i :: 0 <= i < |gs| && HasNumber(gs[i]) {
        var i :| 0 <= i < |gs| && HasNumber(gs[i]);
        if i < |init| {
          assert init[i] == gs[i];
        }
      }
      if |Kept(init)| >= 1 {
        var i :| 0 <= i < |init| && HasNumber(init[i]);
        assert gs[i] == init[i];
      }
    }
  }

  /** At least two groups are kept exactly when two different groups have a
      number. */
  lemma KeptTwo(gs: seq<Group>)
    ensures |Kept(gs)| >= 2 <==>
      exists i, j :: 0 <= i < j < |gs| && HasNumber(gs[i]) && HasNumber(gs[j])
  {
    if exists i, j :: 0 <= i < j < |gs| && HasNumber(gs[i]) && HasNumber(gs[j]) {
      var i, j :| 0 <= i < j < |gs| && HasNumber(gs[i]) && HasNumber(gs[j]);
      KeptTwoFrom(gs, i, j);
    }
    if |Kept(gs)| >= 2 {
      KeptTwoWitness(gs);
    }
  }

  lemma {:induction false} KeptTwoFrom(gs: seq<Group>, i: nat, j: nat)
    requires i < j < |gs| && HasNumber(gs[i]) && HasNumber(gs[j])
    ensures |Kept(gs)| >= 2
    decreases |gs|
  {
    var init := gs[..|gs| - 1];
    assert init[i] == gs[i];
    if j < |gs| - 1 {
      assert init[j] == gs[j];
      KeptTwoFrom(init, i, j);
    } else {
      KeptOne(init);
    }
  }

  lemma {:induction false} KeptTwoWitness(gs: seq<Group>)
    requires |Kept(gs)| >= 2
    ensures exists i, j :: 0 <= i < j < |gs| && HasNumber(gs[i]) && HasNumber(gs[j])
    decreases |gs|
  {
    var init := gs[..|gs| - 1];
    if |Kept(init)| >= 2 {
      KeptTwoWitness(init);
      var i, j :| 0 <= i < j < |init| && HasNumber(init[i]) && HasNumber(init[j]);
      assert gs[i] == init[i] && gs[j] == init[j];
    } else {
      KeptOne(init);
      var i :| 0 <= i < |init| && HasNumber(init[i]);
      assert gs[i] == init[i];
      assert HasNumber(gs[|gs| - 1]);
    }
  }

  /** The `(group, score)` pairs of one group, in order. */
  function Tag(g: Group): (r: seq<(string, Num)>)
    ensures |r| == |g.scores|
  {
    seq(|g.scores|, j requires 0 <= j < |g.scores| => (g.name, g.scores[j]))
  }

  /** `all_data` and `group_labels` built in lockstep over the dict. */
  function Labelled(gs: seq<Group>): seq<(string, Num)>
    decreases |gs|
  {
    if |gs| == 0 then [] else Labelled(gs[..|gs| - 1]) + Tag(gs[|gs| - 1])
  }

  /** `all_data[~np.isnan(all_data)]` together with the labels at the same
      positions. */
  function ValidPairs(ps: seq<(string, Num)>): (r: seq<(string, real)>)
    ensures |r| <= |ps|
    decreases |ps|
  {
    if |ps| == 0 then []
    else
      var p := ps[|ps| - 1];
      ValidPairs(ps[..|ps| - 1]) + (if p.1.Val? then [(p.0, p.1.v)] else [])
  }

  /** The numbers of a group, each labelled with the group's name. */
  function TagValues(name: string, vs: seq<real>): (r: seq<(string, real)>)
    ensures |r| == |vs|
  {
    seq(|vs|, j requires 0 <= j < |vs| => (name, vs[j]))
  }

  /** The Tukey input built group by group: each group's numbers labelled
      with its name, in dict order. */
  function ValidByGroup(gs: seq<Group>): seq<(string, real)>
    decreases |gs|
  {
    if |gs| == 0 then []
    else
      var g := gs[|gs| - 1];
      ValidByGroup(gs[..|gs| - 1]) + TagValues(g.name, Valid(g.scores))
  }

  lemma {:induction false} ValidPairsAppend(a: seq<(string, Num)>, b: seq<(string, Num)>)
    ensures ValidPairs(a + b) == ValidPairs(a) + ValidPairs(b)
    decreases |b|
  {
    if |b| > 0 {
      assert (a + b)[..|a + b| - 1] == a + b[..|b| - 1];
      ValidPairsAppend(a, b[..|b| - 1]);
    } else {
      assert a + b == a;
    }
  }

  /** Filtering one group's pairs keeps its numbers with its label. */
  lemma {:induction false} TagValid(name: string, xs: seq<Num>)
    ensures ValidPairs(Tag(Group(name, xs))) == TagValues(name, Valid(xs))
    decreases |xs|
  {
    if |xs| > 0 {
      var init := xs[..|xs| - 1];
      TagValid(name, init);
      assert Tag(Group(name, xs))[..|xs| - 1] == Tag(Group(name, init));
      var vs := Valid(init);
      match xs[|xs| - 1]
      case NaN =>
      case Val(v) =>
        assert TagValues(name, vs + [v]) == TagValues(name, vs) + [(name, v)];
    }
  }

  /** Filtering the flattened data by position gives, for every group in
      order, exactly that group's numbers under its own label: the labels
      stay aligned with the values. */
  lemma {:induction false} TukeyInputByGroup(gs: seq<Group>)
    ensures ValidPairs(Labelled(gs)) == ValidByGroup(gs)
    decreases |gs|
  {
    if |gs| > 0 {
      var g := gs[|gs| - 1];
      TukeyInputByGroup(gs[..|gs| - 1]);
      ValidPairsAppend(Labelled(gs[..|gs| - 1]), Tag(g));
      TagValid(g.name, g.scores);
    }
  }

  /** The number of values over all groups (`n_total`). */
  function Total(groups: seq<seq<real>>): (n: nat)
    ensures (forall i :: 0 <= i < |groups| ==> |groups[i]| > 0) ==> n >= |groups|
    decreases |groups|
  {
    if |groups| == 0 then 0
    else
      var init := groups[..|groups| - 1];
      assert forall i :: 0 <= i < |init| ==> init[i] == groups[i];
      Total(init) + |groups[|groups| - 1]|
  }

  /** The within-group sum of squares the loop accumulates into `mse`. */
  function WithinSS(groups: seq<seq<real>>): (r: real)
    requires forall i :: 0 <= i < |groups| ==> |groups[i]| > 0
    ensures r >= 0.0
    decreases |groups|
  {
    if |groups| == 0 then 0.0
    else
      var g := groups[|groups| - 1];
      WithinSS(groups[..|groups| - 1]) + SumSqDev(g, Mean(g))
  }

  /** The same sum written as the pooled population variances. */
  function PooledSS(groups: seq<seq<real>>): real
    requires forall i :: 0 <= i < |groups| ==> |groups[i]| > 0
    decreases |groups|
  {
    if |groups| == 0 then 0.0
    else
      var g := groups[|groups| - 1];
      PooledSS(groups[..|groups| - 1]) + (|g| as real) * PopVar(g)
  }

  lemma {:induction false} WithinPooled(groups: seq<seq<real>>)
    requires forall i :: 0 <= i < |groups| ==> |groups[i]| > 0
    ensures WithinSS(groups) == PooledSS(groups)
    decreases |groups|
  {
    if |groups| > 0 {
      var init := groups[..|groups| - 1];
      var g := groups[|groups| - 1];
      assert forall i :: 0 <= i < |init| ==> init[i] == groups[i];
      WithinPooled(init);
      PooledStep(groups);
      AddEqual(WithinSS(init), PooledSS(init), SumSqDev(g, Mean(g)), (|g| as real) * PopVar(g));
    }
  }

  lemma PooledStep(groups: seq<seq<real>>)
    requires |groups| > 0 && forall i :: 0 <= i < |groups| ==> |groups[i]| > 0
    ensures var g := groups[|groups| - 1];
      && WithinSS(groups) == WithinSS(groups[..|groups| - 1]) + SumSqDev(g, Mean(g))
      && PooledSS(groups) == PooledSS(groups[..|groups| - 1]) + (|g| as real) * PopVar(g)
  {
  }

  lemma AddEqual(a: real, b: real, c: real, d: real)
    requires a == b && c == d
    ensures a + c == b + d
  {
  }

  /** All values of a group are equal. */
  predicate Constant(g: seq<real>) {
    forall j :: 0 <= j < |g| ==> g[j] == g[0]
  }

  /** A group has no deviation from its mean exactly when it is constant. */
  lemma GroupSSZero(g: seq<real>)
    requires |g| > 0
    ensures SumSqDev(g, Mean(g)) == 0.0 <==> Constant(g)
  {
    PopVarZero(g);
  }

  /** The within-group sum is zero exactly when every group is constant. */
  lemma {:induction false} WithinZero(groups: seq<seq<real>>)
    requires forall i :: 0 <= i < |groups| ==> |groups[i]| > 0
    ensures WithinSS(groups) == 0.0 <==> forall i :: 0 <= i < |groups| ==> Constant(groups[i])
    decreases |groups|
  {
    if |groups| > 0 {
      var init := groups[..|groups| - 1];
      var g := groups[|groups| - 1];
      assert forall i :: 0 <= i < |init| ==> init[i] == groups[i];
      WithinZero(init);
      GroupSSZero(g);
    }
  }

  /** `mse / (n_total - len(groups))`; with one value per group numpy
      divides 0.0 by 0 and gives NaN. */
  function Mse(groups: seq<seq<real>>): (r: Num)
    requires forall i :: 0 <= i < |groups| ==> |groups[i]| > 0
    ensures r.Val? ==> r.v >= 0.0
  {
    var n := Total(groups);
    if n == |groups| then NaN else Val(WithinSS(groups) / ((n - |groups|) as real))
  }

  /** A quotient by a positive number scales back to its dividend and is
      zero only for a zero dividend. */
  lemma DivTimes(w: real, d: real, m: real)
    requires d > 0.0 && m == w / d
    ensures m * d == w
    ensures m == 0.0 <==> w == 0.0
  {
  }

  /** The MSE is a number exactly when some group has two values; then it
      times the degrees of freedom is the pooled sum of the groups' population
      variances, and it is zero exactly when every group is constant. */
  lemma MseSpec(groups: seq<seq<real>>)
    requires forall i :: 0 <= i < |groups| ==> |groups[i]| > 0
    ensures Mse(groups).Val? <==> Total(groups) > |groups|
    ensures Mse(groups).Val? ==> Mse(groups).v * ((Total(groups) - |groups|) as real) == PooledSS(groups)
    ensures Mse(groups).Val? ==> (Mse(groups).v == 0.0 <==> forall i :: 0 <= i < |groups| ==> Constant(groups[i]))
  {
    if Total(groups) > |groups| {
      MseValue(groups);
      WithinPooled(groups);
      WithinZero(groups);
    }
  }

  lemma MseValue(groups: seq<seq<real>>)
    requires forall i :: 0 <= i < |groups| ==> |groups[i]| > 0
    requires Total(groups) > |groups|
    ensures Mse(groups).Val?
    ensures Mse(groups).v * ((Total(groups) - |groups|) as real) == WithinSS(groups)
    ensures Mse(groups).v == 0.0 <==> WithinSS(groups) == 0.0
  {
    var w := WithinSS(groups);
    var d := (Total(groups) - |groups|) as real;
    DivTimes(w, d, Mse(groups).v);
  }

  /** What the original comparison stores for one category. `tukey` is the
      labelled data handed to Tukey's HSD, `None` for the script's `None`;
      `spreads` hold population variances. */
  datatype Analysis = Analysis(f: Num, p: Num, tukey: Option<seq<(string, real)>>,
                               means: seq<Num>, spreads: seq<Num>, mse: Num)

  /** `analyze_all_categories` of the original comparison for one category;
      `anova` stands for `f_oneway`. */
  function Analyze(gs: seq<Group>, anova: seq<seq<real>> -> (Num, Num)): (r: Analysis)
    ensures |r.means| == |gs| && |r.spreads| == |gs|
    ensures forall i :: 0 <= i < |gs| ==>
      (r.means[i].NaN? <==> !HasNumber(gs[i])) && (r.spreads[i].NaN? <==> !HasNumber(gs[i]))
    ensures forall i :: 0 <= i < |gs| && r.spreads[i].Val? ==> r.spreads[i].v >= 0.0
    ensures forall i :: 0 <= i < |gs| && r.means[i].Val? ==> IsMean(Valid(gs[i].scores), r.means[i].v)
    ensures forall i :: 0 <= i < |gs| && r.spreads[i].Val? ==> IsPopVar(Valid(gs[i].scores), r.spreads[i].v)
    ensures r.tukey.None? ==> r.f.NaN? && r.p.NaN? && r.mse.NaN?
    ensures r.tukey.Some? ==> (r.f, r.p) == anova(Kept(gs)) && r.mse == Mse(Kept(gs))
  {
    var means := seq(|gs|, i requires 0 <= i < |gs| => MeanOrNaN(Valid(gs[i].scores)));
    var spreads := seq(|gs|, i requires 0 <= i < |gs| => PopVarOrNaN(Valid(gs[i].scores)));
    var kept := Kept(gs);
    if |kept| >= 2 then
      var (f, p) := anova(kept);
      Analysis(f, p, Some(ValidPairs(Labelled(gs))), means, spreads, Mse(kept))
    else
      Analysis(NaN, NaN, None, means, spreads, NaN)
  }

  /** The tests run exactly when two different groups have a number, and
      then Tukey's HSD sees every group's numbers under its own label. */
  lemma AnalyzeGate(gs: seq<Group>, anova: seq<seq<real>> -> (Num, Num))
    ensures Analyze(gs, anova).tukey.Some? <==>
      exists i, j :: 0 <= i < j < |gs| && HasNumber(gs[i]) && HasNumber(gs[j])
    ensures Analyze(gs, anova).tukey.Some? ==> Analyze(gs, anova).tukey.value == ValidByGroup(gs)
  {
    KeptTwo(gs);
    TukeyInputByGroup(gs);
  }

  /** The stored MSE: a number exactly when the tests run and some kept
      group has two numbers; then the pooled within-group variance. */
  lemma AnalyzeMse(gs: seq<Group>, anova: seq<seq<real>> -> (Num, Num))
    ensures Analyze(gs, anova).mse.Val? <==> |Kept(gs)| >= 2 && Total(Kept(gs)) > |Kept(gs)|
    ensures Analyze(gs, anova).mse.Val? ==>
      (Analyze(gs, anova).mse.v == 0.0 <==> forall i :: 0 <= i < |Kept(gs)| ==> Constant(Kept(gs)[i]))
  {
    var kept := Kept(gs);
    var m := Analyze(gs, anova).mse;
    if |kept| >= 2 {
      assert m == Mse(kept);
      MseSpec(kept);
    } else {
      assert m == NaN;
    }
  }

  /** A group's reported mean lies within the range of its numbers. */
  lemma AnalyzeMeanInRange(gs: seq<Group>, anova: seq<seq<real>> -> (Num, Num), i: nat, lo: real, hi: real)
    requires i < |gs| && HasNumber(gs[i])
    requires forall j :: 0 <= j < |Valid(gs[i].scores)| ==> lo <= Valid(gs[i].scores)[j] <= hi
    ensures lo <= Analyze(gs, anova).means[i].v <= hi
  {
    MeanBounds(Valid(gs[i].scores), lo, hi);
  }

  /** What the survey comparison stores for one category: no filtering, so
      the Tukey input may hold NaN. */
  datatype SurveyAnalysis = SurveyAnalysis(f: Num, p: Num, tukey: seq<(string, Num)>,
                                           means: seq<Num>, spreads: seq<Num>)

  /** `[scores for scores in data.values()]`: every group's raw scores. */
  function Scores(gs: seq<Group>): (r: seq<seq<Num>>)
    ensures |r| == |gs|
    ensures forall i :: 0 <= i < |gs| ==> r[i] == gs[i].scores
  {
    seq(|gs|, i requires 0 <= i < |gs| => gs[i].scores)
  }

  /** `analyze_all_categories` of the survey comparison for one category. */
  function SurveyAnalyze(gs: seq<Group>, anova: seq<seq<Num>> -> (Num, Num)): (r: SurveyAnalysis)
    ensures |r.means| == |gs| && |r.spreads| == |gs|
    ensures forall i :: 0 <= i < |gs| ==> r.means[i].Val? == r.spreads[i].Val?
    ensures forall i :: 0 <= i < |gs| && r.means[i].Val? ==> IsMean(Valid(gs[i].scores), r.means[i].v)
    ensures forall i :: 0 <= i < |gs| && r.spreads[i].Val? ==> IsPopVar(Valid(gs[i].scores), r.spreads[i].v)
    ensures (r.f, r.p) == anova(Scores(gs))
  {
    var (f, p) := anova(Scores(gs));
    SurveyAnalysis(f, p, Labelled(gs),
      seq(|gs|, i requires 0 <= i < |gs| => MeanPropagating(gs[i].scores)),
      seq(|gs|, i requires 0 <= i < |gs| => PopVarPropagating(gs[i].scores)))
  }

  function Size(gs: seq<Group>): nat
    decreases |gs|
  {
    if |gs| == 0 then 0 else Size(gs[..|gs| - 1]) + |gs[|gs| - 1].scores|
  }

  lemma {:induction false} LabelledSize(gs: seq<Group>)
    ensures |Labelled(gs)| == Size(gs)
    decreases |gs|
  {
    if |gs| > 0 {
      LabelledSize(gs[..|gs| - 1]);
    }
  }

  /** The j-th score of group i sits in the flattened data after all the
      scores of the groups before it, labelled with its group's name. */
  lemma {:induction false} LabelledAt(gs: seq<Group>, i: nat, j: nat)
    requires i < |gs| && j < |gs[i].scores|
    ensures Size(gs[..i]) + j < |Labelled(gs)|
    ensures Labelled(gs)[Size(gs[..i]) + j] == (gs[i].name, gs[i].scores[j])
    decreases |gs|
  {
    var init := gs[..|gs| - 1];
    LabelledSize(init);
    LabelledSize(gs);
    if i == |gs| - 1 {
      assert gs[..i] == init;
      assert Labelled(gs)[Size(init) + j] == Tag(gs[i])[j];
    } else {
      assert gs[..i] == init[..i];
      assert init[i] == gs[i];
      LabelledAt(init, i, j);
    }
  }

  /** The survey comparison keeps every value for Tukey, and a group's mean
      is a number exactly when the group is non-empty and has no NaN. */
  lemma SurveyAnalyzeUnfiltered(gs: seq<Group>, anova: seq<seq<Num>> -> (Num, Num), i: nat)
    requires i < |gs|
    ensures |SurveyAnalyze(gs, anova).tukey| == Size(gs)
    ensures SurveyAnalyze(gs, anova).means[i].Val? <==>
      |gs[i].scores| > 0 && forall j :: 0 <= j < |gs[i].scores| ==> gs[i].scores[j].Val?
  {
    LabelledSize(gs);
    ValidKeepsAll(gs[i].scores);
  }

  /** In the survey comparison's Tukey input, the j-th score of group i,
      NaN or not, follows the scores of the groups before it under its own
      group's label. */
  lemma SurveyTukeyAt(gs: seq<Group>, anova: seq<seq<Num>> -> (Num, Num), i: nat, j: nat)
    requires i < |gs| && j < |gs[i].scores|
    ensures Size(gs[..i]) + j < |SurveyAnalyze(gs, anova).tukey|
    ensures SurveyAnalyze(gs, anova).tukey[Size(gs[..i]) + j] == (gs[i].name, gs[i].scores[j])
  {
    assert SurveyAnalyze(gs, anova).tukey == Labelled(gs);
    LabelledAt(gs, i, j);
  }

  /** Dropping the NaN pairs from the survey comparison's Tukey input gives
      the original comparison's Tukey input whenever the original runs the
      tests. */
  lemma SurveyTukeyFiltered(gs: seq<Group>, anova: seq<seq<Num>> -> (Num, Num),
                            anova2: seq<seq<real>> -> (Num, Num))
    ensures ValidPairs(SurveyAnalyze(gs, anova).tukey) == ValidByGroup(gs)
    ensures Analyze(gs, anova2).tukey.Some? ==>
      ValidPairs(SurveyAnalyze(gs, anova).tukey) == Analyze(gs, anova2).tukey.value
  {
    TukeyInputByGroup(gs);
  }
}
