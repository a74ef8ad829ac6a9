/** How the two comparison scripts gather scores per category: an
    insertion-ordered dict from group name to scores, filled with the human
    groups first and then one group per model. */
module Grouping {
  import opened Wrappers
  import opened Stats
  import opened Categories

  /** A Python dict from group name to scores: its keys in insertion order
      and its contents. */
  datatype Dict = Dict(keys: seq<string>, values: map<string, seq<Num>>)

  const Students := "Students"
  const NonStudents := "Non-Students"
  const Human := "Human"

  predicate Distinct(ns: seq<string>) {
    forall i, j :: 0 <= i < j < |ns| ==> ns[i] != ns[j]
  }

  /** The keys are listed once each, and exactly the keys have values. */
  ghost predicate WellFormed(d: Dict) {
    Distinct(d.keys) && forall n :: n in d.values <==> n in d.keys
  }

  /** `d[name] = scores`: a present key keeps its place, a new one goes last. */
  function Put(d: Dict, name: string, scores: seq<Num>): (r: Dict)
    ensures WellFormed(d) ==> WellFormed(r)
    ensures name in r.values && r.values[name] == scores
    ensures forall n :: n != name ==> (n in r.values <==> n in d.values)
  {
    Dict(if name in d.values then d.keys else d.keys + [name], d.values[name := scores])
  }

  /** `d[name].extend(more)` on a key that is present. */
  function Extend(d: Dict, name: string, more: seq<Num>): (r: Dict)
    requires name in d.values
    ensures r.keys == d.keys && r.values.Keys == d.values.Keys
    ensures r.values[name] == d.values[name] + more
  {
    Dict(d.keys, d.values[name := d.values[name] + more])
  }

  /** `category_data[model_name] = []` for every model, in order. */
  function PutEmptyAll(d: Dict, ns: seq<string>): (r: Dict)
    decreases |ns|
  {
    if |ns| == 0 then d else Put(PutEmptyAll(d, ns[..|ns| - 1]), ns[|ns| - 1], [])
  }

  /** Every earlier key and every given name is present afterwards. */
  lemma {:induction false} PutEmptyAllPresent(d: Dict, ns: seq<string>)
    ensures forall n :: n in d.values ==> n in PutEmptyAll(d, ns).values
    ensures forall k :: 0 <= k < |ns| ==> ns[k] in PutEmptyAll(d, ns).values
    decreases |ns|
  {
    if |ns| > 0 {
      var init := ns[..|ns| - 1];
      PutEmptyAllPresent(d, init);
      forall k | 0 <= k < |ns| - 1 ensures ns[k] in PutEmptyAll(d, ns).values {
        assert ns[k] == init[k];
      }
    }
  }

  /** The last of distinct names is not among the others. */
  lemma LastNotInInit(ns: seq<string>)
    requires |ns| > 0 && Distinct(ns)
    ensures ns[|ns| - 1] !in ns[..|ns| - 1]
  {
  }

  /** Only the given names are added. */
  lemma {:induction false} PutEmptyAllOnly(d: Dict, ns: seq<string>, n: string)
    requires n in PutEmptyAll(d, ns).values && n !in d.values
    ensures n in ns
    decreases |ns|
  {
    if |ns| > 0 && n != ns[|ns| - 1] {
      PutEmptyAllOnly(d, ns[..|ns| - 1], n);
      assert ns == ns[..|ns| - 1] + [ns[|ns| - 1]];
    }
  }

  /** Adding the empty lists keeps the dict well formed. */
  lemma {:induction false} PutEmptyAllWellFormed(d: Dict, ns: seq<string>)
    requires WellFormed(d)
    ensures WellFormed(PutEmptyAll(d, ns))
    decreases |ns|
  {
    if |ns| > 0 {
      PutEmptyAllWellFormed(d, ns[..|ns| - 1]);
    }
  }

  /** Fresh, distinct names are appended in order. */
  lemma {:induction false} PutEmptyAllKeys(d: Dict, ns: seq<string>)
    requires Distinct(ns)
    requires forall k :: 0 <= k < |ns| ==> ns[k] !in d.values
    ensures PutEmptyAll(d, ns).keys == d.keys + ns
    decreases |ns|
  {
    if |ns| > 0 {
      var init := ns[..|ns| - 1];
      var last := ns[|ns| - 1];
      assert forall k :: 0 <= k < |init| ==> init[k] == ns[k];
      PutEmptyAllKeys(d, init);
      LastNotInInit(ns);
      var prev := PutEmptyAll(d, init);
      if last in prev.values {
        PutEmptyAllOnly(d, init, last);
      }
      assert PutEmptyAll(d, ns) == Put(prev, last, []);
      assert d.keys + ns == (d.keys + init) + [last];
    }
  }

  /** Each fresh name holds an empty list and every other key keeps its
      value. */
  lemma {:induction false} PutEmptyAllSpec(d: Dict, ns: seq<string>)
    requires Distinct(ns)
    requires forall k :: 0 <= k < |ns| ==> ns[k] !in d.values
    ensures forall k :: 0 <= k < |ns| ==> ns[k] in PutEmptyAll(d, ns).values && PutEmptyAll(d, ns).values[ns[k]] == []
    ensures forall n :: n in d.values ==> n in PutEmptyAll(d, ns).values && PutEmptyAll(d, ns).values[n] == d.values[n]
    decreases |ns|
  {
    if |ns| > 0 {
      var init := ns[..|ns| - 1];
      var last := ns[|ns| - 1];
      assert forall k :: 0 <= k < |init| ==> init[k] == ns[k];
      PutEmptyAllSpec(d, init);
      PutEmptyAllPresent(d, init);
      LastNotInInit(ns);
      forall k | 0 <= k < |init| ensures PutEmptyAll(d, ns).values[ns[k]] == [] {
        assert ns[k] == init[k] != last;
      }
    }
  }

  /** The human rows of the original survey file: one `(students,
      non-students)` pair per question. */
  datatype HumanRow = HumanRow(students: Num, nonStudents: Num)

  datatype HumanData = HumanData(students: seq<Num>, nonStudents: seq<Num>)

  /** `load_human_data`: the two columns read row by row in lockstep. */
  function LoadHumanData(rows: seq<HumanRow>): (h: HumanData)
    ensures |h.students| == |h.nonStudents| == |rows|
    ensures forall k :: 0 <= k < |rows| ==>
      h.students[k] == rows[k].students && h.nonStudents[k] == rows[k].nonStudents
    decreases |rows|
  {
    if |rows| == 0 then HumanData([], [])
    else
      var h := LoadHumanData(rows[..|rows| - 1]);
      var row := rows[|rows| - 1];
      HumanData(h.students + [row.students], h.nonStudents + [row.nonStudents])
  }

  /** The human values of the questions `qs`, in order: `xs[q - 1]` for each
      question whose index is below `n`, nothing for the others. */
  function HumanPick(xs: seq<Num>, qs: seq<QuestionId>, n: nat): (r: seq<Num>)
    requires n <= |xs|
    ensures |r| <= |qs|
    decreases |qs|
  {
    if |qs| == 0 then []
    else
      var q := qs[|qs| - 1];
      HumanPick(xs, qs[..|qs| - 1], n) + (if q - 1 < n then [xs[q - 1]] else [])
  }

  /** Every question contributes exactly when every index is in range, and
      then the k-th value is that of question `qs[k]`. */
  lemma {:induction false} HumanPickAll(xs: seq<Num>, qs: seq<QuestionId>, n: nat)
    requires n <= |xs|
    ensures |HumanPick(xs, qs, n)| == |qs| <==> forall k :: 0 <= k < |qs| ==> qs[k] <= n
    ensures (forall k :: 0 <= k < |qs| ==> qs[k] <= n) ==>
      forall k :: 0 <= k < |qs| ==> HumanPick(xs, qs, n)[k] == xs[qs[k] - 1]
    decreases |qs|
  {
    if |qs| > 0 {
      var init := qs[..|qs| - 1];
      HumanPickAll(xs, init, n);
      assert forall k :: 0 <= k < |init| ==> init[k] == qs[k];
    }
  }

  /** The loop over a category's questions adding the human values to the
      two human groups; questions past the end of the data add nothing. */
  function AddHuman(d: Dict, h: HumanData, qs: seq<QuestionId>): (r: Dict)
    requires Students in d.values && NonStudents in d.values
    requires |h.students| == |h.nonStudents|
    ensures r.keys == d.keys && r.values.Keys == d.values.Keys
    decreases |qs|
  {
    if |qs| == 0 then d
    else
      var g := AddHuman(d, h, qs[..|qs| - 1]);
      var q := qs[|qs| - 1];
      if q - 1 < |h.students| then
        Extend(Extend(g, Students, [h.students[q - 1]]), NonStudents, [h.nonStudents[q - 1]])
      else g
  }

  /** The two human groups grow by the picked values; no other key changes. */
  lemma {:induction false} AddHumanSpec(d: Dict, h: HumanData, qs: seq<QuestionId>)
    requires Students in d.values && NonStudents in d.values
    requires |h.students| == |h.nonStudents|
    ensures AddHuman(d, h, qs).values[Students] == d.values[Students] + HumanPick(h.students, qs, |h.students|)
    ensures AddHuman(d, h, qs).values[NonStudents] == d.values[NonStudents] + HumanPick(h.nonStudents, qs, |h.students|)
    ensures forall n :: n in d.values && n != Students && n != NonStudents ==>
      AddHuman(d, h, qs).values[n] == d.values[n]
    decreases |qs|
  {
    if |qs| > 0 {
      var init := qs[..|qs| - 1];
      var q := qs[|qs| - 1];
      AddHumanSpec(d, h, init);
      var n := |h.students|;
      var s0, ns0 := d.values[Students], d.values[NonStudents];
      if q - 1 < n {
        assert HumanPick(h.students, qs, n) == HumanPick(h.students, init, n) + [h.students[q - 1]];
        assert HumanPick(h.nonStudents, qs, n) == HumanPick(h.nonStudents, init, n) + [h.nonStudents[q - 1]];
        assert s0 + HumanPick(h.students, init, n) + [h.students[q - 1]] == s0 + HumanPick(h.students, qs, n);
        assert ns0 + HumanPick(h.nonStudents, init, n) + [h.nonStudents[q - 1]] == ns0 + HumanPick(h.nonStudents, qs, n);
      } else {
        assert HumanPick(h.students, qs, n) == HumanPick(h.students, init, n) + [];
        assert HumanPick(h.nonStudents, qs, n) == HumanPick(h.nonStudents, init, n) + [];
      }
    } else {
      assert d.values[Students] + [] == d.values[Students];
      assert d.values[NonStudents] + [] == d.values[NonStudents];
    }
  }

  /** One raw answer row of a model: its question `#` and its `Response`. */
  datatype RawRow = RawRow(num: int, response: Num)

  /** `raw_df.loc[raw_df["#"] == q, "Response"].tolist()`: the responses to
      `q`, in row order. */
  function ResponsesFor(raw: seq<RawRow>, q: int): (r: seq<Num>)
    ensures |r| <= |raw|
    decreases |raw|
  {
    if |raw| == 0 then []
    else
      var row := raw[|raw| - 1];
      ResponsesFor(raw[..|raw| - 1], q) + (if row.num == q then [row.response] else [])
  }

  /** A response is listed exactly when some row answers `q` with it. */
  lemma {:induction false} ResponsesForMembers(raw: seq<RawRow>, q: int, v: Num)
    ensures v in ResponsesFor(raw, q) <==> exists k :: 0 <= k < |raw| && raw[k] == RawRow(q, v)
    decreases |raw|
  {
    if |raw| > 0 {
      var init := raw[..|raw| - 1];
      ResponsesForMembers(init, q, v);
      if exists k :: 0 <= k < |init| && init[k] == RawRow(q, v) {
        var k :| 0 <= k < |init| && init[k] == RawRow(q, v);
        assert raw[k] == init[k];
      }
      if exists k :: 0 <= k < |raw| && raw[k] == RawRow(q, v) {
        var k :| 0 <= k < |raw| && raw[k] == RawRow(q, v);
        if k < |init| {
          assert init[k] == raw[k];
        }
      }
    }
  }

  /** A model's group for a category: the responses of each question of the
      category, concatenated in question order. */
  function ModelGroup(raw: seq<RawRow>, qs: seq<QuestionId>): (r: seq<Num>)
    decreases |qs|
  {
    if |qs| == 0 then [] else ModelGroup(raw, qs[..|qs| - 1]) + ResponsesFor(raw, qs[|qs| - 1])
  }

  /** The number of rows whose question is one of `qs`. */
  function RowsIn(raw: seq<RawRow>, qs: seq<QuestionId>): nat
    decreases |raw|
  {
    if |raw| == 0 then 0
    else RowsIn(raw[..|raw| - 1], qs) + (if raw[|raw| - 1].num in qs then 1 else 0)
  }

  lemma {:induction false} RowsInSnoc(raw: seq<RawRow>, qs: seq<QuestionId>, q: QuestionId)
    requires q !in qs
    ensures RowsIn(raw, qs + [q]) == RowsIn(raw, qs) + |ResponsesFor(raw, q)|
    decreases |raw|
  {
    if |raw| > 0 {
      RowsInSnoc(raw[..|raw| - 1], qs, q);
    }
  }

  /** With distinct questions a model group holds one value for every row
      of the category and nothing else. */
  lemma {:induction false} ModelGroupSize(raw: seq<RawRow>, qs: seq<QuestionId>)
    requires forall i, j :: 0 <= i < j < |qs| ==> qs[i] != qs[j]
    ensures |ModelGroup(raw, qs)| == RowsIn(raw, qs)
    decreases |qs|
  {
    if |qs| == 0 {
      RowsInNone(raw, qs);
    } else {
      var init := qs[..|qs| - 1];
      ModelGroupSize(raw, init);
      assert qs == init + [qs[|qs| - 1]];
      RowsInSnoc(raw, init, qs[|qs| - 1]);
    }
  }

  lemma {:induction false} RowsInNone(raw: seq<RawRow>, qs: seq<QuestionId>)
    requires |qs| == 0
    ensures RowsIn(raw, qs) == 0
    decreases |raw|
  {
    if |raw| > 0 {
      RowsInNone(raw[..|raw| - 1], qs);
    }
  }

  /** The loop over a category's questions extending one model's group. */
  function AddModel(d: Dict, name: string, raw: seq<RawRow>, qs: seq<QuestionId>): (r: Dict)
    requires name in d.values
    ensures r.keys == d.keys && r.values.Keys == d.values.Keys
    decreases |qs|
  {
    if |qs| == 0 then d
    else Extend(AddModel(d, name, raw, qs[..|qs| - 1]), name, ResponsesFor(raw, qs[|qs| - 1]))
  }

  /** The model's group grows by its model group; no other key changes. */
  lemma {:induction false} AddModelSpec(d: Dict, name: string, raw: seq<RawRow>, qs: seq<QuestionId>)
    requires name in d.values
    ensures AddModel(d, name, raw, qs).values[name] == d.values[name] + ModelGroup(raw, qs)
    ensures forall n :: n in d.values && n != name ==> AddModel(d, name, raw, qs).values[n] == d.values[n]
    decreases |qs|
  {
    if |qs| > 0 {
      var init := qs[..|qs| - 1];
      AddModelSpec(d, name, raw, init);
      assert d.values[name] + ModelGroup(raw, init) + ResponsesFor(raw, qs[|qs| - 1]) ==
        d.values[name] + ModelGroup(raw, qs);
    } else {
      assert d.values[name] + [] == d.values[name];
    }
  }

  /** A model as the scripts load it: its name and its raw answers. */
  type Model = (string, seq<RawRow>)

  function ModelNames(models: seq<Model>): (ns: seq<string>)
    ensures |ns| == |models|
  {
    seq(|models|, k requires 0 <= k < |models| => models[k].0)
  }

  /** The loop over the models, each extending its own group. */
  function AddModels(d: Dict, models: seq<Model>, qs: seq<QuestionId>): (r: Dict)
    requires forall k :: 0 <= k < |models| ==> models[k].0 in d.values
    ensures r.keys == d.keys && r.values.Keys == d.values.Keys
    decreases |models|
  {
    if |models| == 0 then d
    else
      var m := models[|models| - 1];
      AddModel(AddModels(d, models[..|models| - 1], qs), m.0, m.1, qs)
  }

  /** The keys of no model are untouched. */
  lemma {:induction false} AddModelsOther(d: Dict, models: seq<Model>, qs: seq<QuestionId>, other: string)
    requires forall k :: 0 <= k < |models| ==> models[k].0 in d.values
    requires other in d.values && other !in ModelNames(models)
    ensures AddModels(d, models, qs).values[other] == d.values[other]
    decreases |models|
  {
    if |models| > 0 {
      var init := models[..|models| - 1];
      var m := models[|models| - 1];
      assert ModelNames(models) == ModelNames(init) + [m.0];
      assert forall k :: 0 <= k < |init| ==> init[k] == models[k];
      AddModelsOther(d, init, qs, other);
      AddModelSpec(AddModels(d, init, qs), m.0, m.1, qs);
    }
  }

  /** With distinct model names, each model's group grows by its model group. */
  lemma {:induction false} AddModelsOwn(d: Dict, models: seq<Model>, qs: seq<QuestionId>, k: nat)
    requires forall k :: 0 <= k < |models| ==> models[k].0 in d.values
    requires Distinct(ModelNames(models))
    requires k < |models|
    ensures AddModels(d, models, qs).values[models[k].0] == d.values[models[k].0] + ModelGroup(models[k].1, qs)
    decreases |models|
  {
    var init := models[..|models| - 1];
    var m := models[|models| - 1];
    var ns := ModelNames(init);
    assert ModelNames(models) == ns + [m.0];
    assert forall i :: 0 <= i < |init| ==> init[i] == models[i];
    if k == |models| - 1 {
      forall i | 0 <= i < |ns| ensures ns[i] != m.0 {
        assert ModelNames(models)[i] == ns[i] && ModelNames(models)[|models| - 1] == m.0;
      }
      AddModelsOther(d, init, qs, m.0);
    } else {
      assert ModelNames(models)[k] == models[k].0 != ModelNames(models)[|models| - 1];
      forall i, j | 0 <= i < j < |ns| ensures ns[i] != ns[j] {
        assert ModelNames(models)[i] == ns[i] && ModelNames(models)[j] == ns[j];
      }
      AddModelsOwn(d, init, qs, k);
    }
    AddModelSpec(AddModels(d, init, qs), m.0, m.1, qs);
  }

  /** Model names that the category dict can hold side by side with the
      given human groups. */
  predicate FreshModels(models: seq<Model>, reserved: seq<string>) {
    Distinct(ModelNames(models)) &&
    forall k :: 0 <= k < |models| ==> models[k].0 !in reserved
  }

  /** `process_data_for_analysis` of the original comparison for one
      category with questions `qs`. */
  function OgCategoryData(h: HumanData, models: seq<Model>, qs: seq<QuestionId>): (r: Dict)
    requires |h.students| == |h.nonStudents|
  {
    var d0 := Dict([Students, NonStudents], map[Students := [], NonStudents := []]);
    var d1 := PutEmptyAll(d0, ModelNames(models));
    PutEmptyAllPresent(d0, ModelNames(models));
    var d2 := AddHuman(d1, h, qs);
    assert forall k :: 0 <= k < |models| ==> models[k].0 == ModelNames(models)[k];
    AddModels(d2, models, qs)
  }

  /** Every category gets the two human groups and one group per model, in
      that order, even when a group stays empty; each human group holds the
      picked human values and each model group its responses. */
  lemma OgCategoryDataSpec(h: HumanData, models: seq<Model>, qs: seq<QuestionId>)
    requires |h.students| == |h.nonStudents|
    requires FreshModels(models, [Students, NonStudents])
    ensures WellFormed(OgCategoryData(h, models, qs))
    ensures OgCategoryData(h, models, qs).keys == [Students, NonStudents] + ModelNames(models)
    ensures OgCategoryData(h, models, qs).values[Students] == HumanPick(h.students, qs, |h.students|)
    ensures OgCategoryData(h, models, qs).values[NonStudents] == HumanPick(h.nonStudents, qs, |h.students|)
    ensures forall k :: 0 <= k < |models| ==>
      (models[k].0 in OgCategoryData(h, models, qs).values &&
       OgCategoryData(h, models, qs).values[models[k].0] == ModelGroup(models[k].1, qs))
  {
    var ns := ModelNames(models);
    var d0 := Dict([Students, NonStudents], map[Students := [], NonStudents := []]);
    assert forall k :: 0 <= k < |models| ==> models[k].0 == ns[k];
    assert WellFormed(d0);
    PutEmptyAllWellFormed(d0, ns);
    PutEmptyAllKeys(d0, ns);
    PutEmptyAllSpec(d0, ns);
    var d1 := PutEmptyAll(d0, ns);
    var d2 := AddHuman(d1, h, qs);
    AddHumanSpec(d1, h, qs);
    AddModelsOther(d2, models, qs, Students);
    AddModelsOther(d2, models, qs, NonStudents);
    forall k | 0 <= k < |models|
      ensures OgCategoryData(h, models, qs).values[models[k].0] == ModelGroup(models[k].1, qs)
    {
      AddModelsOwn(d2, models, qs, k);
    }
  }

  /** `process_data_for_analysis` of the original comparison: one dict per
      category of the table, in table order. */
  function OgProcess(h: HumanData, models: seq<Model>, table: seq<Category>): (r: seq<(string, Dict)>)
    requires |h.students| == |h.nonStudents|
    ensures |r| == |table|
  {
    seq(|table|, c requires 0 <= c < |table| => (table[c].name, OgCategoryData(h, models, table[c].questions)))
  }

  /** For the original table with fresh model names, every category lists
      the same groups, and with at least 31 human rows the human groups
      hold one value per question of the category. */
  lemma OgProcessGroups(rows: seq<HumanRow>, models: seq<Model>, c: nat)
    requires FreshModels(models, [Students, NonStudents])
    requires c < |OriginalCategories|
    ensures var r := OgProcess(LoadHumanData(rows), models, OriginalCategories);
      r[c].1.keys == [Students, NonStudents] + ModelNames(models)
    ensures |rows| >= 31 ==>
      var r := OgProcess(LoadHumanData(rows), models, OriginalCategories);
      |r[c].1.values[Students]| == |OriginalCategories[c].questions|
  {
    var h := LoadHumanData(rows);
    var qs := OriginalCategories[c].questions;
    OgCategoryDataSpec(h, models, qs);
    if |rows| >= 31 {
      OriginalCategoriesShape();
      forall k | 0 <= k < |qs| ensures qs[k] <= |h.students| {
        OriginalMember(c, qs[k]);
      }
      HumanPickAll(h.students, qs, |h.students|);
    }
  }

  /** The survey's answer columns after loading: `columns[i]` holds the
      values of the column at position `i`. */
  type Columns = seq<seq<Num>>

  /** The loop over a category's questions adding the non-missing values of
      column `q - 1` to the Human group; `None` where the position is past
      the last column (IndexError). */
  function AddColumns(d: Dict, columns: Columns, qs: seq<QuestionId>): (r: Option<Dict>)
    requires Human in d.values
    ensures r.Some? <==> forall k :: 0 <= k < |qs| ==> qs[k] <= |columns|
    ensures r.Some? ==> r.value.keys == d.keys && r.value.values.Keys == d.values.Keys
    decreases |qs|
  {
    if |qs| == 0 then Some(d)
    else
      var q := qs[|qs| - 1];
      var init := qs[..|qs| - 1];
      assert forall k :: 0 <= k < |init| ==> init[k] == qs[k];
      match AddColumns(d, columns, init)
      case None => None
      case Some(g) => if q - 1 < |columns| then Some(Extend(g, Human, AllVals(Valid(columns[q - 1])))) else None
  }

  /** The Human group of a category: the non-missing values of each of its
      questions' columns, in question order. */
  function ColumnValues(columns: Columns, qs: seq<QuestionId>): (r: seq<Num>)
    requires forall k :: 0 <= k < |qs| ==> qs[k] <= |columns|
    ensures |Valid(r)| == |r|
    decreases |qs|
  {
    if |qs| == 0 then []
    else
      var q := qs[|qs| - 1];
      var init := qs[..|qs| - 1];
      assert forall k :: 0 <= k < |init| ==> init[k] == qs[k];
      var vs := Valid(columns[q - 1]);
      ValidAllVals(vs);
      ValidAppend(ColumnValues(columns, init), AllVals(vs));
      ColumnValues(columns, init) + AllVals(vs)
  }

  /** The Human group grows by the column values; no other key changes. */
  lemma {:induction false} AddColumnsSpec(d: Dict, columns: Columns, qs: seq<QuestionId>)
    requires Human in d.values
    requires forall k :: 0 <= k < |qs| ==> qs[k] <= |columns|
    ensures AddColumns(d, columns, qs).value.values[Human] == d.values[Human] + ColumnValues(columns, qs)
    ensures forall n :: n in d.values && n != Human ==> AddColumns(d, columns, qs).value.values[n] == d.values[n]
    decreases |qs|
  {
    if |qs| > 0 {
      var init := qs[..|qs| - 1];
      var q := qs[|qs| - 1];
      assert forall k :: 0 <= k < |init| ==> init[k] == qs[k];
      AddColumnsSpec(d, columns, init);
      var more := AllVals(Valid(columns[q - 1]));
      assert ColumnValues(columns, qs) == ColumnValues(columns, init) + more;
      assert d.values[Human] + ColumnValues(columns, init) + more == d.values[Human] + ColumnValues(columns, qs);
    } else {
      assert d.values[Human] + [] == d.values[Human];
    }
  }

  /** `process_data_for_analysis` of the survey comparison for one category;
      `None` where a question has no column. */
  function SurveyCategoryData(columns: Columns, models: seq<Model>, qs: seq<QuestionId>): (r: Option<Dict>)
    ensures r.Some? <==> forall k :: 0 <= k < |qs| ==> qs[k] <= |columns|
  {
    var d0 := Dict([Human], map[Human := []]);
    var d1 := PutEmptyAll(d0, ModelNames(models));
    PutEmptyAllPresent(d0, ModelNames(models));
    assert forall k :: 0 <= k < |models| ==> models[k].0 == ModelNames(models)[k];
    match AddColumns(d1, columns, qs)
    case None => None
    case Some(d2) => Some(AddModels(d2, models, qs))
  }

  /** The survey comparison's groups: Human first, then one per model; Human
      holds the column values of the category's questions and each model
      group its responses. */
  lemma SurveyCategoryDataSpec(columns: Columns, models: seq<Model>, qs: seq<QuestionId>)
    requires FreshModels(models, [Human])
    requires forall k :: 0 <= k < |qs| ==> qs[k] <= |columns|
    ensures WellFormed(SurveyCategoryData(columns, models, qs).value)
    ensures SurveyCategoryData(columns, models, qs).value.keys == [Human] + ModelNames(models)
    ensures SurveyCategoryData(columns, models, qs).value.values[Human] == ColumnValues(columns, qs)
    ensures forall k :: 0 <= k < |models| ==>
      (models[k].0 in SurveyCategoryData(columns, models, qs).value.values &&
       SurveyCategoryData(columns, models, qs).value.values[models[k].0] == ModelGroup(models[k].1, qs))
  {
    var ns := ModelNames(models);
    var d0 := Dict([Human], map[Human := []]);
    assert forall k :: 0 <= k < |models| ==> models[k].0 == ns[k];
    assert WellFormed(d0);
    PutEmptyAllWellFormed(d0, ns);
    PutEmptyAllKeys(d0, ns);
    PutEmptyAllSpec(d0, ns);
    var d1 := PutEmptyAll(d0, ns);
    var d2 := AddColumns(d1, columns, qs).value;
    var r := AddModels(d2, models, qs);
    assert SurveyCategoryData(columns, models, qs) == Some(r);
    assert r.keys == d1.keys && r.values.Keys == d1.values.Keys;
    AddColumnsSpec(d1, columns, qs);
    AddModelsOther(d2, models, qs, Human);
    forall k | 0 <= k < |models|
      ensures models[k].0 in r.values && r.values[models[k].0] == ModelGroup(models[k].1, qs)
    {
      AddModelsOwn(d2, models, qs, k);
    }
  }

  /** With the survey's 17 columns every category of the survey table
      resolves its columns. */
  lemma SurveyTableResolves(columns: Columns, models: seq<Model>, c: nat)
    requires |columns| == |ColumnOrder|
    requires c < |SurveyCategories|
    ensures SurveyCategoryData(columns, models, SurveyCategories[c].questions).Some?
  {
    var qs := SurveyCategories[c].questions;
    ColumnOrderDistinct();
    forall k | 0 <= k < |qs| ensures qs[k] <= |columns| {
      SurveyMember(c, qs[k]);
    }
  }
}
