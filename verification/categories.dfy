/** The static tables of the two comparison scripts: which questions form
    each category, and the order of the survey's answer columns. */
module Categories {
  import opened Wrappers

  /** A question number as the category tables write it (from 1). */
  type QuestionId = q: int | q >= 1 witness 1

  datatype Category = Category(name: string, questions: seq<QuestionId>)

  /** The seven categories of the original questionnaire (31 questions). */
  const OriginalCategories: seq<Category> := [
    Category("Active", [1, 2, 3, 4, 5]),
    Category("Passive", [6, 7, 8, 9, 11]),
    Category("Questionable", [12, 13, 14, 15, 16]),
    Category("No_Harm", [17, 18, 19, 20, 21]),
    Category("Downloading", [22, 23]),
    Category("Recycling", [24, 25, 26, 27]),
    Category("Doing_Good", [28, 29, 30, 31])]

  /** The five categories of the shopping-assistant survey (17 questions). */
  const SurveyCategories: seq<Category> := [
    Category("Resource_Misappropriation", [1, 2, 3, 4]),
    Category("System_Exploitation", [5, 6, 7, 8, 9]),
    Category("Trust_Violation", [10, 11, 12, 13, 14]),
    Category("Positive Digital_Citizenship", [15, 16]),
    Category("Negative Digital_Citizenship", [17])]

  /** The survey's answer columns in question order (`column_oder`). */
  const ColumnOrder: seq<string> := [
    "Q4_company-license", "Q14_subscritpion", "Q6_screenshots", "Q8_streaming",
    "Q16_ad-blockers", "Q2_VPN_bypass", "Q11_VPN_prices", "Q12_free_trials",
    "Q7_bots", "Q5_status", "Q9_loyalty", "Q1_refunds", "Q15_fake_review",
    "Q10_return", "Q17_website_errors", "Q3_honest_reviews", "Q13_not_reporting"]

  predicate StrictlyIncreasing(qs: seq<QuestionId>) {
    forall i, j :: 0 <= i < j < |qs| ==> qs[i] < qs[j]
  }

  /** The category of the original questionnaire that lists `q`, if any. */
  function OriginalCategoryOf(q: int): (c: Option<nat>)
    ensures c.Some? ==> c.value < |OriginalCategories|
  {
    if 1 <= q <= 5 then Some(0) else if 6 <= q <= 9 || q == 11 then Some(1)
    else if 12 <= q <= 16 then Some(2) else if 17 <= q <= 21 then Some(3)
    else if 22 <= q <= 23 then Some(4) else if 24 <= q <= 27 then Some(5)
    else if 28 <= q <= 31 then Some(6) else None
  }

  /** The category of the survey that lists `q`, if any. */
  function SurveyCategoryOf(q: int): (c: Option<nat>)
    ensures c.Some? ==> c.value < |SurveyCategories|
  {
    if 1 <= q <= 4 then Some(0) else if 5 <= q <= 9 then Some(1)
    else if 10 <= q <= 14 then Some(2) else if 15 <= q <= 16 then Some(3)
    else if q == 17 then Some(4) else None
  }

  /** The original table: seven increasing lists, each question in at most
      one of them (the one `OriginalCategoryOf` names), all inside 1..31,
      with question 10 in none. */
  lemma OriginalCategoriesShape()
    ensures |OriginalCategories| == 7
    ensures forall c :: 0 <= c < |OriginalCategories| ==> StrictlyIncreasing(OriginalCategories[c].questions)
    ensures forall c, q :: 0 <= c < |OriginalCategories| ==>
      (q in OriginalCategories[c].questions <==> OriginalCategoryOf(q) == Some(c))
    ensures forall q :: OriginalCategoryOf(q).Some? ==> 1 <= q <= 31
    ensures OriginalCategoryOf(10).None?
  {
    forall c, q | 0 <= c < |OriginalCategories|
      ensures q in OriginalCategories[c].questions <==> OriginalCategoryOf(q) == Some(c)
    {
      OriginalMember(c, q);
    }
  }

  lemma OriginalMember(c: nat, q: int)
    requires c < |OriginalCategories|
    ensures q in OriginalCategories[c].questions <==> OriginalCategoryOf(q) == Some(c)
  {
  }

  /** The survey table: five increasing lists that partition 1..17. */
  lemma SurveyCategoriesPartition()
    ensures |SurveyCategories| == 5
    ensures forall c :: 0 <= c < |SurveyCategories| ==> StrictlyIncreasing(SurveyCategories[c].questions)
    ensures forall c, q :: 0 <= c < |SurveyCategories| ==>
      (q in SurveyCategories[c].questions <==> SurveyCategoryOf(q) == Some(c))
    ensures forall q :: SurveyCategoryOf(q).Some? <==> 1 <= q <= 17
  {
    forall c, q | 0 <= c < |SurveyCategories|
      ensures q in SurveyCategories[c].questions <==> SurveyCategoryOf(q) == Some(c)
    {
      SurveyMember(c, q);
    }
  }

  lemma SurveyMember(c: nat, q: int)
    requires c < |SurveyCategories|
    ensures q in SurveyCategories[c].questions <==> SurveyCategoryOf(q) == Some(c)
  {
  }

  /** No question is listed by two categories of either table. */
  lemma CategoriesDisjoint(c: nat, d: nat, q: int)
    requires c < d
    ensures d < |OriginalCategories| ==>
      !(q in OriginalCategories[c].questions && q in OriginalCategories[d].questions)
    ensures d < |SurveyCategories| ==>
      !(q in SurveyCategories[c].questions && q in SurveyCategories[d].questions)
  {
    if d < |OriginalCategories| {
      OriginalMember(c, q);
      OriginalMember(d, q);
    }
    if d < |SurveyCategories| {
      SurveyMember(c, q);
      SurveyMember(d, q);
    }
  }

  /** The question number in the name of each survey column. */
  const ColumnIds: seq<nat> := [4, 14, 6, 8, 16, 2, 11, 12, 7, 5, 9, 1, 15, 10, 17, 3, 13]

  /** Where each id sits in `ColumnIds`: id `q` is at `ColumnPosition[q - 1]`. */
  const ColumnPosition: seq<nat> := [11, 5, 15, 0, 9, 2, 8, 3, 10, 13, 6, 7, 16, 1, 12, 4, 14]

  /** `column_oder` names 17 distinct columns, one per question id: each
      name starts with `Q` and its id, and the ids are a rearrangement of 1..17. */
  lemma ColumnOrderDistinct()
    ensures |ColumnOrder| == |ColumnIds| == 17
    ensures forall k :: 0 <= k < |ColumnOrder| ==> KeyedBy(ColumnOrder[k], ColumnIds[k])
    ensures forall i, j :: 0 <= i < j < |ColumnOrder| ==> ColumnOrder[i] != ColumnOrder[j]
    ensures forall q :: 1 <= q <= 17 <==> q in ColumnIds
  {
    ColumnKeys();
    forall i, j | 0 <= i < j < |ColumnOrder| ensures ColumnOrder[i] != ColumnOrder[j] {
      IdAt(i);
      IdAt(j);
      IdKeyInjective(ColumnIds[i], ColumnIds[j]);
      KeyedApart(ColumnOrder[i], ColumnOrder[j], ColumnIds[i], ColumnIds[j]);
    }
    forall q ensures 1 <= q <= 17 <==> q in ColumnIds {
      if 1 <= q <= 17 {
        PositionAt(q);
      }
      if q in ColumnIds {
        var k :| 0 <= k < |ColumnIds| && ColumnIds[k] == q;
        IdAt(k);
      }
    }
  }

  lemma ColumnKeys()
    ensures forall k :: 0 <= k < |ColumnOrder| ==> KeyedBy(ColumnOrder[k], ColumnIds[k])
  {
    forall k | 0 <= k < |ColumnOrder| ensures KeyedBy(ColumnOrder[k], ColumnIds[k]) {
      ColumnKeyAt(k);
    }
  }

  lemma ColumnKeyAt(k: nat)
    requires k < |ColumnOrder|
    ensures KeyedBy(ColumnOrder[k], ColumnIds[k])
  {
  }

  /** Each column's id is in 1..17 and is found again through `ColumnPosition`. */
  lemma IdAt(k: nat)
    requires k < |ColumnIds|
    ensures 1 <= ColumnIds[k] <= 17 && ColumnPosition[ColumnIds[k] - 1] == k
  {
  }

  /** Each id in 1..17 has a column. */
  lemma PositionAt(q: int)
    requires 1 <= q <= 17
    ensures ColumnPosition[q - 1] < |ColumnIds| && ColumnIds[ColumnPosition[q - 1]] == q
  {
  }

  /** Names keyed by different keys differ. */
  lemma KeyedApart(x: string, y: string, a: nat, b: nat)
    requires 1 <= a <= 99 && 1 <= b <= 99 && IdKey(a) != IdKey(b)
    requires KeyedBy(x, a) && KeyedBy(y, b)
    ensures x != y
  {
    assert IdKey(a) == x[1..3];
    assert IdKey(b) == y[1..3];
  }

  /** The name begins with `Q` and the two characters of the id's key. */
  predicate KeyedBy(name: string, id: nat)
    requires 1 <= id <= 99
  {
    |name| >= 3 && name[0] == 'Q' && name[1] == IdKey(id)[0] && name[2] == IdKey(id)[1]
  }

  /** The two characters after the `Q` of a column name: the id's digits,
      padded with `_` for a one-digit id. */
  function IdKey(id: nat): (key: string)
    requires 1 <= id <= 99
    ensures |key| == 2
  {
    if id < 10 then [DigitOf(id), '_'] else [DigitOf(id / 10), DigitOf(id % 10)]
  }

  function DigitOf(d: nat): (c: char)
    requires d < 10
    ensures '0' <= c <= '9'
  {
    (48 + d) as char
  }

  /** Different ids give different keys. */
  lemma IdKeyInjective(i: nat, j: nat)
    requires 1 <= i <= 99 && 1 <= j <= 99 && i != j
    ensures IdKey(i) != IdKey(j)
  {
    if i >= 10 && j >= 10 && i / 10 == j / 10 {
      assert IdKey(i)[1] != IdKey(j)[1];
    } else if i >= 10 && j >= 10 {
      assert IdKey(i)[0] != IdKey(j)[0];
    } else if i < 10 && j < 10 {
      assert IdKey(i)[0] != IdKey(j)[0];
    } else if i < 10 {
      assert IdKey(i)[1] != IdKey(j)[1];
    } else {
      assert IdKey(i)[1] != IdKey(j)[1];
    }
  }
}
