/** The data logic of `getCategoryIds` and `getCategory` in jeopardy.js.
    The two trivia service responses they await are parameters; the random
    draws of `_.sampleSize` are parameters too (see module Sampling). */
module Categories {
  import opened Sampling

  /** `catNum`: the number of categories (columns) on a board. */
  const CatNum: nat := 6
  /** `questionNum`: the number of clues (rows) per category. */
  const QuestionNum: nat := 5

  datatype Option<T> = None | Some(value: T)

  /** One entry of the `categories?count=100` response. */
  datatype CategorySummary = CategorySummary(id: int, title: string, cluesCount: int)

  /** One entry of the `clues` array in the `category?id=…` response. */
  datatype ApiClue = ApiClue(question: string, answer: string)

  /** The `category?id=…` response: its title and its clues. */
  datatype CategoryResponse = CategoryResponse(title: string, clues: seq<ApiClue>)

  /** The `showing` property of a clue. The code only ever stores `null`; the
      other two values are the ones the doc comment of `handleClick` names. */
  datatype Showing = Null | QuestionShown | AnswerShown

  datatype Clue = Clue(question: string, answer: string, showing: Showing)

  datatype Category = Category(title: string, clues: seq<Clue>)

  function IdOf(c: CategorySummary): int
  {
    c.id
  }

  /** The candidates kept by `getCategoryIds`: exactly those whose
      `clues_count` equals `questionNum`, in response order. */
  function ValidIds(res: seq<CategorySummary>): (v: seq<CategorySummary>)
    ensures forall c :: c in v <==> c in res && c.cluesCount == QuestionNum
    ensures multiset(v) <= multiset(res)
  {
    if res == [] then []
    else
      assert res == [res[0]] + res[1..];
      if res[0].cluesCount == QuestionNum then [res[0]] + ValidIds(res[1..])
      else ValidIds(res[1..])
  }

  /** Only a candidate of the wanted size is dropped by the filter: it keeps
      every other one as often as the response lists it. */
  lemma {:induction false} ValidIdsCount(res: seq<CategorySummary>, c: CategorySummary)
    ensures multiset(ValidIds(res))[c] == if c.cluesCount == QuestionNum then multiset(res)[c] else 0
  {
    if res != [] {
      ValidIdsCount(res[1..], c);
      assert res == [res[0]] + res[1..];
    }
  }

  /** No two candidates share an id. */
  predicate UniqueIds(s: seq<CategorySummary>)
  {
    forall i, j :: 0 <= i < j < |s| ==> s[i].id != s[j].id
  }

  lemma UniqueIdsMap(s: seq<CategorySummary>)
    ensures UniqueIds(s) <==> Distinct(Map(IdOf, s))
  {
  }

  /** Candidate ids that are unique in the response stay unique after the filter. */
  lemma {:induction false} ValidIdsUnique(res: seq<CategorySummary>)
    requires UniqueIds(res)
    ensures UniqueIds(ValidIds(res))
  {
    if res != [] {
      var tail := res[1..];
      ValidIdsUnique(tail);
      var rest := ValidIds(tail);
      if res[0].cluesCount == QuestionNum {
        forall b | 0 <= b < |rest|
          ensures rest[b].id != res[0].id
        {
          assert rest[b] in tail;
          var m :| 0 <= m < |tail| && tail[m] == rest[b];
          assert res[m + 1] == rest[b];
        }
        var v := [res[0]] + rest;
        forall a, b | 0 <= a < b < |v|
          ensures v[a].id != v[b].id
        {
          if a == 0 {
            assert v[b] == rest[b - 1];
          } else {
            assert v[a] == rest[a - 1] && v[b] == rest[b - 1];
          }
        }
      }
    }
  }

  /** `getCategoryIds`: the ids of a sample of `catNum` valid candidates. */
  function GetCategoryIds(res: seq<CategorySummary>, draws: Draws): (ids: seq<int>)
    ensures |ids| == Min(CatNum, |ValidIds(res)|)
    ensures exists cats :: multiset(cats) <= multiset(ValidIds(res)) && ids == Map(IdOf, cats)
    ensures forall id :: id in ids ==> exists c :: c in res && c.cluesCount == QuestionNum && c.id == id
    ensures UniqueIds(res) ==> Distinct(ids)
  {
    var validIds := ValidIds(res);
    var cats := SampleSize(validIds, CatNum, draws);
    SampledIdsValid(res, cats);
    if UniqueIds(res) then
      ValidIdsUnique(res);
      SampleUniqueIds(validIds, cats);
      UniqueIdsMap(cats);
      Map(IdOf, cats)
    else
      Map(IdOf, cats)
  }

  /** A duplicate-free selection from candidates with unique ids has unique ids. */
  lemma SampleUniqueIds(pool: seq<CategorySummary>, cats: seq<CategorySummary>)
    requires UniqueIds(pool)
    requires Distinct(pool) ==> Distinct(cats)
    requires forall c :: c in cats ==> c in pool
    ensures UniqueIds(cats)
  {
    assert Distinct(pool);
    forall a, b | 0 <= a < b < |cats|
      ensures cats[a].id != cats[b].id
    {
      assert cats[a] in pool && cats[b] in pool;
      var p :| 0 <= p < |pool| && pool[p] == cats[a];
      var q :| 0 <= q < |pool| && pool[q] == cats[b];
      assert p != q;
    }
  }

  lemma SampledIdsValid(res: seq<CategorySummary>, cats: seq<CategorySummary>)
    requires forall c :: c in cats ==> c in ValidIds(res)
    ensures forall id :: id in Map(IdOf, cats) ==> exists c :: c in res && c.cluesCount == QuestionNum && c.id == id
  {
    forall id | id in Map(IdOf, cats)
      ensures exists c :: c in res && c.cluesCount == QuestionNum && c.id == id
    {
      var i :| 0 <= i < |cats| && Map(IdOf, cats)[i] == id;
      assert cats[i] in ValidIds(res);
    }
  }

  /** True of a clue the filter in `getCategory` keeps. */
  predicate Complete(c: ApiClue)
  {
    c.question != "" && c.answer != ""
  }

  /** The clues kept by `getCategory`: exactly those with a non-empty question
      and a non-empty answer, each as often as in the response. */
  function ValidClues(clues: seq<ApiClue>): (v: seq<ApiClue>)
    ensures forall c :: c in v <==> c in clues && Complete(c)
    ensures multiset(v) <= multiset(clues)
  {
    if clues == [] then []
    else
      assert clues == [clues[0]] + clues[1..];
      if Complete(clues[0]) then [clues[0]] + ValidClues(clues[1..])
      else ValidClues(clues[1..])
  }

  /** Only an incomplete clue is dropped by the filter: it keeps every
      complete one as often as the response lists it. */
  lemma {:induction false} ValidCluesCount(clues: seq<ApiClue>, c: ApiClue)
    ensures multiset(ValidClues(clues))[c] == if Complete(c) then multiset(clues)[c] else 0
  {
    if clues != [] {
      ValidCluesCount(clues[1..], c);
      assert clues == [clues[0]] + clues[1..];
    }
  }

  /** The object the `map` in `getCategory` builds from a clue of the response. */
  function ToClue(c: ApiClue): Clue
  {
    Clue(c.question, c.answer, Null)
  }

  /** The question and answer a clue was copied from. */
  function Source(c: Clue): ApiClue
  {
    ApiClue(c.question, c.answer)
  }

  lemma SourceOfToClue(s: seq<ApiClue>)
    ensures Map(Source, Map(ToClue, s)) == s
  {
    assert forall i :: 0 <= i < |s| ==> Map(Source, Map(ToClue, s))[i] == s[i];
  }

  /** `getCategory`: a category is returned exactly when the sample of clues
      has `questionNum` entries, i.e. when the response has at least that many
      complete clues; it keeps the response's title, and its clues are copies
      of distinct complete clues, none of them showing anything. */
  function GetCategory(res: CategoryResponse, draws: Draws): (r: Option<Category>)
    ensures r.Some? <==> |ValidClues(res.clues)| >= QuestionNum
    ensures r.Some? ==> r.value.title == res.title && |r.value.clues| == QuestionNum
    ensures r.Some? ==> forall c :: c in r.value.clues ==> c.question != "" && c.answer != "" && c.showing == Null
    ensures r.Some? ==> multiset(Map(Source, r.value.clues)) <= multiset(ValidClues(res.clues))
  {
    var cluesData := ValidClues(res.clues);
    var clues := SampleSize(cluesData, QuestionNum, draws);
    var clueArray := Map(ToClue, clues);
    SourceOfToClue(clues);
    if |clueArray| == QuestionNum then
      assert forall c :: c in clueArray ==> c.question != "" && c.answer != "" && c.showing == Null by {
        forall c | c in clueArray
          ensures c.question != "" && c.answer != "" && c.showing == Null
        {
          var i :| 0 <= i < |clueArray| && clueArray[i] == c;
          assert clues[i] in cluesData;
        }
      }
      Some(Category(res.title, clueArray))
    else
      None
  }
}
