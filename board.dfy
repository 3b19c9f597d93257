/** The data part of `fillTable` and `handleClick` in jeopardy.js: the global
    `categories` array, the clue table the page shows, one build attempt, and
    the click that reveals a clue's question and then its answer. */
module Board {
  import opened Sampling
  import opened Categories

  /** What every clue cell shows before it is clicked. */
  const Placeholder: string := "?"

  /** A `<td class="catIdx">` of the clue table: the class names the
      category (column), `highlighted` is the green background. */
  datatype Cell = Cell(catIdx: nat, text: string, highlighted: bool)

  /** A `<tr id="id">` of the clue table body; the id names the clue (row). */
  datatype Row = Row(id: nat, cells: seq<Cell>)

  /** How one build attempt ends: the board is shown (`hideLoadingView` is
      reached), or the table is removed and the build starts over. */
  datatype Outcome = Loaded | Retry

  /** `getCategory` as the fetch loop calls it: the k-th call, for `id`,
      gets the service's response for `id` and the k-th stream of draws. */
  function Fetcher(server: int -> CategoryResponse, clueDraws: nat -> Draws): (int, nat) -> Option<Category>
  {
    (id: int, k: nat) => GetCategory(server(id), clueDraws(k))
  }

  /** The entries the fetch loop pushes, one per id and in id order. */
  function FetchAll(ids: seq<int>, fetch: (int, nat) -> Option<Category>): seq<Option<Category>>
  {
    if ids == [] then []
    else
      var k := |ids| - 1;
      FetchAll(ids[..k], fetch) + [fetch(ids[k], k)]
  }

  /** No entry is `undefined`. */
  predicate AllDefined(cats: seq<Option<Category>>)
  {
    forall k :: 0 <= k < |cats| ==> cats[k].Some?
  }

  /** The header cells: one title per category, in order. */
  function Titles(cats: seq<Option<Category>>): seq<string>
    requires AllDefined(cats)
  {
    seq(|cats|, k requires 0 <= k < |cats| => cats[k].value.title)
  }

  /** The layout the nested loops of `fillTable` produce: `questionNum` rows,
      row i has id i and `catNum` cells, cell j has class j. */
  predicate GridShape(rows: seq<Row>)
  {
    |rows| == QuestionNum &&
    forall i :: 0 <= i < |rows| ==>
      rows[i].id == i && |rows[i].cells| == CatNum &&
      forall j :: 0 <= j < CatNum ==> rows[i].cells[j].catIdx == j
  }

  /** The layout with every cell showing the placeholder, not highlighted. */
  predicate FreshGrid(rows: seq<Row>)
  {
    GridShape(rows) &&
    forall i, j :: 0 <= i < |rows| && 0 <= j < |rows[i].cells| ==>
      rows[i].cells[j].text == Placeholder && !rows[i].cells[j].highlighted
  }

  /** Row `i` as the nested loops of `fillTable` append it. */
  function FreshRow(i: nat): Row
  {
    Row(i, seq(CatNum, j requires 0 <= j < CatNum => Cell(j, Placeholder, false)))
  }

  /** `categories[catIdx].clues[clueIdx]`, or `None` where the lookup throws
      (no such category, an `undefined` category, no such clue). */
  function ClueAt(cats: seq<Option<Category>>, catIdx: nat, clueIdx: nat): Option<Clue>
  {
    if catIdx < |cats| && cats[catIdx].Some? && clueIdx < |cats[catIdx].value.clues|
    then Some(cats[catIdx].value.clues[clueIdx])
    else None
  }

  /** The branch of `handleClick` on the text the cell shows. */
  function Clicked(cell: Cell, clue: Clue): Cell
  {
    if cell.text == Placeholder then cell.(text := clue.question)
    else cell.(text := clue.answer, highlighted := true)
  }

  /** The table after a click on cell `c` of row `r`: only that cell can
      change, and it changes as `Clicked` says when its class and its row id
      find a clue; otherwise the handler throws and nothing changes. */
  function AfterClick(rows: seq<Row>, cats: seq<Option<Category>>, r: nat, c: nat): (rows': seq<Row>)
    requires r < |rows| && c < |rows[r].cells|
    ensures |rows'| == |rows|
    ensures forall i :: 0 <= i < |rows| ==>
      rows'[i].id == rows[i].id && |rows'[i].cells| == |rows[i].cells|
    ensures forall i, j :: 0 <= i < |rows| && 0 <= j < |rows[i].cells| && (i != r || j != c) ==>
      rows'[i].cells[j] == rows[i].cells[j]
    ensures rows'[r].cells[c].catIdx == rows[r].cells[c].catIdx
    ensures ClueAt(cats, rows[r].cells[c].catIdx, rows[r].id).None? ==> rows' == rows
    ensures ClueAt(cats, rows[r].cells[c].catIdx, rows[r].id).Some? ==>
      rows'[r].cells[c] == Clicked(rows[r].cells[c], ClueAt(cats, rows[r].cells[c].catIdx, rows[r].id).value)
  {
    var cell := rows[r].cells[c];
    match ClueAt(cats, cell.catIdx, rows[r].id)
    case None => rows
    case Some(clue) => rows[r := rows[r].(cells := rows[r].cells[c := Clicked(cell, clue)])]
  }

  /** Each entry of the fetch loop is the result of the call for the id at
      the same position. */
  lemma {:induction false} FetchAllAt(ids: seq<int>, fetch: (int, nat) -> Option<Category>)
    ensures |FetchAll(ids, fetch)| == |ids|
    ensures forall k :: 0 <= k < |ids| ==> FetchAll(ids, fetch)[k] == fetch(ids[k], k)
  {
    if ids != [] {
      FetchAllAt(ids[..|ids| - 1], fetch);
    }
  }

  lemma FetchedEntry(ids: seq<int>, server: int -> CategoryResponse, clueDraws: nat -> Draws, k: nat)
    requires k < |ids|
    ensures |FetchAll(ids, Fetcher(server, clueDraws))| == |ids|
    ensures FetchAll(ids, Fetcher(server, clueDraws))[k] == GetCategory(server(ids[k]), clueDraws(k))
  {
    FetchAllAt(ids, Fetcher(server, clueDraws));
  }

  /** What `getCategory` promises about the entry fetched for `res`: it is
      defined exactly when `res` has `questionNum` complete clues, and then it
      has the response's title and `questionNum` complete clues showing null. */
  predicate FetchedFrom(entry: Option<Category>, res: CategoryResponse)
  {
    (entry.Some? <==> |ValidClues(res.clues)| >= QuestionNum) &&
    (entry.Some? ==>
       entry.value.title == res.title && |entry.value.clues| == QuestionNum &&
       forall c :: c in entry.value.clues ==> c.question != "" && c.answer != "" && c.showing == Null)
  }

  /** After the fetch loop every entry is what `getCategory` promises for the
      response to its id, so the build loads exactly when every selected
      category has at least `questionNum` complete clues. */
  lemma LoadedBoard(ids: seq<int>, server: int -> CategoryResponse, clueDraws: nat -> Draws)
    ensures |FetchAll(ids, Fetcher(server, clueDraws))| == |ids|
    ensures forall k :: 0 <= k < |ids| ==> FetchedFrom(FetchAll(ids, Fetcher(server, clueDraws))[k], server(ids[k]))
    ensures AllDefined(FetchAll(ids, Fetcher(server, clueDraws))) <==>
            forall k :: 0 <= k < |ids| ==> |ValidClues(server(ids[k]).clues)| >= QuestionNum
  {
    var cats := FetchAll(ids, Fetcher(server, clueDraws));
    FetchAllAt(ids, Fetcher(server, clueDraws));
    forall k | 0 <= k < |ids|
      ensures FetchedFrom(cats[k], server(ids[k]))
    {
      FetchedEntry(ids, server, clueDraws, k);
    }
  }

  /** With at least `catNum` valid candidates whose responses all have enough
      complete clues, the board is `catNum` categories of `questionNum` clues. */
  lemma FullBoard(summaries: seq<CategorySummary>, idDraws: Draws,
                  server: int -> CategoryResponse, clueDraws: nat -> Draws)
    requires |ValidIds(summaries)| >= CatNum
    requires forall s :: s in summaries && s.cluesCount == QuestionNum ==> |ValidClues(server(s.id).clues)| >= QuestionNum
    ensures var cats := FetchAll(GetCategoryIds(summaries, idDraws), Fetcher(server, clueDraws));
            |cats| == CatNum && AllDefined(cats) &&
            forall k :: 0 <= k < CatNum ==> |cats[k].value.clues| == QuestionNum
  {
    var ids := GetCategoryIds(summaries, idDraws);
    var cats := FetchAll(ids, Fetcher(server, clueDraws));
    FetchAllAt(ids, Fetcher(server, clueDraws));
    forall k | 0 <= k < |ids|
      ensures cats[k].Some? && |cats[k].value.clues| == QuestionNum
    {
      assert ids[k] in ids;
      var s :| s in summaries && s.cluesCount == QuestionNum && s.id == ids[k];
      FetchedEntry(ids, server, clueDraws, k);
    }
  }

  /** What a cell displays in each value of `showing` that the doc comment of
      `handleClick` describes: the placeholder, the question, or the answer on
      the green background. */
  predicate Shows(cell: Cell, clue: Clue, stage: Showing)
  {
    match stage
    case Null => cell.text == Placeholder && !cell.highlighted
    case QuestionShown => cell.text == clue.question && !cell.highlighted
    case AnswerShown => cell.text == clue.answer && cell.highlighted
  }

  /** The doc comment's transitions: null to question to answer, then ignored. */
  function NextShowing(stage: Showing): Showing
  {
    match stage
    case Null => QuestionShown
    case QuestionShown => AnswerShown
    case AnswerShown => AnswerShown
  }

  /** Keyed on the displayed text, a click follows the doc comment's
      transitions whenever neither the question nor the answer is itself the
      placeholder text. */
  lemma ClickAdvances(cell: Cell, clue: Clue, stage: Showing)
    requires Shows(cell, clue, stage)
    requires clue.question != Placeholder && clue.answer != Placeholder
    ensures Shows(Clicked(cell, clue), clue, NextShowing(stage))
    ensures Clicked(cell, clue).catIdx == cell.catIdx
  {
  }

  /** A cell showing the answer stays as it is under a further click exactly
      when the answer is not the placeholder text (or equals the question). */
  lemma AnsweredCellFixed(cell: Cell, clue: Clue)
    requires Shows(cell, clue, AnswerShown)
    ensures Clicked(cell, clue) == cell <==> clue.answer != Placeholder || clue.question == clue.answer
  {
  }

  /** A clue whose question is the placeholder text never reaches its answer:
      the cell keeps showing the question. */
  lemma PlaceholderQuestionStalls(cell: Cell, clue: Clue)
    requires Shows(cell, clue, QuestionShown)
    requires clue.question == Placeholder
    ensures Clicked(cell, clue) == cell
  {
  }

  /** The cell after `n` clicks. */
  function Clicks(cell: Cell, clue: Clue, n: nat): Cell
  {
    if n == 0 then cell else Clicked(Clicks(cell, clue, n - 1), clue)
  }

  /** The value of `showing` after `n` clicks, following the doc comment. */
  function ShowingAfter(n: nat): Showing
  {
    if n == 0 then Null else NextShowing(ShowingAfter(n - 1))
  }

  /** From the placeholder, clicks reveal the question, then the answer, and
      every further click leaves the cell unchanged. */
  lemma {:induction false} RevealSequence(cell: Cell, clue: Clue, n: nat)
    requires Shows(cell, clue, Null)
    requires clue.question != Placeholder && clue.answer != Placeholder
    ensures Shows(Clicks(cell, clue, n), clue, ShowingAfter(n))
    ensures ShowingAfter(n) == if n == 0 then Null else if n == 1 then QuestionShown else AnswerShown
    ensures Clicks(cell, clue, n).catIdx == cell.catIdx
    ensures n >= 2 ==> Clicks(cell, clue, n + 1) == Clicks(cell, clue, n)
  {
    if n > 0 {
      RevealSequence(cell, clue, n - 1);
      ClickAdvances(Clicks(cell, clue, n - 1), clue, ShowingAfter(n - 1));
    }
    if n >= 2 {
      AnsweredCellFixed(Clicks(cell, clue, n), clue);
    }
  }

  /** The table after `n` clicks on cell `c` of row `r`. */
  function AfterClicks(rows: seq<Row>, cats: seq<Option<Category>>, r: nat, c: nat, n: nat): (rows': seq<Row>)
    requires r < |rows| && c < |rows[r].cells|
    ensures |rows'| == |rows| && |rows'[r].cells| == |rows[r].cells|
  {
    if n == 0 then rows else AfterClick(AfterClicks(rows, cats, r, c, n - 1), cats, r, c)
  }

  /** On a laid-out table, cell `c` of row `r` is keyed to clue `r` of category
      `c`; clicking it `n` times changes that cell as `n` clicks on the clue
      do, keeps the layout, and leaves every other cell as it was. */
  lemma {:induction false} RepeatedClicks(rows: seq<Row>, cats: seq<Option<Category>>, r: nat, c: nat, n: nat)
    requires GridShape(rows) && r < QuestionNum && c < CatNum
    requires ClueAt(cats, c, r).Some?
    ensures GridShape(AfterClicks(rows, cats, r, c, n))
    ensures AfterClicks(rows, cats, r, c, n)[r].cells[c] == Clicks(rows[r].cells[c], ClueAt(cats, c, r).value, n)
    ensures forall i, j :: 0 <= i < QuestionNum && 0 <= j < CatNum && (i != r || j != c) ==>
      AfterClicks(rows, cats, r, c, n)[i].cells[j] == rows[i].cells[j]
  {
    if n > 0 {
      RepeatedClicks(rows, cats, r, c, n - 1);
      var before := AfterClicks(rows, cats, r, c, n - 1);
      assert before[r].cells[c].catIdx == c && before[r].id == r;
    }
  }

  /** Clicking a fresh table's cell at row `r`, column `c` walks clue `r` of
      category `c` through placeholder, question and answer; no other cell
      changes. */
  lemma CellReveal(rows: seq<Row>, cats: seq<Option<Category>>, r: nat, c: nat, n: nat)
    requires FreshGrid(rows) && r < QuestionNum && c < CatNum
    requires ClueAt(cats, c, r).Some?
    requires ClueAt(cats, c, r).value.question != Placeholder && ClueAt(cats, c, r).value.answer != Placeholder
    ensures GridShape(AfterClicks(rows, cats, r, c, n))
    ensures Shows(AfterClicks(rows, cats, r, c, n)[r].cells[c], ClueAt(cats, c, r).value, ShowingAfter(n))
    ensures forall i, j :: 0 <= i < QuestionNum && 0 <= j < CatNum && (i != r || j != c) ==>
      AfterClicks(rows, cats, r, c, n)[i].cells[j] == rows[i].cells[j]
  {
    RepeatedClicks(rows, cats, r, c, n);
    RevealSequence(rows[r].cells[c], ClueAt(cats, c, r).value, n);
  }

  /** When fewer than `catNum` categories were selected, the table still has
      `catNum` columns, and a click in a column without a category changes
      nothing (the handler throws). */
  lemma MissingColumnIgnored(rows: seq<Row>, cats: seq<Option<Category>>, r: nat, c: nat)
    requires GridShape(rows) && r < QuestionNum && c < CatNum
    requires |cats| <= c
    ensures AfterClick(rows, cats, r, c) == rows
  {
  }

  class Game {
    /** The global `categories`; `None` stands for an `undefined` entry. */
    var categories: seq<Option<Category>>
    /** Whether `table#jeopardy` is on the page. */
    var tablePresent: bool
    /** The titles in `tr#categories`. */
    var header: seq<string>
    /** The rows of `tbody#clues`. */
    var rows: seq<Row>

    constructor ()
      ensures categories == [] && !tablePresent && header == [] && rows == []
    {
      categories := [];
      tablePresent := false;
      header := [];
      rows := [];
    }

    /** `$('table').remove()`: the table and everything in it leave the page. */
    method RemoveTable()
      modifies this`tablePresent, this`header, this`rows
      ensures !tablePresent && header == [] && rows == []
      ensures categories == old(categories)
    {
      tablePresent := false;
      header := [];
      rows := [];
    }

    /** One attempt of `fillTable`, given the two service responses and the
        draws of each `_.sampleSize`. It loads exactly when no fetched entry
        is `undefined`; otherwise `cat.title` throws and the table goes. */
    method FillTable(summaries: seq<CategorySummary>, idDraws: Draws,
                     server: int -> CategoryResponse, clueDraws: nat -> Draws)
      returns (outcome: Outcome)
      requires !tablePresent
      modifies this
      ensures categories == FetchAll(GetCategoryIds(summaries, idDraws), Fetcher(server, clueDraws))
      ensures outcome == Loaded <==> AllDefined(categories)
      ensures outcome == Loaded ==> tablePresent && header == Titles(categories) && FreshGrid(rows)
      ensures outcome == Retry ==> !tablePresent && header == [] && rows == []
    {
      var ids := GetCategoryIds(summaries, idDraws);
      FetchCategories(ids, server, clueDraws);
      outcome := BuildTable();
    }

    /** The part of `fillTable` after the fetch loop: the table goes on the
        page, the header loop runs (throwing at an `undefined` entry, upon
        which the `catch` removes the table), then the nested loops lay out
        the clue cells. */
    method BuildTable() returns (outcome: Outcome)
      requires !tablePresent
      modifies this`tablePresent, this`header, this`rows
      ensures outcome == Loaded <==> AllDefined(categories)
      ensures outcome == Loaded ==> tablePresent && header == Titles(categories) && FreshGrid(rows)
      ensures outcome == Retry ==> !tablePresent && header == [] && rows == []
    {
      tablePresent, header, rows := true, [], [];
      var titled := AppendHeader();
      if !titled {
        RemoveTable();
        return Retry;
      }
      AppendRows();
      outcome := Loaded;
    }

    /** The fetch loop of `fillTable`: `categories` is reset, then one
        `getCategory` result per id is pushed, in id order. */
    method FetchCategories(ids: seq<int>, server: int -> CategoryResponse, clueDraws: nat -> Draws)
      modifies this`categories
      ensures categories == FetchAll(ids, Fetcher(server, clueDraws))
    {
      categories := [];
      for k := 0 to |ids|
        invariant categories == FetchAll(ids[..k], Fetcher(server, clueDraws))
      {
        assert ids[..k + 1][..k] == ids[..k];
        categories := categories + [GetCategory(server(ids[k]), clueDraws(k))];
      }
      assert ids[..|ids|] == ids;
    }

    /** The header loop of `fillTable`: one title per category, in order,
        stopping at the first `undefined` entry, where `cat.title` throws. */
    method AppendHeader() returns (titled: bool)
      requires header == []
      modifies this`header
      ensures titled <==> AllDefined(categories)
      ensures titled ==> header == Titles(categories)
    {
      for k := 0 to |categories|
        invariant AllDefined(categories[..k]) && header == Titles(categories[..k])
      {
        if categories[k].None? {
          assert !AllDefined(categories);
          return false;
        }
        header := header + [categories[k].value.title];
        assert categories[..k + 1] == categories[..k] + [categories[k]];
      }
      assert categories[..|categories|] == categories;
      titled := true;
    }

    /** The nested loops of `fillTable`: `questionNum` rows of `catNum`
        placeholder cells, the cell counter `catIdx` giving each its class. */
    method AppendRows()
      requires rows == []
      modifies this`rows
      ensures FreshGrid(rows)
    {
      for i := 0 to QuestionNum
        invariant |rows| == i
        invariant forall i' :: 0 <= i' < i ==> rows[i'] == FreshRow(i')
      {
        rows := rows + [Row(i, [])];
        var catIdx := 0;
        for j := 0 to CatNum
          invariant |rows| == i + 1 && catIdx == j
          invariant rows[i] == Row(i, seq(j, j' requires 0 <= j' < j => Cell(j', Placeholder, false)))
          invariant forall i' :: 0 <= i' < i ==> rows[i'] == FreshRow(i')
        {
          rows := rows[i := rows[i].(cells := rows[i].cells + [Cell(catIdx, Placeholder, false)])];
          catIdx := catIdx + 1;
        }
      }
    }

    /** `handleClick` on cell `c` of row `r`: the cell's class and its row's
        id pick the clue; a cell showing the placeholder then shows the
        question, any other cell shows the answer on a green background. */
    method HandleClick(r: nat, c: nat) returns (handled: bool)
      requires r < |rows| && c < |rows[r].cells|
      modifies this
      ensures handled <==> ClueAt(categories, old(rows)[r].cells[c].catIdx, old(rows)[r].id).Some?
      ensures rows == AfterClick(old(rows), categories, r, c)
      ensures categories == old(categories) && header == old(header) && tablePresent == old(tablePresent)
    {
      var cell := rows[r].cells[c];
      var currCat := cell.catIdx;
      var clueIdx := rows[r].id;
      if currCat >= |categories| || categories[currCat].None? || clueIdx >= |categories[currCat].value.clues| {
        return false;
      }
      var currQ := categories[currCat].value.clues[clueIdx].question;
      var currA := categories[currCat].value.clues[clueIdx].answer;
      if cell.text == Placeholder {
        rows := rows[r := rows[r].(cells := rows[r].cells[c := cell.(text := currQ)])];
      } else {
        rows := rows[r := rows[r].(cells := rows[r].cells[c := cell.(text := currA, highlighted := true)])];
      }
      handled := true;
    }
  }
}
