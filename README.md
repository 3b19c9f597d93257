# Jeopardy board: category selection, board assembly and clue reveal

This project models the data logic of `jeopardy.js`, a browser script that builds a
trivia board of `catNum` = 6 categories by `questionNum` = 5 clues from the jservice.io
API and reveals each clue's question, then its answer, on click.

- `sampling.dfy`, module `Sampling`: lodash's `_.sampleSize`. The random numbers it
  consumes are a parameter (`Draws`, the k-th draw of one call). Each step keeps the pool
  element at the drawn position, taken modulo the pool size, and removes it from the pool.
  Every property is proved for every stream of draws.
- `categories.dfy`, module `Categories`: `getCategoryIds` and `getCategory` as functions
  of the two service responses (`CategorySummary` list, `CategoryResponse`) and the draws.
  `getCategory`'s `undefined` result is `None`.
- `board.dfy`, module `Board`: the page state as the class `Game`. Its fields are the
  global `categories` (an `undefined` entry is `None`), whether the table is on the page,
  the header titles and the clue rows. A row is a `<tr id=i>`; a cell is a `<td class=j>`
  with its text and its green highlight flag. `FillTable` is one build attempt and ends
  `Loaded` (where `hideLoadingView` is reached) or `Retry` (the table was removed in the
  `catch`). `HandleClick` is the click handler, keyed on the text the cell shows, as the
  code does it.

Two behaviours of the code are worth stating outright:

- When fewer than `catNum` candidates qualify, `getCategoryIds` returns fewer ids. Nothing
  fails: the board loads with fewer header titles and still has `catNum` columns. A click in
  a column without a category throws inside the handler and changes nothing
  (`MissingColumnIgnored`).
- The doc comment of `handleClick` (jeopardy.js:126-132) describes a `showing` machine:
  null → question → answer, and a click on an answered clue is ignored. The handler does not
  use `showing`; it keys on the text the cell displays (jeopardy.js:142). An answered cell
  therefore ignores a click only when the answer is not the text `"?"` or equals the
  question, and a clue whose question is `"?"` never reaches its answer
  (`AnsweredCellFixed`, `PlaceholderQuestionStalls`). When neither text is `"?"`, clicks
  follow the doc comment's machine exactly (`RevealSequence`). The `showing` property itself
  stays `null` throughout.

## Model

| member | source | states |
|---|---|---|
| `Sampling.Map` | jeopardy.js:37 | lodash's `_.map`, used again for `Array.map` at line 64: the result has one element per input element, and element i is `f` applied to input element i |
| `Sampling.SampleSize` | jeopardy.js:36 | the sample has exactly `min(n, pool size)` elements, drawn without replacement (its multiset is contained in the pool's), every element is in the pool, and a duplicate-free pool gives a duplicate-free sample |
| `Sampling.SampleFrom` | jeopardy.js:36 | from draw k on, the remaining picks have `min(n, pool size)` elements, are a sub-multiset of the pool, and are distinct when the pool is |
| `Categories.ValidIds` | jeopardy.js:33-35 | a candidate is kept if and only if it is in the response and its `clues_count` equals `questionNum`; the result is a sub-multiset of the response |
| `Categories.ValidIdsCount` | jeopardy.js:33-35 | a kept candidate occurs in the filtered list as often as in the response; any other candidate occurs zero times |
| `Categories.ValidIdsUnique` | jeopardy.js:33-35 | if the response's ids are pairwise distinct, so are the filtered candidates' ids |
| `Categories.SampleUniqueIds` | jeopardy.js:36-37 | a duplicate-free selection from candidates whose ids are pairwise distinct again has pairwise distinct ids |
| `Categories.GetCategoryIds` | jeopardy.js:30-39 | returns `min(catNum, number of valid candidates)` ids; they are the ids of a without-replacement selection of valid candidates; every id belongs to a candidate with `clues_count == questionNum`; the ids are distinct when the response's ids are |
| `Categories.ValidClues` | jeopardy.js:56-58 | a clue is kept if and only if it is in the response and has a non-empty question and a non-empty answer; the result is a sub-multiset of the response's clues |
| `Categories.ValidCluesCount` | jeopardy.js:56-58 | a complete clue occurs in the filtered list as often as in the response; an incomplete one occurs zero times |
| `Categories.ToClue` | jeopardy.js:64-70 | the `map` callback: a clue object with the source's question and answer and `showing` null. Definition; properties in `Categories.SourceOfToClue` and `Categories.GetCategory` |
| `Categories.SourceOfToClue` | jeopardy.js:64-70 | the `{question, answer, showing}` objects built from the sampled clues give back exactly those clues' question/answer pairs |
| `Categories.GetCategory` | jeopardy.js:52-79 | returns a category if and only if at least `questionNum` clues survive the filter. The category has the response's title and exactly `questionNum` clues. Each clue has a non-empty question and answer and `showing` null. The clues are copies of distinct filtered clues. Otherwise it returns nothing |
| `Board.FetchAll` | jeopardy.js:92-95 | the entries the push loop appends, one per id and in id order. Definition; properties in `Board.FetchAllAt` and `Board.Game.FetchCategories` |
| `Board.FetchAllAt` | jeopardy.js:92-95 | `categories` after the push loop has one entry per id, and entry k is the result of the call for id k |
| `Board.FetchedEntry` | jeopardy.js:93-94 | entry k of `categories` is `getCategory` applied to the response for the k-th id with the k-th call's draws |
| `Board.LoadedBoard` | jeopardy.js:92-95 | `categories` has one entry per selected id. Entry k is defined if and only if the response for id k has at least `questionNum` complete clues, and then it has that response's title and `questionNum` complete clues showing null. So all entries are defined if and only if every selected category has enough complete clues |
| `Board.FullBoard` | jeopardy.js:92-95 | with at least `catNum` valid candidates, each with enough complete clues, the board is `catNum` defined categories of `questionNum` clues each |
| `Board.ClueAt` | jeopardy.js:137-140 | the lookup `categories[currCat].clues[clueIdx]`: the clue when the category index is in range, its entry is defined and the clue index is in range, otherwise nothing (the lookup throws). Definition; properties in `Board.AfterClick` and `Board.MissingColumnIgnored` |
| `Board.Clicked` | jeopardy.js:142-148 | the handler's branch on the displayed text: `"?"` becomes the question, any other text becomes the answer with the highlight set. Definition; properties in `Board.ClickAdvances`, `Board.AnsweredCellFixed` and `Board.RevealSequence` |
| `Board.AfterClick` | jeopardy.js:135-149 | a click changes only the clicked cell, and never a row id or a cell class. When the cell's class and row id find a clue, the cell becomes `Clicked(cell, clue)`; otherwise the handler throws and the table is unchanged |
| `Board.ClickAdvances` | jeopardy.js:126-149 | when neither question nor answer is `"?"`, a click moves a cell from placeholder to question to answer (highlighted), and the answer stays, following the doc comment's `showing` machine |
| `Board.AnsweredCellFixed` | jeopardy.js:142-148 | a cell showing the highlighted answer is unchanged by a further click if and only if the answer is not `"?"` or equals the question |
| `Board.PlaceholderQuestionStalls` | jeopardy.js:142-144 | a cell showing a question that is itself `"?"` is unchanged by a click, so its answer is never shown |
| `Board.RevealSequence` | jeopardy.js:126-149 | from the placeholder, after n clicks the cell shows the placeholder (n = 0), the question (n = 1) or the highlighted answer (n ≥ 2). Every click after the second leaves it unchanged, and its class never changes |
| `Board.RepeatedClicks` | jeopardy.js:135-149 | on a laid-out table, n clicks on row r, cell c act on clue r of category c exactly as n clicks on that clue do. The layout is kept and every other cell is untouched |
| `Board.CellReveal` | jeopardy.js:111-149 | on a fresh table, clicking row r, column c walks clue r of category c through placeholder, question and answer, and no other cell changes |
| `Board.MissingColumnIgnored` | jeopardy.js:137-139 | a click in a column with no category (fewer than `catNum` were selected) leaves the table unchanged |
| `Board.Game.constructor` | jeopardy.js:21 | the page starts with no categories and no table |
| `Board.Game.RemoveTable` | jeopardy.js:121 | the table, its header and its rows leave the page; `categories` is kept |
| `Board.Game.FillTable` | jeopardy.js:89-124 | `categories` becomes the fetched entries for the selected ids, in order. The attempt loads if and only if every entry is defined, and then the header holds the titles in order and the grid is fresh. Otherwise the table is removed and the attempt retries |
| `Board.Game.BuildTable` | jeopardy.js:98-121 | after the fetch loop, the build loads if and only if every entry of `categories` is defined, and then the table is on the page with the titles in order as its header and a fresh grid. Otherwise the table is removed, with an empty header and no rows |
| `Board.Game.FetchCategories` | jeopardy.js:92-95 | `categories` is reset and then holds one fetched entry per id, in id order |
| `Board.Game.AppendHeader` | jeopardy.js:106-108 | the header loop completes if and only if no entry is `undefined`, and then the header is the titles in order |
| `Board.Game.AppendRows` | jeopardy.js:111-117 | the grid has exactly `questionNum` rows with ids 0.., each of `catNum` cells. Cell j of every row has class j, shows `"?"` and is not highlighted |
| `Board.Game.HandleClick` | jeopardy.js:135-149 | the handler runs if and only if the cell's class and row id find a clue. The table becomes `AfterClick` of the old table, and `categories`, the header and the table's presence are unchanged |

## Left out

- The HTTP requests to jservice.io (jeopardy.js:31, 53) are not modelled. Their responses are parameters: the candidate list, and a function from id to category response. A failed request, which would also land in the `catch`, is not modelled.
- The randomness of `_.sampleSize` is not modelled. The draws are a parameter, and no distribution is claimed.
- SampleSize: lodash's exact partial-shuffle order for given random numbers is not reproduced. The model states only what every lodash sample satisfies: its size, that it is drawn without replacement, and that its elements come from the pool.
- The jQuery markup, styling and HTML interpolation of titles (jeopardy.js:98-104, 107, 115, 143, 146-147) are kept only as the abstract state: table present, header titles, rows of cells with text and highlight.
- The retry in the `catch` (jeopardy.js:122) is not modelled as a loop. `FillTable` returns `Retry`, and the next attempt is a new call. Its unbounded repetition and racing rebuilds are left out.
- Loading-view toggling, button wiring, `setTimeout` and the window-load bootstrap (jeopardy.js:151-198) are UI plumbing and are left out. So is attaching the click handler (jeopardy.js:104).
- Board.Game.HandleClick: it requires that the click lands on a clue cell of the table. A click on the table body itself (empty class) would throw in the code; that case is not modelled.
- The handler's test of the cell text against `"?"` is an exact comparison in the model. The whitespace normalisation the browser may apply to `innerText` is not modelled.
- Questions, answers and titles are strings. The code's `!== ''` test would also keep non-string values the service might send; those are not modelled.
