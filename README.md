# Jeopardy board: a Dafny model of jeopardy.js

This project models the client-side core of a browser Jeopardy game
(`jeopardy.js`): the Fisher–Yates `shuffle`, the sampling pipelines
`getCategoryIds` and `getCategoryData`, the `Promise.all` join of
`setupTheGame`, the row/column layout rule of `fillTable`, and the
click handlers `handleClickOfPlay`, `handleClickOfClue` and
`handleClickOfActiveClue`. The handlers work on the module-level variables
`categories`, `activeClue`, `activeClueMode` and `isPlayButtonClickable`.

Files and modules:

- `seqs.dfy` (`Seqs`): `filter`, `find` and "no repeated key", used throughout.
- `data.dfy` (`Data`): the constants `NUMBER_OF_CATEGORIES = 6` and
  `NUMBER_OF_CLUES_PER_CATEGORY = 5`, the API records, and the board records.
- `shuffle.dfy` (`Shuffle`): the in-place shuffle on an `array`, proved equal to a
  specification function `Shuffled` and to be a permutation.
  `Math.floor(Math.random() * (i + 1))` is an oracle `draws` with `draws[i] <= i`.
- `sampler.dfy` (`Sampler`): `getCategoryIds`, `getCategoryData` and the join,
  as pure functions of the fetched responses. A response of `None` is a
  failed request or a body that could not be processed.
- `board.dfy` (`Board`): `fillTable` as a method with its nested loops.
- `game.dfy` (`Game`): the handlers twice. First as functions on a `State`
  value, with lemmas about single clicks and about runs of clicks. Then as the
  class `Game`, whose fields are the four variables and whose methods are the
  handlers, each proved to follow the function.

A handler that throws a `TypeError` is modelled by the panel result
`Crashed`. Its state changes are kept exactly as far as the code got before
the throw.

## Behaviour as written

The model follows the code where it differs from the game's intended design:

- Clue selection has no stage guard. Clicking a cell while another clue is
  open replaces `activeClue` and sets stage 1 (`ClueClicked`).
- The end-of-game branch tests `categories.length === 0`
  (jeopardy.js:170), not "every clue list is empty". On a board with any
  category, "The End!" is never shown (`NeverTheEndOnABoard`).
  Play becomes clickable again only in `handleClickOfClue`, when the last
  clue is removed.
- A failed start does not restore `isPlayButtonClickable`. Lines 35-38 only
  re-enable the DOM button. After a first start whose detail request failed
  (the start throws before `categories` is assigned) or whose category-list
  request failed, no click has any effect any more
  (`FailedFirstStartIsFinal`). After a restart whose detail request failed,
  Play stays locked (`FailedRestartLocksPlay`). A restart whose category-list
  request failed while a question or its answer was open is an exception.
  The panel clicks that follow show the old answer if it was not yet shown,
  then "The End!", and Play becomes clickable again
  (`EmptyRestartEndsOpenClue`, `EmptyRestartEndsShownAnswer`). A start whose
  board is too short to draw is another exception (see below).
- A failed category-list request is caught and turned into `[]`. The start
  then reports "Game Ready!" with an empty board
  (`FailedListFetchGivesEmptyBoard`, `FailedFirstStartIsFinal`).
- `categories` is assigned before `fillTable` runs. Eligibility is judged on
  `clues_count`, but clues without a question or answer are dropped later. So a
  category can come back with fewer than five clues
  (`EligibleCategoryCanFallShort`). `fillTable` then throws, the start
  alerts, and the short board is still installed (`PlayClicked`,
  `FullBoardIffEnoughUsableClues`). Its drawn cells still work, and Play is
  raised again once every clue of the board is removed (`ShortStartStillPlays`,
  `SingleClueGame`). Only the rows before the shortest category ran out are
  drawn, so on the page this happens only when all categories are equally
  short.
- A viewed cell stays clickable. Clicking it again leaves stage 1 with no
  active clue. So "an open clue exists exactly in stages 1 and 2" does not
  hold. Only "stage 0 has no open clue" is kept
  (`ViewedCellLeavesQuestionWithoutClue`, `RunKeepsConsistent`).
- A restart does not reset `activeClueMode` or `activeClue`
  (`RestartKeepsOpenClue`).

## Model

| member | source | states |
|---|---|---|
| `Shuffle.ShuffleDown` | jeopardy.js:62-65 | the loop steps from `i` down to 1 keep the length, leave every position above `i` alone, and put the drawn element `s[draws[i]]` at position `i` |
| `Shuffle.Shuffled` | jeopardy.js:61-67 | the shuffle keeps the length and its last position holds the element drawn for it |
| `Shuffle.Shuffle` | jeopardy.js:61-67 | returns the same array; its new contents are `Shuffled` of the old ones, and they are a permutation (same multiset) of the old ones |
| `Shuffle.Swap` | jeopardy.js:64 | the destructuring swap puts `s[j]` at `i` and `s[i]` at `j` and leaves every other position alone |
| `Shuffle.SwapPermutes` | jeopardy.js:64 | one swap keeps the multiset of elements |
| `Shuffle.ShuffleDownPermutes` | jeopardy.js:62-65 | any tail of the loop, for any admissible draws, keeps the length and the multiset |
| `Shuffle.ShuffledPermutes` | jeopardy.js:61-67 | for every draw sequence with `0 <= draws[i] <= i`, the shuffle is a permutation of its input |
| `Shuffle.ShuffledPrefix` | jeopardy.js:74-75 | the first `n` elements of a shuffle take no element more often than it occurs in the input |
| `Shuffle.ShuffledPrefixKeepsDistinctBy` | jeopardy.js:74-75 | the first `n` elements of a shuffle have pairwise distinct keys when the input has |
| `Shuffle.SwapKeepsDistinctBy` | jeopardy.js:64 | a swap never makes two elements share a key |
| `Shuffle.ShuffleDownKeepsDistinctBy` | jeopardy.js:62-65 | any tail of the loop keeps keys pairwise distinct |
| `Shuffle.ShuffledKeepsDistinctBy` | jeopardy.js:61-67 | shuffling keeps keys pairwise distinct |
| `Seqs.Filter` | jeopardy.js:72 | `filter` keeps exactly the members satisfying the predicate, never grows, and keeps the length exactly when every element passes |
| `Seqs.FilterCounts` | jeopardy.js:72 | `filter` keeps each passing element as many times as it occurs, and no failing element |
| `Seqs.FilterAppend` | jeopardy.js:72 | filtering a concatenation is the concatenation of the filtered parts, so the order of the kept elements is the original order |
| `Seqs.FindFirst` | jeopardy.js:140-141 | `find` returns the first index whose element satisfies the predicate, or none when no element does |
| `Seqs.FilterKeepsDistinctBy` | jeopardy.js:72 | filtering keeps keys pairwise distinct |
| `Sampler.IsEligible` | jeopardy.js:72 | a missing `clues_count` is not eligible; a present one is eligible exactly when it is at least 5 |
| `Sampler.GetCategoryIds` | jeopardy.js:69-81 | a failed fetch yields `[]`; otherwise `min(6, #eligible)` ids, each the id of an input category with `clues_count >= 5` |
| `Sampler.GetCategoryIdsDistinct` | jeopardy.js:72-75 | the ids are pairwise distinct when the input categories' ids are |
| `Sampler.IsUsable` | jeopardy.js:90 | a clue with a missing or empty question, or a missing or empty answer, is not usable; one with both non-empty is |
| `Sampler.ChooseClues` | jeopardy.js:90-91 | `min(5, #usable)` clues are chosen, each usable and each from the response's clue list, and together a sub-multiset of the usable clues (none taken twice) |
| `Sampler.GetCategoryData` | jeopardy.js:83-105 | fails exactly when the request fails; otherwise returns the requested id and the fetched title, with `min(5, #usable)` clues, each with non-empty question and answer copied from a clue of the response with the same id |
| `Sampler.GetCategoryDataDistinct` | jeopardy.js:90-98 | when the response lists each clue id once, the category's clues have pairwise distinct ids: no clue is chosen twice |
| `Sampler.ClueValue` | jeopardy.js:97 | the value is never 0: a truthy value is kept, and otherwise it is a positive multiple of 200 whose factor is the 1-based rank |
| `Sampler.Normalise` | jeopardy.js:93-98 | one clue per chosen clue, in order, with its id, its non-empty question and answer, and the value `ClueValue` gives for its position |
| `Sampler.ClueValueFallback` | jeopardy.js:93-98 | a truthy value is kept; a missing or zero value at position `i` becomes `(i+1)*200`, which lies in {200, ..., 1000} |
| `Sampler.FetchAll` | jeopardy.js:54 | the join succeeds exactly when every request succeeds, and then gives one category per id, in the order of the ids |
| `Sampler.SetupTheGame` | jeopardy.js:53-54 | setup fetches exactly when every detail request succeeds; then it gives at most 6 categories, the k-th carrying the k-th id and `min(5, #usable)` clues |
| `Sampler.FailedListFetchGivesEmptyBoard` | jeopardy.js:77-80 | a failed category-list request makes setup succeed with no categories |
| `Sampler.FullBoardIffEnoughUsableClues` | jeopardy.js:90-91 | a fetched board can fill every row exactly when each category had at least 5 usable clues |
| `Sampler.EligibleCategoryCanFallShort` | jeopardy.js:72-91 | a category eligible by `clues_count` but with one clue lacking a question gives four clues, so the board is not full |
| `Board.CellAt` | jeopardy.js:123-127 | the cell carries its category's id, its clue's id and its clue's value |
| `Board.FillTable` | jeopardy.js:107-131 | header k is category k's title; the table completes exactly when every category has 5 clues; cell (r, c) is category c's clue r with its value; on failure the rows drawn are those before the shortest category runs out |
| `Game.LookupCategory` | jeopardy.js:140 | finds the first category with the id, or reports that none has it |
| `Game.LookupClue` | jeopardy.js:141 | finds the first clue of the list with the id, or reports that none has it |
| `Game.RemoveClue` | jeopardy.js:142 | keeps exactly the clues with another id, each as many times as it occurred, and is shorter when a clue with the id was present |
| `Game.AllCluesViewed` | jeopardy.js:143 | `every` list is empty exactly when the board holds no clue at all |
| `Game.ClueClicked` | jeopardy.js:134-151 | unknown category: no change, throws; otherwise only that category's clues change, losing exactly the clues with the id and keeping every other clue as many times as it occurred; the clue becomes active and the stage 1 whatever it was; Play becomes clickable exactly when all clue lists are empty, else keeps its value |
| `Game.ActiveClueClicked` | jeopardy.js:155-177 | the board never changes; stage 0: nothing changes; stage 1 goes to 2 and shows the open clue's answer (throws without one); stage 2 goes to 0, drops the clue and clears the panel; "The End!" appears exactly when an answer is dismissed with no categories, and only then is Play raised |
| `Game.PlayClicked` | jeopardy.js:20-39 | Play is ignored while the flag is false; otherwise the flag becomes and stays false, the open clue and stage are untouched, categories change only on a successful fetch, and "Game Ready!" is reported exactly when the fetched board is full |
| `Game.ActiveClickCycle` | jeopardy.js:155-177 | from stage 1: stage 2 with the same clue, then stage 0 with no clue, then no change |
| `Game.ClueClickShrinksBoard` | jeopardy.js:140-142 | a click on a present clue removes at least one clue from the board; any other click removes none |
| `Game.ViewedCellLeavesQuestionWithoutClue` | jeopardy.js:141-163 | re-clicking a viewed cell throws and leaves stage 1 with no clue; the next panel click moves to stage 2 and throws |
| `Game.RestartKeepsOpenClue` | jeopardy.js:20-39 | a restart leaves the open clue and its stage, so the next panel click shows the previous game's answer |
| `Game.SelectThenDismiss` | jeopardy.js:134-177 | select, click, click shows the question, then the answer, then clears the panel, ends in stage 0 with no clue, and leaves the Play flag as the selection set it |
| `Game.RunKeepsConsistent` | jeopardy.js:134-177 | every run of clicks keeps "stage 0 has no open clue" |
| `Game.ClicksOnlyRemoveClues` | jeopardy.js:140-176 | until the next restart, clicks keep the number of categories and each one's id and title, and every clue left on the board was there before: a removed clue never comes back |
| `Game.NeverTheEndOnABoard` | jeopardy.js:170-175 | with at least one category, no run of clicks before a restart leads to "The End!" |
| `Game.DeadGameStaysDead` | jeopardy.js:21-158 | with no categories, stage 0 and the Play flag false, every run of clicks leaves the state unchanged |
| `Game.FailedFirstStartIsFinal` | jeopardy.js:20-39 | a first start whose detail request failed (`Threw`), or whose category-list request failed (no categories), ends in a state no click can change |
| `Game.EmptyRestartEndsOpenClue` | jeopardy.js:155-177 | a restart whose list request failed, made while a question is open, installs no categories; two panel clicks then show the old answer and "The End!" and raise Play again |
| `Game.EmptyRestartEndsShownAnswer` | jeopardy.js:164-175 | a restart whose list request failed, made while an answer is shown, installs no categories; one panel click then shows "The End!", closes the clue and raises Play again |
| `Game.ShortStartStillPlays` | jeopardy.js:20-151 | a start on a non-empty board too short to draw reports an error with Play locked, yet a click on one of its clues shows the question and changes the state, and Play comes back exactly when no clue is left |
| `Game.LockedWithoutCells` | jeopardy.js:155-176 | with categories present and the flag false, clicks on Play and on the panel never raise the flag |
| `Game.FailedRestartLocksPlay` | jeopardy.js:28-38 | a restart whose detail request failed reports the error and leaves Play locked for every later run of Play and panel clicks |
| `Game.SingleClueGame` | jeopardy.js:83-177 | one category with one valueless clue: the clue is worth 200, the start alerts (one row of five), viewing it re-enables Play, and dismissing its answer clears the panel rather than showing "The End!" |
| `Game.Game.constructor` | jeopardy.js:8-15 | the variables start with no categories, no clue, stage 0 and Play clickable |
| `Game.Game.HandleClickOfPlay` | jeopardy.js:20-39 | the new variables and the result are those of `PlayClicked`, and "stage 0 has no open clue" is kept |
| `Game.Game.HandleClickOfClue` | jeopardy.js:134-151 | the new variables and the panel are those of `ClueClicked`, and the invariant is kept |
| `Game.Game.HandleClickOfActiveClue` | jeopardy.js:155-177 | the new variables and the panel are those of `ActiveClueClicked`, and the invariant is kept; outside stage 2 the board and the open clue are untouched, and a click ending in stage 0 leaves no clue open and does not throw |

## Left out

- Network access (`axios.get`, lines 71 and 86) is left out. Responses are
  inputs, and a failed or malformed response is `None`. The base URL
  `API_URL` and the URL strings are left out for the same reason.
- The `Promise.all` fan-out is not modelled as concurrency. Responses are
  taken in the order of the ids, and the whole start runs as one step, so
  clicks made while it awaits are not modelled.
- `Math.random` and `Math.floor` are floating point. They are replaced by the
  `draws` oracle. Uniformity (an unbiased shuffle) is not modelled.
- All DOM work is left out: table elements, the `viewed` class, the spinner,
  the button's text and `disabled`, `alert` and `console.error`. The
  active-clue panel is reduced to the `Panel` result, and `fillTable` to the
  header titles and the cell grid.
- The handlers update category objects in place (`category.clues = ...`).
  The model replaces the element of the `categories` sequence instead, so
  aliasing between those objects and other references is not captured.
- JavaScript truthiness is modelled only for the shapes the API sends.
  Question and answer are an optional string. Value and `clues_count` are an
  optional integer. `NaN`, fractional values and values of other types are
  not modelled.
- The model's click events may name any keys, while the page only offers
  cells that exist. The lemmas about locked states state which clicks they
  assume.
