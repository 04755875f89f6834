# Jeopardy quiz: game board, question editor and leaderboard in Dafny

This project models the core logic of a browser "Jeopardy"-style quiz. Before a
game, an editor builds a catalog of categories. Each category holds five
questions worth 100 to 500 points. During a game, players join at a table and
take turns opening unanswered questions. The host marks each answer correct or
wrong, which adds the question's points to the player to move or subtracts them.
When the game ends, every player's final score is merged into a leaderboard that
keeps its ten best rows.

The model follows the three React components that hold this logic:

- `GameBoard.Board` is a class whose fields are the component's state: the
  catalog, the leaderboard, the open question, the answer flag, the players, the
  player dialog and the turn index. Its methods are the event handlers, and each
  method's `ensures` states the complete new state.
- `QuestionEditor` gives the catalog rewrites as pure functions on
  `seq<Category>`. They are `AppendCategory`, `RemoveCategory` and
  `PatchQuestion`, and lemmas state their meaning. The `Editor` class holds the
  selection and the draft being edited.
- `Leaderboard.TopScores` is the top-ten expression. It is specified as a stable
  sort by descending score followed by a cut at ten. Lemmas prove it is the only
  sorted arrangement that keeps tied rows in their input order.

Two behaviours of the code are modelled as written:

- **The turn index is never reset.** Neither ending the game nor removing a
  player touches `currentPlayer`. If the next game has no more players than the
  index (for example one player while the index is still 1), the first "correct"
  or "wrong" click reads a player that does not exist and throws. `Board.MarkCorrect` and `Board.MarkWrong` report this as the
  `TypeError` outcome, which leaves the state unchanged.
  `GameBoard.StaleTurnAfterEndGame` builds one such run through the handlers: two players join, the game starts, a question is opened, revealed and judged correct, the game ends, one player joins, the next game starts, and the first revealed question's verdict throws.
- **Nothing keeps category and question ids unique.** Ids come from the clock.
  Two categories added in the same millisecond share their ids
  (`QuestionEditor.SameMillisecondSameId`). An edit saved after switching to
  another category reaches no question and is lost
  (`QuestionEditor.PatchWithoutTargetIsNoOp`).

Files:

| file | contents |
|---|---|
| `options.dfy` | `Option` type |
| `text.dfy` | `String.prototype.trim` and decimal rendering of the clock |
| `catalog.dfy` | the `Question` and `Category` records |
| `leaderboard.dfy` | top-ten leaderboard |
| `game_board.dfy` | the game |
| `question_editor.dfy` | the editor |

## Model

| member | source | states |
|---|---|---|
| Text.Trim | src/components/GameBoard.tsx:43-44 | `String.prototype.trim`: strips ECMAScript white space and line terminators from both ends; its properties are the lemmas below |
| Text.TrimStartSpec | src/components/GameBoard.tsx:43 | trimming the front drops only white space and stops at the first visible character |
| Text.TrimEndSpec | src/components/GameBoard.tsx:43 | trimming the back drops only white space and stops at the last visible character |
| Text.TrimSpec | src/components/GameBoard.tsx:43-44 | a trimmed name is no longer than the input; if it is non-empty, it starts and ends with a visible character |
| Text.TrimEmptyIff | src/components/GameBoard.tsx:43 | `name.trim()` is falsy exactly when the name is all white space |
| Text.TrimKeepsTrimmed | src/components/QuestionEditor.tsx:39 | a name with visible ends is kept as it is |
| Text.TrimIdempotent | src/components/QuestionEditor.tsx:39 | trimming twice is trimming once |
| Text.NatToString | src/components/QuestionEditor.tsx:38 | `Date.now().toString()` is a non-empty string of decimal digits, one digit long exactly below 10 |
| Text.NatToStringInjective | src/components/QuestionEditor.tsx:38 | different clock readings give different category ids |
| Leaderboard.Insert | src/components/Leaderboard.tsx:9 | one insertion step grows the list by one row and keeps every row |
| Leaderboard.InsertSorted | src/components/Leaderboard.tsx:9 | inserting into a list sorted by descending score keeps it sorted |
| Leaderboard.SortByScore | src/components/Leaderboard.tsx:9 | `sort((a, b) => b.score - a.score)` returns a permutation of its input, sorted by descending score |
| Leaderboard.InsertTies | src/components/Leaderboard.tsx:9 | an insertion places the new row in front of the rows that tie with it |
| Leaderboard.SortByScoreStable | src/components/Leaderboard.tsx:9 | for every score, the rows with that score keep their input order |
| Leaderboard.WithScoreAppend | src/components/Leaderboard.tsx:9 | the tied rows of a concatenation are the tied rows of each part, in order |
| Leaderboard.WithScoreHasRow | src/components/Leaderboard.tsx:9 | a score that has tied rows is the score of some row |
| Leaderboard.StableOrderUnique | src/components/Leaderboard.tsx:9 | two sorted lists that agree on the order of every group of ties are equal |
| Leaderboard.SortByScoreIsTheStableSort | src/components/Leaderboard.tsx:9 | any stable descending sort of the scores is exactly the sort of the model |
| Leaderboard.TopScores | src/components/Leaderboard.tsx:9 | the leaderboard has min(10, n) rows, is sorted by descending score, and holds only rows of the input |
| Leaderboard.SortedSplit | src/components/Leaderboard.tsx:9 | in a list sorted by descending score, no row after a cut scores more than a row before it |
| Leaderboard.TopScoresKeepsHighest | src/components/Leaderboard.tsx:9 | no dropped row scores more than a kept one |
| Leaderboard.TopScoresStable | src/components/Leaderboard.tsx:9 | among ties, the leaderboard keeps the earliest rows of the input, in input order |
| Leaderboard.SortSortedIsIdentity | src/components/Leaderboard.tsx:9 | sorting a list that is already sorted changes nothing |
| Leaderboard.TopScoresIdempotent | src/components/Leaderboard.tsx:9 | taking the top ten of the top ten changes nothing |
| Leaderboard.MergeExample | src/components/GameBoard.tsx:97-102 | an old 1000-point row stays first above the new final scores 300 and -250, and the negative score is kept |
| Leaderboard.TieExample | src/components/Leaderboard.tsx:9 | a higher row moves in front, and two tied rows keep their input order behind it |
| Leaderboard.SortTiedRunThenHigher | src/components/Leaderboard.tsx:9 | a run of tied rows followed by one higher row sorts to the higher row, then the run in its order |
| Leaderboard.CutTiedRun | src/components/GameBoard.tsx:99 | when ten tied leaderboard rows meet one better final score, the new row leads and the latest of the old rows is cut |
| Leaderboard.CutExample | src/components/GameBoard.tsx:99 | ten rows of 100 points plus a new 200-point row: the new row leads, and the tenth old row is the one dropped |
| GameBoard.Lookup | src/components/GameBoard.tsx:56-57 | the `find` / `?.find` chain; a question it finds has the requested id |
| GameBoard.LookupValue | src/components/GameBoard.tsx:56-57 | the question found is the catalog's own: the first question with the id, in the first category with the id |
| GameBoard.LookupSpec | src/components/GameBoard.tsx:56-57 | with no category of the id nothing is found; otherwise only the first category with the id is searched, and the question is found exactly when that category holds one with the id |
| GameBoard.CategoryIndex | src/components/GameBoard.tsx:56 | `find` yields the first category with the id, or none |
| GameBoard.QuestionIndex | src/components/GameBoard.tsx:57 | `find` yields the first question with the id, or none |
| GameBoard.MarkAnswered | src/components/GameBoard.tsx:84-89 | every question with the id, in every category, becomes answered; ids, names, points, texts, order and other flags stay the same |
| GameBoard.ResolvedQuestionCannotReopen | src/components/GameBoard.tsx:56-58 | after a question is marked answered, selecting it again finds it answered or not at all, so it cannot reopen |
| GameBoard.MarkAnsweredIdempotent | src/components/GameBoard.tsx:84-89 | answering a question twice is answering it once |
| GameBoard.AdjustScore | src/components/GameBoard.tsx:66-67 | only the player to move changes, by exactly the given amount |
| GameBoard.AdjustScoreTotal | src/components/GameBoard.tsx:66-67 | the points on the table change by exactly the question's value |
| GameBoard.NextTurn | src/components/GameBoard.tsx:93 | the turn passes to the next seat and wraps from the last seat to the first |
| GameBoard.AdvanceWithinRound | src/components/GameBoard.tsx:93 | before the last seat, k resolved questions move the turn k seats along |
| GameBoard.AdvanceCompose | src/components/GameBoard.tsx:93 | advancing a + b turns is advancing a and then b |
| GameBoard.WrapAround | src/components/GameBoard.tsx:93 | past the last seat the turn continues from the first |
| GameBoard.FullRoundReturns | src/components/GameBoard.tsx:93 | after one question per player, the turn is back where it started |
| GameBoard.EveryPlayerGetsATurn | src/components/GameBoard.tsx:93 | every seated player is to move within fewer questions than there are players |
| GameBoard.FinalScores | src/components/GameBoard.tsx:98 | one leaderboard row per player, in seat order; row i carries seat i's name and score |
| GameBoard.FinalScoresTotal | src/components/GameBoard.tsx:98 | the final rows carry exactly the points that were on the table |
| GameBoard.RemoveAt | src/components/GameBoard.tsx:133 | filtering out seat idx shortens the list by one exactly when idx is on the list |
| GameBoard.RemoveAtSpec | src/components/GameBoard.tsx:133 | removal keeps everyone but seat idx, in order; an index off the list removes nobody |
| GameBoard.Board.constructor | src/components/GameBoard.tsx:35-40 | a new board has no players, no open question and the player dialog open, and the first seat is to move |
| GameBoard.Board.AddPlayer | src/components/GameBoard.tsx:42-47 | a name that is not blank joins at the end, trimmed, with score 0; a blank name changes nothing; a valid turn index stays valid |
| GameBoard.Board.RemovePlayer | src/components/GameBoard.tsx:133 | the player list loses exactly seat idx; the turn index is not adjusted |
| GameBoard.Board.StartGame | src/components/GameBoard.tsx:49-53 | the dialog closes only if somebody has joined |
| GameBoard.Board.DismissPlayerDialog | src/components/GameBoard.tsx:106 | dismissing the dialog closes it, even with nobody seated |
| GameBoard.Board.SelectQuestion | src/components/GameBoard.tsx:55-62 | an existing, unanswered question opens with its answer hidden; otherwise nothing changes |
| GameBoard.Board.RevealAnswer | src/components/GameBoard.tsx:229 | the answer is shown |
| GameBoard.Board.CloseQuestion | src/components/GameBoard.tsx:205 | the question closes unresolved |
| GameBoard.Board.MarkAsAnswered | src/components/GameBoard.tsx:82-95 | with a question open: it is answered catalog-wide, closed and hidden, and the turn passes on (and stays in range); otherwise nothing changes |
| GameBoard.Board.MarkCorrect | src/components/GameBoard.tsx:64-71 | with no open question or no players nothing happens; a stale turn index throws with nothing changed; otherwise the player to move gains the points, the others stay the same, and the question is resolved |
| GameBoard.Board.MarkWrong | src/components/GameBoard.tsx:73-80 | as MarkCorrect, but the player to move loses the points |
| GameBoard.Board.EndGame | src/components/GameBoard.tsx:97-102 | the leaderboard becomes the top ten of the old rows followed by the final scores, at most ten rows, sorted; the table empties and the dialog reopens; the turn index is untouched |
| GameBoard.TwoPlayerBoard | src/components/GameBoard.tsx:42-47 | joining "A" and then "B" seats exactly those two players at score 0; starting the game closes the dialog, with the first seat to move |
| GameBoard.FirstQuestionScored | src/components/GameBoard.tsx:64-95 | after the first question is scored, the first player has 100 points, the second 0, the second seat is to move, and the other question is still unanswered |
| GameBoard.NextGameWithOnePlayer | src/components/GameBoard.tsx:97-102 | after the game ends, one player joins and the next game starts, the turn index and catalog carry over |
| GameBoard.StaleTurnAfterEndGame | src/components/GameBoard.tsx:64-67 | a second game with no more players than the carried-over turn index throws on its first verdict |
| QuestionEditor.TierId | src/components/QuestionEditor.tsx:41-45 | a tier's question id is the clock rendering, a `-`, and that tier's own digit |
| QuestionEditor.NewCategory | src/components/QuestionEditor.tsx:37-47 | a new category has the clock as id and five blank, unanswered questions worth 100, 200, 300, 400 and 500, the j-th with id `<clock>-j` |
| QuestionEditor.TierIdsDiffer | src/components/QuestionEditor.tsx:41-45 | question ids of different tiers differ |
| QuestionEditor.NewQuestionIdsDistinct | src/components/QuestionEditor.tsx:41-45 | a new category's five question ids are pairwise distinct |
| QuestionEditor.NewCategoryIdIsTheClock | src/components/QuestionEditor.tsx:38 | two new categories share an id exactly when they were made at the same clock reading |
| QuestionEditor.AppendCategory | src/components/QuestionEditor.tsx:35-49 | a blank name changes nothing; otherwise the catalog gains one new category at the end, under the trimmed name, and keeps everything before it |
| QuestionEditor.SameMillisecondSameId | src/components/QuestionEditor.tsx:38 | two categories added at one clock reading share an id |
| QuestionEditor.RemoveCategory | src/components/QuestionEditor.tsx:58 | `filter` by id; never longer than the catalog, and the lemmas below give its contents and order |
| QuestionEditor.RemoveCategoryMembers | src/components/QuestionEditor.tsx:58 | exactly the categories with another id are kept |
| QuestionEditor.RemoveCategoryMissingId | src/components/QuestionEditor.tsx:58 | deleting an id no category has changes nothing |
| QuestionEditor.RemoveCategoryAppend | src/components/QuestionEditor.tsx:58 | deletion keeps the remaining categories in their order |
| QuestionEditor.RemoveCategoryIdempotent | src/components/QuestionEditor.tsx:58 | deleting twice is deleting once |
| QuestionEditor.Apply | src/components/QuestionEditor.tsx:74 | `{ ...q, ...updates }`: every field the update supplies replaces the question's, and every other field is kept |
| QuestionEditor.PatchQuestion | src/components/QuestionEditor.tsx:68-81 | only questions with the id, inside categories with the id, change, and they get exactly the supplied fields; the catalog keeps its shape |
| QuestionEditor.PatchWithoutTargetIsNoOp | src/components/QuestionEditor.tsx:68-81 | an update that addresses no question leaves the catalog as it was |
| QuestionEditor.PatchIdempotent | src/components/QuestionEditor.tsx:68-81 | applying an update twice is applying it once |
| QuestionEditor.TextPatchKeepsScoring | src/components/QuestionEditor.tsx:83-88 | saving texts never changes a question's id, points or answered flag |
| QuestionEditor.IsSelected | src/components/QuestionEditor.tsx:84 | the truthiness of `selectedCategory`: `null` and the empty id both count as nothing selected |
| QuestionEditor.Editor.constructor | src/components/QuestionEditor.tsx:31-32 | nothing is selected and nothing is being edited |
| QuestionEditor.Editor.AddCategory | src/components/QuestionEditor.tsx:35-55 | the catalog becomes AppendCategory of the name and the clock reading |
| QuestionEditor.Editor.DeleteCategory | src/components/QuestionEditor.tsx:57-66 | the catalog loses the categories with the id; a selection of that id is cleared, any other is kept |
| QuestionEditor.Editor.UpdateQuestion | src/components/QuestionEditor.tsx:68-81 | the catalog becomes PatchQuestion of the update |
| QuestionEditor.Editor.SaveQuestion | src/components/QuestionEditor.tsx:83-95 | with a draft and a selection, the draft's two texts go into the question with its id in the selected category, and the draft closes; otherwise nothing changes |
| QuestionEditor.Editor.SelectCategory | src/components/QuestionEditor.tsx:125 | the clicked category becomes selected |
| QuestionEditor.Editor.EditQuestion | src/components/QuestionEditor.tsx:163 | the draft is a copy of the clicked question |
| QuestionEditor.Editor.SetDraftQuestion | src/components/QuestionEditor.tsx:190-191 | typing changes only the draft's question text |
| QuestionEditor.Editor.SetDraftAnswer | src/components/QuestionEditor.tsx:202-203 | typing changes only the draft's answer text |
| QuestionEditor.Editor.CancelEdit | src/components/QuestionEditor.tsx:215 | the draft is dropped |

## Left out

- Rendering, icons, styling and toast notifications are left out. They are presentation and change no state.
- The text boxes' own state (`newPlayerName`, `newCategoryName`) is left out. Each handler takes the typed text as a parameter. Clearing the box after a successful add is not modelled.
- The clock: `addCategory` reads `Date.now()` six times, once for the category id and once per question id. The model takes a single reading, `now`. Real readings may differ by a millisecond between those calls.
- `src/pages/Index.tsx` is not part of this model. It covers tab navigation and the initial catalog, and it owns the state that the components receive as props. It starts the leaderboard at an empty list.
- The optional `specialType` mark of a question ("cat in the bag", "auction") is left out. It is set only in the initial catalog of `src/pages/Index.tsx`. No handler of the three components reads or writes it; the spreads at `src/components/GameBoard.tsx:87` and `src/components/QuestionEditor.tsx:74` simply carry it along.
- React's render scheduling is left out. Each handler is modelled as one atomic step on the state it reads. Components remounting and resetting their local state is not modelled either.
- JavaScript numbers are modelled as unbounded integers. Fractional or non-finite points cannot arise from the editor, which never changes points.
- A `Partial<Question>` field that is present but `undefined` is not modelled. Object spread would copy that `undefined` over the old value; in the model an absent field is `None` and keeps the old value. The code's only caller always supplies both texts.
- GameBoard.Board.RemovePlayer: the remove button only exists for seats on the list, so `idx` is always in range in practice. The model also accepts any integer and removes nobody when it is off the list.
