# A-League ladder predictor: the ladder engine in Dafny

This project models the ladder engine of the A-League ladder predictor
(`streamlit_app.py`). It covers three parts:

- **Creating the ladder.** One row per distinct club named in the fixture
  list. Each row has P, W, D, L, GF, GA, GD and PTS at zero and an empty form
  history.
- **`update_ladder`.** It folds an ordered list of predicted results
  `(home, away, home score, away score)` into the rows in place.
- **`sort_ladder`.** It returns the rows sorted in descending order on
  `(PTS, GD, GF, W)`, each with a 1-based position.

Modules:

- `Records` (`records.dfy`) holds the row, the fixture, the result and the form
  entries `Win | Draw | Loss`.
  - `UpdateRow` gives what one result does to one row. Every `ladder.loc[...]`
    update picks rows by club name. So a row is credited as the home side when
    its club is the home club, and then as the away side when its club is the
    away club. Its goal difference is then recomputed, as line 63 does for
    every row.
  - `Consistent` is the row invariant: P = W + D + L, PTS = 3W + D,
    GD = GF - GA, and the form holds exactly W wins, D draws and L losses.
- `Table` (`table.dfy`) treats the whole ladder as a sequence of rows.
  - `InitialLadder` builds the fresh ladder.
  - `Apply` gives the effect of one result on every row.
  - `ApplyAll` folds the results in order.
  - The lemmas cover the invariant, the form history and the league-wide sums
    of points, matches played and goal difference.
- `Ranking` (`ranking.dfy`) is the pure `sort_ladder`. It is a stable
  insertion sort on the four keys. Its contract states the sort's meaning:
  - the output is non-increasing in the key;
  - it is a permutation of the ladder;
  - rows level on all four keys keep their ladder order (`Ties`);
  - positions are 1..n.
- `Engine` (`engine.dfy`) is the stateful engine.
  - The class `Ladder` keeps the table as an `array<Team>` that its methods
    update in place. `ApplyResult` runs a loop over the rows for one result.
    `UpdateLadder` runs a loop over the results.
  - `DistinctClubs` derives the club list from the fixtures.
  - `Recompute` is the "Update Ladder" button: a fresh ladder, the results
    folded in, then the standings.

A stricter engine would reject results that name unknown clubs or carry
negative scores. This code rejects nothing, and the model follows the code:

- A club name with no row matches no row, so nothing is updated for that side.
  The other side is still updated (`Table.ApplySums`).
- A result naming one club on both sides updates that row twice
  (`Records.SameClubRow`).
- Negative scores are added like any others. Only the input widgets keep them
  out (lines 98 and 101).

The row invariant holds whatever the names and scores. The league-wide sums
need only that both clubs of every result have a row (`Known`), which holds
whenever the results come from fixture rows, as they do at the only call site
(lines 88-103). They hold too when one club is named on both sides. The
non-negativity of the counters needs non-negative scores.

Several values stay open or outside the model:

- The order of the clubs in the fresh ladder comes from a Python set, so it is
  not determined. `DistinctClubs` promises only that each club appears exactly
  once and that the clubs are those of the fixture list.
- The fixture list is an input sequence. Reading the CSV file is not part of
  this model.
- The results list is an input. The Streamlit widgets that collect it are not
  part of this model.

## Model

| member | source | states |
|---|---|---|
| `Records.HomeRow` | streamlit_app.py:31-60 | The home club of a result between two different clubs gets P+1, GF + home score and GA + away score. On a home win it gets W+1, PTS+3 and form `Win`; on a loss L+1, PTS unchanged and form `Loss`; on a draw D+1, PTS+1 and form `Draw`. Its GD is GF - GA afterwards. |
| `Records.AwayRow` | streamlit_app.py:31-60 | The mirror image for the away club: GF + away score, GA + home score, and the win, loss or draw seen from the away side. |
| `Records.UninvolvedRow` | streamlit_app.py:28-63 | A row whose club is on neither side only has its GD recomputed, so a consistent row is unchanged. |
| `Records.SameClubRow` | streamlit_app.py:29-63 | A result naming one club on both sides updates that row twice: P+2, both scores added to GF and to GA. It gets a win and a loss (PTS+3, form `Win, Loss` or `Loss, Win`) or two draws (PTS+2). The club is kept and its GD is GF - GA afterwards. |
| `Records.UpdateRowConsistent` | streamlit_app.py:31-63 | One result keeps P = W + D + L, PTS = 3W + D, GD = GF - GA and the form counts of every row, for any club names and scores. It never changes a row's club. |
| `Records.UpdateRowNonNegative` | streamlit_app.py:36-39 | With scores that are not negative, no counter of a row becomes negative. |
| `Records.NewTeamConsistent` | streamlit_app.py:12-23 | A fresh row, with zero counters and an empty form, satisfies the invariant and has no negative counter. |
| `Records.FormLength` | streamlit_app.py:46-60 | In a consistent row the form has exactly P entries. |
| `Table.InitialLadder` | streamlit_app.py:12-23 | The fresh ladder has one row per given club, in the given order. Every row is consistent, with P, PTS, GF and GA zero and an empty form. |
| `Table.ApplyKeeps` | streamlit_app.py:28-63 | Applying one result adds, removes and renames no row. It keeps every row consistent, and with non-negative scores it keeps every counter non-negative. |
| `Table.ApplyLeavesOthers` | streamlit_app.py:28-63 | Rows of clubs not named by the result are unchanged. |
| `Table.ApplyAllConsistent` | streamlit_app.py:26-63 | Any ordered list of results keeps the club column and the invariant of every row. |
| `Table.ApplyAllNonNegative` | streamlit_app.py:26-63 | With scores that are never negative, every counter stays non-negative over a whole list of results. |
| `Table.LadderInvariant` | streamlit_app.py:12-63 | Starting from the all-zero ladder, P = W + D + L, PTS = 3W + D and GD = GF - GA hold in every row after any list of results. |
| `Table.RowHistory` | streamlit_app.py:28-60 | After a list of results, each row's form is its old form followed by its club's outcome in each result that names it, in order. P grows by the number of those outcomes. |
| `Table.ApplySums` | streamlit_app.py:28-63 | Over the whole ladder, one result with any names adds each named side's points, one match played for each side, and that side's goal balance. A name without a row contributes nothing; a club named on both sides collects both shares. |
| `Table.ResultSums` | streamlit_app.py:42-63 | A result whose clubs both have a row, even the same club twice, hands out 3 points when decisive and 2 when drawn. It adds two matches played and leaves the total goal difference unchanged. |
| `Table.LeagueSums` | streamlit_app.py:26-63 | Over an ordered list of such results, total points grow by 3 per decisive result and 2 per draw. Total matches played grow by 2 per result, and total goal difference does not change. |
| `Table.FreshLeagueSums` | streamlit_app.py:12-63 | From the fresh ladder of distinct clubs, total points equal the points the results hand out. Total matches played are twice the number of results, and the goal differences sum to zero. |
| `Ranking.Insert` | streamlit_app.py:68-71 | Inserting a row into a sequence ordered by (PTS, GD, GF, W) keeps it ordered and adds exactly that row. The row goes in front of the rows level with it. |
| `Ranking.SortByKey` | streamlit_app.py:68-71 | The sorted rows are non-increasing lexicographically in (PTS, GD, GF, W) and are a permutation of the input. Rows level on all four keys keep their input order. |
| `Ranking.SortLadder` | streamlit_app.py:66-75 | The standings hold every ladder row exactly once, with position i + 1 at index i. They are ordered non-increasingly by (PTS, GD, GF, W), and rows level on all four keys are in ladder order. |
| `Ranking.OrderingDetermined` | streamlit_app.py:68-71 | Two orderings of the same rows that are both non-increasing in (PTS, GD, GF, W) and keep level rows in the same relative order are equal. So the contract of `SortByKey` fixes the standings, and any stable sort on these four keys gives the same table. |
| `Engine.DistinctClubs` | streamlit_app.py:8-9 | The club list has no duplicates and holds exactly the clubs named as home or away side in the fixture list. |
| `Engine.Ladder.constructor` | streamlit_app.py:8-23 | The table has one all-zero row for every club of the fixture list, each club once. |
| `Engine.Ladder.ApplyResult` | streamlit_app.py:29-63 | Updates every row in place to its value after the result, keeping clubs unique and every row consistent. |
| `Engine.Ladder.UpdateLadder` | streamlit_app.py:26-63 | Folds the results into the table in the order given, keeping clubs unique and every row consistent. |
| `Engine.StandingsOfValidLadder` | streamlit_app.py:66-75 | The standings of a ladder with unique clubs and consistent rows list each club exactly once, every row consistent. |
| `Engine.Recompute` | streamlit_app.py:106-110 | The standings are the sort of the fresh ladder over a duplicate-free list of the fixture clubs after all the results in order, so level rows keep ladder order. They hold exactly one row per fixture club, every row consistent, positions 1..n, ordered by (PTS, GD, GF, W). |

## Left out

- The Streamlit user interface (lines 77-113) is not part of this model: the
  number inputs, columns, button and table display. `Recompute` stands for the
  button's two calls.
- Reading the fixture CSV file (line 5) is not part of this model. The
  fixture list is an input sequence.
- The order of the clubs in the fresh ladder (line 9) is not modelled. It
  comes from iterating a Python set, so `DistinctClubs` and the constructor
  promise only which clubs appear, each once.
- The form column is modelled as a sequence of outcomes, not as the
  `'W, '`-joined string the source builds. No window of the last five entries
  exists in the source, and none is modelled.
- The pandas operations (`.loc` masks, `unique`, `sort_values`,
  `reset_index`, `insert`) are replaced by explicit sequence and array code.
  `sort_values` on several columns is stable, so it is modelled as a stable
  insertion sort.
- Column-wise updates: the source updates one column at a time across the
  masked rows. `ApplyResult` updates one row at a time with the combined
  effect. The result is the same, because every cell depends only on its own
  row.
- Integer widths: counters are unbounded integers, since pandas' 64-bit
  columns cannot overflow at league sizes.
