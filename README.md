# Games market dashboard — a Dafny model of its data pipeline

The dashboard shows a table of video games. Users filter it by genre, age rating and
release-year interval. It then shows the number of matching games and two charts: a
stacked chart of genres per platform, and a scatter of user score against critic score.
This project models the data pipeline behind those outputs and proves what it guarantees:

- **Preprocessing** (`Preprocessing`, file `preprocessing.dfy`). Rows with a missing cell
  are dropped (`dropna`). Rows whose user score is the token `tbd` are dropped. User scores
  are converted to numbers, and any other token makes the load fail. Only games released
  in 2000 or later are kept. `Preprocess` runs these steps one after the other, as the
  script does. It is proved equal to `Load`, a row-by-row reference definition.
- **Filter catalog** (`Catalog`). The genres and ratings offered by the dropdowns, and the
  sorted distinct years that bound the range slider.
- **Callback** (`Callback`). `Output` answers 0 with two empty plots when no genre or no
  rating is chosen. Otherwise it narrows the table by four masks in turn: year ≥ start,
  year ≤ end, genre chosen, rating chosen. If nothing is left it gives the same empty
  answer. Otherwise it gives the count and the two charts.
- **Aggregators** (`Aggregators`). `ScatterFigure` sorts the games by user score.
  `StackFigure` builds one series per genre present. Each series holds, for every platform
  present, the number of that genre's games on that platform.
- `Sequences` holds the data-frame primitives these use: mask selection, `unique()`,
  sorting by a key, and counting. `Records` holds the row types. `Wrappers` holds `Option`
  and `Result`.

Inputs that come from outside are parameters:

- the parsed rows of `data/games.csv`;
- the cleaned table, which the callback reads;
- the three control values.

A user–score cell is either a number (a string `to_numeric` can parse) or a text token.
Scores are `real`. Release years are `int`.

Where the dashboard's stated intent and its code disagree, the model follows the code:

- the code gives the *same* output (0 and two empty plots) when no filter is chosen and
  when the filters match nothing. There is no separate "nothing chosen" state;
- `sort_values` uses pandas' default sort, which is not stable. So only sortedness and
  permutation are claimed for the scatter, not stability;
- every stacked series carries a count for *every* platform present, zeros included. No
  genre–platform pair is omitted;
- an inverted year interval is not swapped or clamped. It selects nothing
  (`InvertedIntervalSelectsNothing`).

## Model

| member | source | states |
|---|---|---|
| `Sequences.Filter` | games_market_dash_Lev_Svalov.py:200-203 | a mask selection holds exactly the elements that satisfy the mask, and is never longer than its input |
| `Sequences.FilterMultiplicity` | games_market_dash_Lev_Svalov.py:200-203 | a selection keeps each element as often as it occurs in the input, or drops it entirely |
| `Sequences.FilterIsSubsequence` | games_market_dash_Lev_Svalov.py:200-203 | a selection keeps the input order: it is a subsequence of the input |
| `Sequences.FilterTwice` | games_market_dash_Lev_Svalov.py:200-203 | selecting by one mask and then another is selecting by their conjunction |
| `Sequences.FilterMonotone` | games_market_dash_Lev_Svalov.py:200-203 | a weaker mask keeps every element a stronger one keeps, in order, so its result is at least as long |
| `Sequences.Unique` | games_market_dash_Lev_Svalov.py:50-51 | `unique()` has no duplicates and holds exactly the values of its input |
| `Sequences.UniqueFirstSeenOrder` | games_market_dash_Lev_Svalov.py:161-162 | `unique()` lists values in the order of their first occurrence |
| `Sequences.SortBy` | games_market_dash_Lev_Svalov.py:153 | sorting yields a non-decreasing order of the key and is a permutation of the input |
| `Sequences.FilterCount` | games_market_dash_Lev_Svalov.py:165-166 | the length of the selection "key equals v" is the number of elements whose key is v |
| `Sequences.SumCountsTotal` | games_market_dash_Lev_Svalov.py:164-166 | when each key of the data is listed exactly once, the per-key counts add up to the number of elements |
| `Preprocessing.Present` | games_market_dash_Lev_Svalov.py:21 | a row survives `dropna` exactly when none of its cells is missing |
| `Preprocessing.DropMissing` | games_market_dash_Lev_Svalov.py:21 | every complete raw row survives `dropna`, every surviving row is a complete raw row with its cells unwrapped, and there are never more rows than before |
| `Preprocessing.DropMissingSelects` | games_market_dash_Lev_Svalov.py:21 | `dropna` is the selection of the complete raw rows: as many rows, in the same order and with the same multiplicity, each with its cells unwrapped |
| `Preprocessing.ToNumeric` | games_market_dash_Lev_Svalov.py:42 | the conversion fails exactly when some user score is a token, and reports the first such token; on success every row gets its numeric score with every other cell unchanged |
| `Preprocessing.FateOf` | games_market_dash_Lev_Svalov.py:21-42 | a raw row is dropped exactly when it has a missing cell or the score `tbd`; it is rejected exactly when it is complete with another token; a kept game has the row's values and a numeric score |
| `Preprocessing.Load` | games_market_dash_Lev_Svalov.py:21-45 | loading fails exactly when some raw row is rejected, whatever its year; every loaded game was released in 2000 or later |
| `Preprocessing.LoadedGames` | games_market_dash_Lev_Svalov.py:21-45 | a loaded table holds exactly the kept rows released in 2000 or later |
| `Preprocessing.ConvertedStep` | games_market_dash_Lev_Svalov.py:21-42 | `dropna`, dropping `tbd` and the conversion decide each row by its own fate, in order |
| `Preprocessing.PipelineIsLoad` | games_market_dash_Lev_Svalov.py:21-45 | the four cleaning steps, one after the other, compute the row-by-row reference `Load` |
| `Preprocessing.Preprocess` | games_market_dash_Lev_Svalov.py:21-45 | the step-by-step cleaning equals `Load`; it fails exactly when a complete row has a score token other than `tbd`; on success it keeps exactly the kept rows from 2000 on |
| `Catalog.SortedYears` | games_market_dash_Lev_Svalov.py:52 | the slider years are strictly ascending and are exactly the years given |
| `Catalog.Options` | games_market_dash_Lev_Svalov.py:50-52 | genres and ratings are exactly the values present, duplicate-free, in first-seen order; years are the years present, strictly ascending |
| `Aggregators.OfGenre` | games_market_dash_Lev_Svalov.py:165 | `one_genre_games` holds only games of that genre, as many as the table has |
| `Aggregators.OnPlatform` | games_market_dash_Lev_Svalov.py:166 | the platform selection holds only games on that platform, as many as there are |
| `Aggregators.PlatformCounts` | games_market_dash_Lev_Svalov.py:166 | `y` has one entry per platform, each the number of the genre's games on that platform |
| `Aggregators.CellByGenre` | games_market_dash_Lev_Svalov.py:165-166 | counting a platform within one genre's games counts that genre–platform pair |
| `Aggregators.CellByPlatform` | games_market_dash_Lev_Svalov.py:164-166 | the same pair count, taken within one platform's games |
| `Aggregators.StackChart` | games_market_dash_Lev_Svalov.py:160-166 | platforms and series names are duplicate-free, exactly the values present, in first-seen order; every series has one count per platform |
| `Aggregators.StackChartCell` | games_market_dash_Lev_Svalov.py:166 | each cell counts the games of that series' genre on that column's platform |
| `Aggregators.StackColumnTotals` | games_market_dash_Lev_Svalov.py:164-172 | each platform column adds up to the number of games on that platform, which is at least one, so the percentage stacking never divides by zero |
| `Aggregators.StackRowTotals` | games_market_dash_Lev_Svalov.py:164-166 | each series adds up to the number of games of its genre |
| `Aggregators.StackGrandTotal` | games_market_dash_Lev_Svalov.py:164-166 | all cells together add up to the number of games in the subset |
| `Aggregators.StackFigure` | games_market_dash_Lev_Svalov.py:160-173 | the genre-by-genre loop builds `StackChart`; its columns add up to the games per platform (at least one each), and its cells to all the games |
| `Aggregators.ScatterFigure` | games_market_dash_Lev_Svalov.py:152-153 | the scatter points are the games in non-decreasing user-score order, a permutation of the subset |
| `Callback.SelectedGames` | games_market_dash_Lev_Svalov.py:200-203 | a game is selected exactly when it is in the table and matches all three filters, with its multiplicity; the selection is a subsequence of the table |
| `Callback.InvertedIntervalSelectsNothing` | games_market_dash_Lev_Svalov.py:200-201 | an interval whose start is after its end selects no game |
| `Callback.NoChoiceSelectsNothing` | games_market_dash_Lev_Svalov.py:202-203 | an empty genre list or an empty rating list matches no game |
| `Callback.SelectionMonotone` | games_market_dash_Lev_Svalov.py:200-203 | more genres, more ratings or a wider interval keep every game selected before, in order; the count can only grow |
| `Callback.MasksSelect` | games_market_dash_Lev_Svalov.py:200-203 | the four successive masks compute the conjunctive selection |
| `Callback.Output` | games_market_dash_Lev_Svalov.py:198-206 | no genre or no rating gives 0 and two empty plots; the count is the number of selected games; the empty answer comes exactly when nothing is selected; otherwise the charts are the stacked chart and the sorted scatter of the selection |
| `Callback.ExampleSelection` | games_market_dash_Lev_Svalov.py:200-203 | on a three-game table, both genres and both ratings over 2000..2020 select all three games |
| `Callback.ExampleColumns` | games_market_dash_Lev_Svalov.py:161-162 | the example's genres are RPG then Action and its platforms PC then PS4, in first-seen order |
| `Callback.ExampleStack` | games_market_dash_Lev_Svalov.py:161-166 | the example's stacked chart is PC, PS4 with series RPG [2, 0] and Action [0, 1], zeros included |
| `Callback.ExampleScatter` | games_market_dash_Lev_Svalov.py:153 | the example's scatter orders the games by user score 6, 8, 9 |

## Left out

- The Dash app, the HTML/bootstrap layout, the styles and the server start (lines 11-12,
  56-145, 209-210). This is user-interface plumbing. Setting the slider from `years[0]` and
  `years[-1]` (lines 111-115) is part of it. So the failure of that indexing on a table
  with no game from 2000 on is not modelled.
- Reading the CSV file (line 18). The parsed rows are an input. Parsing number strings
  into `real` is not modelled: a parsable cell simply is a `Number`. Floating-point
  behaviour is not modelled either.
- The row index. Line 18 reads the file's first column as the index (`index_col=0`), so
  it is not a cell: `dropna` ignores it, and the model's rows do not carry it. Lines 38-39
  drop the `tbd` rows by index label, and the model drops them by position. The labels
  can repeat (a first column holding the game's name has the same name once per
  platform). Then the source also removes every other row that shares a label with a
  `tbd` row, even one with a numeric score, and the model keeps that row. The two agree
  only when the labels are unique.
- Plotly figure construction: titles, axis labels, transitions, `stackgroup`, and the
  `groupnorm='percent'` normalisation (lines 154-157, 163, 167-179). Only the raw counts
  and the point order are modelled. The scatter's split into one trace per genre colour
  is also left out.
- ScatterFigure: does not fix the order among games with equal user scores. `sort_values`
  makes no stability promise, so only sortedness and permutation are stated. The model's
  insertion sort picks one order.
- The callback decorator and its wiring to the controls (lines 188-197), concurrent users
  and re-entrancy: these are framework behaviour.
