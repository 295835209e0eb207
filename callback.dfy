/**
 * The dashboard's callback: from the chosen genres, the chosen ratings and the
 * year interval of the slider it computes the number of matching games and the
 * two charts over them.
 */
module Callback {
  import opened Sequences
  import opened Records
  import opened Aggregators

  /** The callback's three outputs: the number of games and the stacked and scatter charts. */
  datatype Outputs = Outputs(count: nat, stack: Figure, scatter: Figure)

  /** What the dashboard shows when nothing is chosen or nothing matches: 0 and two empty plots. */
  const NoGames: Outputs := Outputs(0, EmptyPlot, EmptyPlot)

  /** A game released within the interval (both ends included), of a chosen genre and rating. */
  predicate Matches(g: Game, genreList: seq<string>, ratingList: seq<string>, yearInterval: (int, int)) {
    && yearInterval.0 <= g.yearOfRelease <= yearInterval.1
    && g.genre in genreList
    && g.rating in ratingList
  }

  /** The games of `df` that match, in their order in `df`. */
  function Selected(df: seq<Game>, genreList: seq<string>, ratingList: seq<string>, yearInterval: (int, int)): seq<Game> {
    Filter(df, (g: Game) => Matches(g, genreList, ratingList, yearInterval))
  }

  /**
   * The selection keeps every matching game of `df` as often as it occurs there and
   * nothing else, without reordering: it is the subsequence of the matching games.
   */
  lemma SelectedGames(df: seq<Game>, genreList: seq<string>, ratingList: seq<string>, yearInterval: (int, int), x: Game)
    ensures x in Selected(df, genreList, ratingList, yearInterval) <==> x in df && Matches(x, genreList, ratingList, yearInterval)
    ensures multiset(Selected(df, genreList, ratingList, yearInterval))[x] ==
            if Matches(x, genreList, ratingList, yearInterval) then multiset(df)[x] else 0
    ensures IsSubsequence(Selected(df, genreList, ratingList, yearInterval), df)
  {
    var matches := (g: Game) => Matches(g, genreList, ratingList, yearInterval);
    FilterMultiplicity(df, matches, x);
    FilterIsSubsequence(df, matches);
  }

  /** An interval whose start is after its end selects nothing. */
  lemma InvertedIntervalSelectsNothing(df: seq<Game>, genreList: seq<string>, ratingList: seq<string>, yearInterval: (int, int))
    requires yearInterval.0 > yearInterval.1
    ensures Selected(df, genreList, ratingList, yearInterval) == []
  {
    FilterNone(df, (g: Game) => Matches(g, genreList, ratingList, yearInterval));
  }

  /** With no genre or no rating chosen, nothing matches. */
  lemma NoChoiceSelectsNothing(df: seq<Game>, genreList: seq<string>, ratingList: seq<string>, yearInterval: (int, int))
    requires |genreList| == 0 || |ratingList| == 0
    ensures Selected(df, genreList, ratingList, yearInterval) == []
  {
    FilterNone(df, (g: Game) => Matches(g, genreList, ratingList, yearInterval));
  }

  /**
   * Choosing more genres or ratings, or widening the interval, keeps every game
   * selected before, in the same order, so the count can only grow.
   */
  lemma SelectionMonotone(df: seq<Game>,
                          genreList: seq<string>, ratingList: seq<string>, yearInterval: (int, int),
                          genreList': seq<string>, ratingList': seq<string>, yearInterval': (int, int))
    requires forall x :: x in genreList ==> x in genreList'
    requires forall x :: x in ratingList ==> x in ratingList'
    requires yearInterval'.0 <= yearInterval.0 && yearInterval.1 <= yearInterval'.1
    ensures IsSubsequence(Selected(df, genreList, ratingList, yearInterval), Selected(df, genreList', ratingList', yearInterval'))
    ensures |Selected(df, genreList, ratingList, yearInterval)| <= |Selected(df, genreList', ratingList', yearInterval')|
  {
    FilterMonotone(df, (g: Game) => Matches(g, genreList, ratingList, yearInterval),
                       (g: Game) => Matches(g, genreList', ratingList', yearInterval'));
  }

  /** The four masks of the callback, applied one after the other, make the selection. */
  lemma MasksSelect(df: seq<Game>, genreList: seq<string>, ratingList: seq<string>, yearInterval: (int, int),
                    fromStart: Game -> bool, untilEnd: Game -> bool, ofGenres: Game -> bool, ofRatings: Game -> bool)
    requires forall g :: fromStart(g) == (g.yearOfRelease >= yearInterval.0)
    requires forall g :: untilEnd(g) == (g.yearOfRelease <= yearInterval.1)
    requires forall g :: ofGenres(g) == (g.genre in genreList)
    requires forall g :: ofRatings(g) == (g.rating in ratingList)
    ensures Filter(Filter(Filter(Filter(df, fromStart), untilEnd), ofGenres), ofRatings) ==
            Selected(df, genreList, ratingList, yearInterval)
  {
    var inInterval := (g: Game) => fromStart(g) && untilEnd(g);
    var inIntervalOfGenres := (g: Game) => inInterval(g) && ofGenres(g);
    FilterTwice(df, fromStart, untilEnd, inInterval);
    FilterTwice(df, inInterval, ofGenres, inIntervalOfGenres);
    FilterTwice(df, inIntervalOfGenres, ofRatings, (g: Game) => Matches(g, genreList, ratingList, yearInterval));
  }

  /**
   * `output`: with no genre or no rating chosen it answers `NoGames` at once;
   * otherwise it narrows the table by the interval's start, its end, the genres and
   * the ratings, and answers `NoGames` again when nothing is left, or else the
   * number of games left with the stacked and the scatter chart over them.
   */
  method Output(df: seq<Game>, genreList: seq<string>, ratingList: seq<string>, yearInterval: (int, int))
    returns (out: Outputs)
    ensures |genreList| == 0 || |ratingList| == 0 ==> out == NoGames
    ensures out.count == |Selected(df, genreList, ratingList, yearInterval)|
    ensures out == NoGames <==> Selected(df, genreList, ratingList, yearInterval) == []
    ensures Selected(df, genreList, ratingList, yearInterval) != [] ==>
              && out.stack == StackChart(Selected(df, genreList, ratingList, yearInterval))
              && out.scatter == ScatterFigure(Selected(df, genreList, ratingList, yearInterval))
  {
    if |genreList| == 0 || |ratingList| == 0 {
      NoChoiceSelectsNothing(df, genreList, ratingList, yearInterval);
      return NoGames;
    }
    var fromStart := (g: Game) => g.yearOfRelease >= yearInterval.0;
    var untilEnd := (g: Game) => g.yearOfRelease <= yearInterval.1;
    var ofGenres := (g: Game) => g.genre in genreList;
    var ofRatings := (g: Game) => g.rating in ratingList;
    var games := Filter(df, fromStart);
    games := Filter(games, untilEnd);
    games := Filter(games, ofGenres);
    games := Filter(games, ofRatings);
    MasksSelect(df, genreList, ratingList, yearInterval, fromStart, untilEnd, ofGenres, ofRatings);

    if |games| == 0 {
      out := NoGames;
    } else {
      var stack := StackFigure(games);
      out := Outputs(|games|, stack, ScatterFigure(games));
    }
  }

  /**
   * A worked example: two role-playing games on PC rated E (user scores 8 and 6)
   * and an action game on PS4 rated M (user score 9).
   */
  function ExampleTable(): seq<Game> {
    [Game("RPG", "PC", "E", 2010, 8.0, 80.0, []),
     Game("RPG", "PC", "E", 2010, 6.0, 70.0, []),
     Game("Action", "PS4", "M", 2015, 9.0, 90.0, [])]
  }

  /** Choosing both genres and both ratings over 2000..2020 selects the whole example table. */
  lemma ExampleSelection()
    ensures Selected(ExampleTable(), ["RPG", "Action"], ["E", "M"], (2000, 2020)) == ExampleTable()
  {
    var df := ExampleTable();
    var m := (g: Game) => Matches(g, ["RPG", "Action"], ["E", "M"], (2000, 2020));
    assert m(df[0]) && m(df[1]) && m(df[2]);
    assert df[1..][1..][1..] == [];
    assert Filter(df[1..][1..], m) == [df[2]];
    assert Filter(df[1..], m) == [df[1], df[2]];
  }

  /** A column `[a, a, b]` with `a != b` has the distinct values `[a, b]`. */
  lemma UniqueOfPairThenOther(a: string, b: string)
    requires a != b
    ensures Unique([a, a, b]) == [a, b]
  {
    assert [a][..0] == [];
    assert Unique([a]) == [a];
    assert [a, a][..1] == [a];
    assert Unique([a, a]) == [a];
    assert [a, a, b][..2] == [a, a];
  }

  lemma ExampleColumns()
    ensures Unique(GenreColumn(ExampleTable())) == ["RPG", "Action"]
    ensures Unique(PlatformColumn(ExampleTable())) == ["PC", "PS4"]
  {
    var df := ExampleTable();
    assert GenreColumn(df) == ["RPG", "RPG", "Action"];
    assert PlatformColumn(df) == ["PC", "PC", "PS4"];
    UniqueOfPairThenOther("RPG", "Action");
    UniqueOfPairThenOther("PC", "PS4");
  }

  lemma ExampleCells()
    ensures CountCell(ExampleTable(), "RPG", "PC") == 2 && CountCell(ExampleTable(), "RPG", "PS4") == 0
    ensures CountCell(ExampleTable(), "Action", "PC") == 0 && CountCell(ExampleTable(), "Action", "PS4") == 1
  {
    var df := ExampleTable();
    assert df[1..][1..][1..] == [];
  }

  /** The stacked chart of the example lists PC then PS4 and carries its zero cells explicitly. */
  lemma ExampleStack()
    ensures StackChart(ExampleTable()) == StackPlot(["PC", "PS4"], [Trace("RPG", [2, 0]), Trace("Action", [0, 1])])
  {
    ExampleColumns();
    ExampleCells();
    var f := StackChart(ExampleTable());
    assert f.traces[0].y == [2, 0] && f.traces[1].y == [0, 1];
    assert f.traces == [Trace("RPG", [2, 0]), Trace("Action", [0, 1])];
  }

  /** The scatter of the example orders the games by user score: 6, 8, 9. */
  lemma ExampleScatter()
    ensures ScatterFigure(ExampleTable()).points == [ExampleTable()[1], ExampleTable()[0], ExampleTable()[2]]
  {
    var df := ExampleTable();
    assert df[1..][1..][1..] == [];
    assert SortBy(df[1..][1..], UserScoreOf) == [df[2]];
    assert SortBy(df[1..], UserScoreOf) == [df[1], df[2]];
    assert InsertBy(df[0], [df[2]], UserScoreOf) == [df[0], df[2]];
  }
}
