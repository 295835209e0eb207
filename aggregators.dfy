/**
 * The two chart builders of the dashboard, without the drawing: the scatter of
 * user against critic score (the games ordered by user score) and the stacked
 * platform chart (one series per genre, one count per platform; the percentage
 * normalisation is left to the renderer, so only raw counts are modelled).
 */
module Aggregators {
  import opened Sequences
  import opened Records

  /** One series of the stacked chart: a genre and its number of games on each platform. */
  datatype Trace = Trace(name: string, y: seq<nat>)

  /** What a chart shows; `EmptyPlot` is the placeholder titled "Empty plot". */
  datatype Figure =
    | EmptyPlot
    | StackPlot(platforms: seq<string>, traces: seq<Trace>)
    | ScatterPlot(points: seq<Game>)

  function GenreOf(g: Game): string { g.genre }

  function PlatformOf(g: Game): string { g.platform }

  function GenreAndPlatform(g: Game): (string, string) { (g.genre, g.platform) }

  function UserScoreOf(g: Game): real { g.userScore }

  /** `games[games['Genre'] == genre]`: the games of one genre, in order. */
  function OfGenre(games: seq<Game>, genre: string): (r: seq<Game>)
    ensures |r| == Count(games, GenreOf, genre)
    ensures forall g :: g in r ==> g in games && g.genre == genre
  {
    var isGenre := (g: Game) => g.genre == genre;
    FilterCount(games, GenreOf, genre, isGenre);
    Filter(games, isGenre)
  }

  /** `games[games['Platform'] == platform]`: the games on one platform, in order. */
  function OnPlatform(games: seq<Game>, platform: string): (r: seq<Game>)
    ensures |r| == Count(games, PlatformOf, platform)
    ensures forall g :: g in r ==> g in games && g.platform == platform
  {
    var onPlatform := (g: Game) => g.platform == platform;
    FilterCount(games, PlatformOf, platform, onPlatform);
    Filter(games, onPlatform)
  }

  /** The list `y` of one genre's series: how many of `oneGenre` are on each platform. */
  function PlatformCounts(oneGenre: seq<Game>, platforms: seq<string>): (y: seq<nat>)
    ensures |y| == |platforms|
    ensures forall j :: 0 <= j < |platforms| ==> y[j] == Count(oneGenre, PlatformOf, platforms[j])
  {
    seq(|platforms|, j requires 0 <= j < |platforms| => |OnPlatform(oneGenre, platforms[j])|)
  }

  /** Number of games of `genre` on `platform`. */
  function CountCell(games: seq<Game>, genre: string, platform: string): nat {
    Count(games, GenreAndPlatform, (genre, platform))
  }

  lemma {:induction false} CellByGenre(games: seq<Game>, genre: string, platform: string)
    ensures CountCell(games, genre, platform) == Count(OfGenre(games, genre), PlatformOf, platform)
  {
    if games != [] {
      CellByGenre(games[1..], genre, platform);
      var rest := OfGenre(games[1..], genre);
      if games[0].genre == genre {
        var sub := [games[0]] + rest;
        assert OfGenre(games, genre) == sub;
        assert sub[0] == games[0] && sub[1..] == rest;
      } else {
        assert OfGenre(games, genre) == rest;
      }
    }
  }

  lemma {:induction false} CellByPlatform(games: seq<Game>, genre: string, platform: string)
    ensures CountCell(games, genre, platform) == Count(OnPlatform(games, platform), GenreOf, genre)
  {
    if games != [] {
      CellByPlatform(games[1..], genre, platform);
      var rest := OnPlatform(games[1..], platform);
      if games[0].platform == platform {
        var sub := [games[0]] + rest;
        assert OnPlatform(games, platform) == sub;
        assert sub[0] == games[0] && sub[1..] == rest;
      } else {
        assert OnPlatform(games, platform) == rest;
      }
    }
  }

  function Names(traces: seq<Trace>): seq<string> {
    seq(|traces|, i requires 0 <= i < |traces| => traces[i].name)
  }

  /** The stacked height at platform column `j`: the sum of every series' count there. */
  function ColumnTotal(traces: seq<Trace>, j: nat): nat {
    Sum(Column(traces, j))
  }

  /** The counts of every series at platform column `j` (zero for a series too short). */
  function Column(traces: seq<Trace>, j: nat): seq<nat> {
    seq(|traces|, i requires 0 <= i < |traces| => if j < |traces[i].y| then traces[i].y[j] else 0)
  }

  /** The sum of every count of the chart. */
  function TotalCells(traces: seq<Trace>): nat {
    Sum(seq(|traces|, i requires 0 <= i < |traces| => Sum(traces[i].y)))
  }

  /**
   * The stacked chart of `games`: the platforms and the genres present, each listed
   * once in order of first appearance, and for every genre the number of its games
   * on each platform.
   */
  function StackChart(games: seq<Game>): (f: Figure)
    ensures f.StackPlot?
    ensures NoDuplicates(f.platforms) && forall p :: p in f.platforms <==> exists g :: g in games && g.platform == p
    ensures NoDuplicates(Names(f.traces)) && forall x :: x in Names(f.traces) <==> exists g :: g in games && g.genre == x
    ensures forall i, j :: 0 <= i < j < |f.platforms| ==>
              f.platforms[i] in PlatformColumn(games) && f.platforms[j] in PlatformColumn(games) &&
              FirstIndex(PlatformColumn(games), f.platforms[i]) < FirstIndex(PlatformColumn(games), f.platforms[j])
    ensures forall i, j :: 0 <= i < j < |f.traces| ==>
              f.traces[i].name in GenreColumn(games) && f.traces[j].name in GenreColumn(games) &&
              FirstIndex(GenreColumn(games), f.traces[i].name) < FirstIndex(GenreColumn(games), f.traces[j].name)
    ensures forall i :: 0 <= i < |f.traces| ==> |f.traces[i].y| == |f.platforms|
  {
    var gs := Unique(GenreColumn(games));
    var ps := Unique(PlatformColumn(games));
    var traces := seq(|gs|, i requires 0 <= i < |gs| =>
                    Trace(gs[i], seq(|ps|, j requires 0 <= j < |ps| => CountCell(games, gs[i], ps[j]))));
    assert Names(traces) == gs;
    assert forall x :: x in GenreColumn(games) <==> exists g :: g in games && g.genre == x by {
      forall x ensures x in GenreColumn(games) <==> exists g :: g in games && g.genre == x {
        GenreColumnMembers(games, x);
      }
    }
    assert forall x :: x in PlatformColumn(games) <==> exists g :: g in games && g.platform == x by {
      forall x ensures x in PlatformColumn(games) <==> exists g :: g in games && g.platform == x {
        PlatformColumnMembers(games, x);
      }
    }
    UniqueFirstSeenOrder(GenreColumn(games));
    UniqueFirstSeenOrder(PlatformColumn(games));
    StackPlot(ps, traces)
  }

  /** The cell of series `i` at platform `j` counts that genre's games on that platform. */
  lemma StackChartCell(games: seq<Game>, i: nat, j: nat)
    requires i < |StackChart(games).traces| && j < |StackChart(games).platforms|
    ensures StackChart(games).traces[i].y[j] ==
            CountCell(games, StackChart(games).traces[i].name, StackChart(games).platforms[j])
  {
  }

  /**
   * Every platform column adds up to the number of games on that platform, which
   * is at least one: the renderer's percentage normalisation never divides by zero.
   */
  lemma StackColumnTotals(games: seq<Game>, j: nat)
    requires j < |StackChart(games).platforms|
    ensures ColumnTotal(StackChart(games).traces, j) == Count(games, PlatformOf, StackChart(games).platforms[j]) >= 1
  {
    var f := StackChart(games);
    var gs, p := Names(f.traces), f.platforms[j];
    var sub := OnPlatform(games, p);
    var column := Column(f.traces, j);
    forall i | 0 <= i < |column| ensures column[i] == Count(sub, GenreOf, gs[i]) {
      StackChartCell(games, i, j);
      CellByPlatform(games, gs[i], p);
    }
    SumOfCounts(column, sub, GenreOf, gs);
    SumCountsTotal(sub, GenreOf, gs);
    assert p in f.platforms;
    var g :| g in games && g.platform == p;
    assert g in sub;
  }

  /** Every series adds up to the number of games of its genre. */
  lemma StackRowTotals(games: seq<Game>, i: nat)
    requires i < |StackChart(games).traces|
    ensures Sum(StackChart(games).traces[i].y) == Count(games, GenreOf, StackChart(games).traces[i].name)
  {
    var f := StackChart(games);
    var genre := f.traces[i].name;
    var sub := OfGenre(games, genre);
    forall j | 0 <= j < |f.platforms| ensures f.traces[i].y[j] == Count(sub, PlatformOf, f.platforms[j]) {
      StackChartCell(games, i, j);
      CellByGenre(games, genre, f.platforms[j]);
    }
    SumOfCounts(f.traces[i].y, sub, PlatformOf, f.platforms);
    SumCountsTotal(sub, PlatformOf, f.platforms);
  }

  /** All the counts of the chart add up to the number of games. */
  lemma StackGrandTotal(games: seq<Game>)
    ensures TotalCells(StackChart(games).traces) == |games|
  {
    var f := StackChart(games);
    var rows := seq(|f.traces|, i requires 0 <= i < |f.traces| => Sum(f.traces[i].y));
    forall i | 0 <= i < |rows| ensures rows[i] == Count(games, GenreOf, Names(f.traces)[i]) {
      StackRowTotals(games, i);
    }
    SumOfCounts(rows, games, GenreOf, Names(f.traces));
    SumCountsTotal(games, GenreOf, Names(f.traces));
  }

  /**
   * `stack_figure`: one series per genre present, built one genre at a time; the
   * result is `StackChart(games)`, whose columns add up to the games per platform
   * and whose counts add up to all the games.
   */
  method StackFigure(games: seq<Game>) returns (fig: Figure)
    ensures fig == StackChart(games)
    ensures forall j :: 0 <= j < |fig.platforms| ==> ColumnTotal(fig.traces, j) == Count(games, PlatformOf, fig.platforms[j]) >= 1
    ensures TotalCells(fig.traces) == |games|
  {
    var chosenGenres := Unique(GenreColumn(games));
    var platforms := Unique(PlatformColumn(games));
    var traces: seq<Trace> := [];
    for k := 0 to |chosenGenres|
      invariant |traces| == k
      invariant forall i :: 0 <= i < k ==> traces[i] == StackChart(games).traces[i]
    {
      var genre := chosenGenres[k];
      var oneGenreGames := OfGenre(games, genre);
      var y := PlatformCounts(oneGenreGames, platforms);
      forall j | 0 <= j < |platforms| ensures y[j] == CountCell(games, genre, platforms[j]) {
        CellByGenre(games, genre, platforms[j]);
      }
      traces := traces + [Trace(genre, y)];
    }
    fig := StackPlot(platforms, traces);
    assert fig == StackChart(games);
    forall j | 0 <= j < |fig.platforms|
      ensures ColumnTotal(fig.traces, j) == Count(games, PlatformOf, fig.platforms[j]) >= 1
    {
      StackColumnTotals(games, j);
    }
    StackGrandTotal(games);
  }

  /**
   * `scatter_figure`: the games in non-decreasing order of user score, each game
   * kept exactly as often as it occurs.
   */
  function ScatterFigure(games: seq<Game>): (f: Figure)
    ensures f.ScatterPlot?
    ensures forall i, j :: 0 <= i < j < |f.points| ==> f.points[i].userScore <= f.points[j].userScore
    ensures multiset(f.points) == multiset(games)
  {
    ScatterPlot(SortBy(games, UserScoreOf))
  }
}
