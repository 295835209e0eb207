/** The rows of the games table, before and after cleaning, and their columns. */
module Records {
  import opened Wrappers

  /** A `User_Score` cell as parsed from the file: a number, or a text token such as "tbd". */
  datatype ScoreCell = Number(value: real) | Token(text: string)

  /**
   * One parsed row of the table; `None` is a missing (NaN) cell. `other` holds the
   * remaining non-index columns, which the dashboard only carries along. The file's
   * first column is read as the row index: it is not a cell, and no row here holds it.
   */
  datatype RawRow = RawRow(
    genre: Option<string>,
    platform: Option<string>,
    rating: Option<string>,
    yearOfRelease: Option<int>,
    userScore: Option<ScoreCell>,
    criticScore: Option<real>,
    other: seq<Option<string>>)

  /** A row with every cell present; the user score is still the cell as parsed. */
  datatype Row = Row(
    genre: string,
    platform: string,
    rating: string,
    yearOfRelease: int,
    userScore: ScoreCell,
    criticScore: real,
    other: seq<string>)

  /** A cleaned game: every cell present and the user score numeric. */
  datatype Game = Game(
    genre: string,
    platform: string,
    rating: string,
    yearOfRelease: int,
    userScore: real,
    criticScore: real,
    other: seq<string>)

  function GenreColumn(games: seq<Game>): seq<string> {
    seq(|games|, i requires 0 <= i < |games| => games[i].genre)
  }

  function PlatformColumn(games: seq<Game>): seq<string> {
    seq(|games|, i requires 0 <= i < |games| => games[i].platform)
  }

  function RatingColumn(games: seq<Game>): seq<string> {
    seq(|games|, i requires 0 <= i < |games| => games[i].rating)
  }

  function YearColumn(games: seq<Game>): seq<int> {
    seq(|games|, i requires 0 <= i < |games| => games[i].yearOfRelease)
  }

  /** A value is in a column exactly when some game has it in that field. */
  lemma GenreColumnMembers(df: seq<Game>, x: string)
    ensures x in GenreColumn(df) <==> exists g :: g in df && g.genre == x
  {
    if x in GenreColumn(df) {
      var i :| 0 <= i < |df| && GenreColumn(df)[i] == x;
      assert df[i] in df;
    }
    if g :| g in df && g.genre == x {
      var i :| 0 <= i < |df| && df[i] == g;
      assert GenreColumn(df)[i] == x;
    }
  }

  lemma RatingColumnMembers(df: seq<Game>, x: string)
    ensures x in RatingColumn(df) <==> exists g :: g in df && g.rating == x
  {
    if x in RatingColumn(df) {
      var i :| 0 <= i < |df| && RatingColumn(df)[i] == x;
      assert df[i] in df;
    }
    if g :| g in df && g.rating == x {
      var i :| 0 <= i < |df| && df[i] == g;
      assert RatingColumn(df)[i] == x;
    }
  }

  lemma YearColumnMembers(df: seq<Game>, y: int)
    ensures y in YearColumn(df) <==> exists g :: g in df && g.yearOfRelease == y
  {
    if y in YearColumn(df) {
      var i :| 0 <= i < |df| && YearColumn(df)[i] == y;
      assert df[i] in df;
    }
    if g :| g in df && g.yearOfRelease == y {
      var i :| 0 <= i < |df| && df[i] == g;
      assert YearColumn(df)[i] == y;
    }
  }

  lemma PlatformColumnMembers(df: seq<Game>, x: string)
    ensures x in PlatformColumn(df) <==> exists g :: g in df && g.platform == x
  {
    if x in PlatformColumn(df) {
      var i :| 0 <= i < |df| && PlatformColumn(df)[i] == x;
      assert df[i] in df;
    }
    if g :| g in df && g.platform == x {
      var i :| 0 <= i < |df| && df[i] == g;
      assert PlatformColumn(df)[i] == x;
    }
  }
}
