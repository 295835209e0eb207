/**
 * Cleaning of the games table at start-up: drop every row with a missing cell,
 * drop the rows whose user score is the token "tbd", convert the user score to
 * a number (failing on any other token), and keep the games released in 2000
 * or later.
 */
module Preprocessing {
  import opened Wrappers
  import opened Sequences
  import opened Records

  /** The earliest release year the dashboard shows. */
  const MinYear: int := 2000

  /** The user-score token meaning "to be determined"; matched case-sensitively. */
  const Undetermined: string := "tbd"

  /** The numeric conversion met a user score that is not a number. */
  datatype LoadError = NonNumericUserScore(token: string)

  predicate Complete(raw: RawRow) {
    && raw.genre.Some? && raw.platform.Some? && raw.rating.Some?
    && raw.yearOfRelease.Some? && raw.userScore.Some? && raw.criticScore.Some?
    && forall i :: 0 <= i < |raw.other| ==> raw.other[i].Some?
  }

  /** The row with its cells unwrapped, when none is missing. */
  function Present(raw: RawRow): (r: Option<Row>)
    ensures r.Some? <==> Complete(raw)
  {
    if Complete(raw) then
      Some(Row(raw.genre.value, raw.platform.value, raw.rating.value, raw.yearOfRelease.value,
               raw.userScore.value, raw.criticScore.value,
               seq(|raw.other|, i requires 0 <= i < |raw.other| => raw.other[i].value)))
    else None
  }

  /** `df.dropna()`: the rows with no missing cell, in their order. */
  function DropMissing(raws: seq<RawRow>): (rows: seq<Row>)
    ensures |rows| <= |raws|
    ensures forall i :: 0 <= i < |raws| && Complete(raws[i]) ==> Present(raws[i]).value in rows
    ensures forall row :: row in rows ==> exists i :: 0 <= i < |raws| && Present(raws[i]) == Some(row)
  {
    if raws == [] then []
    else
      var rest := DropMissing(raws[1..]);
      assert forall i :: 1 <= i < |raws| ==> raws[i] == raws[1..][i - 1];
      (match Present(raws[0]) case Some(row) => [row] case None => []) + rest
  }

  /**
   * `dropna` is the selection of the complete rows: same length, same order and
   * the same multiplicity, each row with its cells unwrapped.
   */
  lemma {:induction false} DropMissingSelects(raws: seq<RawRow>)
    ensures |DropMissing(raws)| == |Filter(raws, Complete)|
    ensures forall i :: 0 <= i < |DropMissing(raws)| ==>
              Present(Filter(raws, Complete)[i]) == Some(DropMissing(raws)[i])
  {
    if raws != [] {
      DropMissingSelects(raws[1..]);
      assert raws == [raws[0]] + raws[1..];
      FilterCons(raws[0], raws[1..], Complete);
    }
  }

  /** The mask `df['User_Score'] != 'tbd'`. */
  predicate IsDetermined(row: Row) {
    row.userScore != Token(Undetermined)
  }

  /** The game for `row`, its user score read as `score`. */
  function WithScore(row: Row, score: real): Game {
    Game(row.genre, row.platform, row.rating, row.yearOfRelease, score, row.criticScore, row.other)
  }

  /**
   * `pd.to_numeric(df["User_Score"])`: every user score becomes a number, and the
   * conversion fails at the first cell that holds a token.
   */
  function ToNumeric(rows: seq<Row>): (r: Result<seq<Game>, LoadError>)
    ensures r.Failure? <==> exists i :: 0 <= i < |rows| && rows[i].userScore.Token?
    ensures r.Failure? ==> exists i :: 0 <= i < |rows| && rows[i].userScore == Token(r.error.token)
                                                      && forall k :: 0 <= k < i ==> rows[k].userScore.Number?
    ensures r.Success? ==> |r.value| == |rows|
    ensures r.Success? ==> forall i :: 0 <= i < |rows| ==>
              rows[i].userScore == Number(r.value[i].userScore) && r.value[i] == WithScore(rows[i], r.value[i].userScore)
  {
    if rows == [] then Success([])
    else
      match rows[0].userScore
      case Token(t) => Failure(NonNumericUserScore(t))
      case Number(v) =>
        match ToNumeric(rows[1..])
        case Failure(e) =>
          ghost var i :| 0 <= i < |rows[1..]| && rows[1..][i].userScore == Token(e.token)
                        && forall k :: 0 <= k < i ==> rows[1..][k].userScore.Number?;
          assert rows[i + 1].userScore == Token(e.token);
          Failure(e)
        case Success(gs) =>
          var r := [WithScore(rows[0], v)] + gs;
          assert forall i :: 1 <= i < |rows| ==> rows[i] == rows[1..][i - 1] && r[i] == gs[i - 1];
          Success(r)
  }

  /** The mask `df['Year_of_Release'] >= 2000`. */
  predicate ReleasedSinceMinYear(g: Game) {
    g.yearOfRelease >= MinYear
  }

  /** What cleaning does with one raw row, before the year restriction. */
  datatype Fate = Dropped | Rejected(token: string) | Kept(game: Game)

  function FateOf(raw: RawRow): (f: Fate)
    ensures f.Dropped? <==> !Complete(raw) || raw.userScore == Some(Token(Undetermined))
    ensures f.Rejected? <==> Complete(raw) && raw.userScore.value.Token? && raw.userScore.value.text != Undetermined
    ensures f.Rejected? ==> raw.userScore == Some(Token(f.token))
    ensures f.Kept? ==>
              && Complete(raw) && raw.userScore == Some(Number(f.game.userScore))
              && raw.genre == Some(f.game.genre) && raw.platform == Some(f.game.platform)
              && raw.rating == Some(f.game.rating) && raw.yearOfRelease == Some(f.game.yearOfRelease)
              && raw.criticScore == Some(f.game.criticScore)
              && |f.game.other| == |raw.other|
              && forall i :: 0 <= i < |raw.other| ==> raw.other[i] == Some(f.game.other[i])
  {
    match Present(raw)
    case None => Dropped
    case Some(row) =>
      match row.userScore
      case Token(t) => if t == Undetermined then Dropped else Rejected(t)
      case Number(v) => Kept(WithScore(row, v))
  }

  /**
   * The cleaned table, row by row: it fails at the first row whose user score is a
   * token other than "tbd" (whatever that row's year), and otherwise keeps, in order,
   * the converted rows released in `MinYear` or later.
   */
  function Load(raws: seq<RawRow>): (r: Result<seq<Game>, LoadError>)
    ensures r.Failure? <==> exists i :: 0 <= i < |raws| && FateOf(raws[i]).Rejected?
    ensures r.Success? ==> forall g :: g in r.value ==> g.yearOfRelease >= MinYear
  {
    if raws == [] then Success([])
    else
      assert forall i :: 1 <= i < |raws| ==> raws[i] == raws[1..][i - 1];
      Admit(FateOf(raws[0]), Load(raws[1..]))
  }

  /** A row's fate placed in front of the loaded rows after it: a kept game stays if recent enough. */
  function Admit(f: Fate, rest: Result<seq<Game>, LoadError>): Result<seq<Game>, LoadError> {
    match f
    case Dropped => rest
    case Rejected(t) => Failure(NonNumericUserScore(t))
    case Kept(g) =>
      if rest.Failure? then rest
      else Success(if ReleasedSinceMinYear(g) then [g] + rest.value else rest.value)
  }

  /** The year restriction applied to a conversion outcome. */
  function Restricted(c: Result<seq<Game>, LoadError>): Result<seq<Game>, LoadError> {
    if c.Failure? then c else Success(Filter(c.value, ReleasedSinceMinYear))
  }

  lemma RestrictedPrepend(f: Fate, c: Result<seq<Game>, LoadError>)
    ensures Restricted(Prepend(f, c)) == Admit(f, Restricted(c))
  {
    if f.Kept? && c.Success? {
      FilterCons(f.game, c.value, ReleasedSinceMinYear);
      var rest := Filter(c.value, ReleasedSinceMinYear);
      assert [] + rest == rest;
    }
  }

  /** A loaded table holds exactly the kept rows from `MinYear` on. */
  lemma {:induction false} LoadedGames(raws: seq<RawRow>, g: Game)
    requires Load(raws).Success?
    ensures g in Load(raws).value <==> exists i :: 0 <= i < |raws| && FateOf(raws[i]) == Kept(g) && g.yearOfRelease >= MinYear
  {
    if raws != [] {
      assert forall i :: 1 <= i < |raws| ==> raws[i] == raws[1..][i - 1];
      match FateOf(raws[0])
      case Dropped =>
        LoadedGames(raws[1..], g);
      case Kept(h) =>
        LoadedGames(raws[1..], g);
        if g in Load(raws).value && !(g in Load(raws[1..]).value) {
          assert g == h && FateOf(raws[0]) == Kept(g);
        }
    }
  }

  /** The first three cleaning steps, as `Preprocess` runs them. */
  function Converted(raws: seq<RawRow>): Result<seq<Game>, LoadError> {
    ToNumeric(Filter(DropMissing(raws), IsDetermined))
  }

  /** A row's fate placed in front of the outcome for the rows after it. */
  function Prepend(f: Fate, rest: Result<seq<Game>, LoadError>): Result<seq<Game>, LoadError> {
    match f
    case Dropped => rest
    case Rejected(t) => Failure(NonNumericUserScore(t))
    case Kept(g) => if rest.Failure? then rest else Success([g] + rest.value)
  }

  /** The first three steps decide each row by its fate alone. */
  lemma ConvertedStep(raws: seq<RawRow>)
    requires raws != []
    ensures Converted(raws) == Prepend(FateOf(raws[0]), Converted(raws[1..]))
  {
    var restRows := Filter(DropMissing(raws[1..]), IsDetermined);
    assert Converted(raws[1..]) == ToNumeric(restRows);
    match Present(raws[0])
    case None =>
      assert DropMissing(raws) == DropMissing(raws[1..]);
    case Some(row) =>
      assert DropMissing(raws) == [row] + DropMissing(raws[1..]);
      FilterCons(row, DropMissing(raws[1..]), IsDetermined);
      if IsDetermined(row) {
        var rows := [row] + restRows;
        assert rows[0] == row && rows[1..] == restRows;
        assert Converted(raws) == ToNumeric(rows);
        match row.userScore
        case Token(t) =>
          assert FateOf(raws[0]) == Rejected(t);
          assert ToNumeric(rows) == Failure(NonNumericUserScore(t));
        case Number(v) =>
          assert FateOf(raws[0]) == Kept(WithScore(row, v));
          match ToNumeric(restRows)
          case Failure(e) =>
            assert ToNumeric(rows) == Failure(e);
          case Success(gs) =>
            assert ToNumeric(rows) == Success([WithScore(row, v)] + gs);
      } else {
        assert FateOf(raws[0]) == Dropped;
        assert [] + restRows == restRows;
        assert Filter(DropMissing(raws), IsDetermined) == restRows;
      }
  }

  /** The step-by-step cleaning of `Preprocess` computes `Load`. */
  lemma {:induction false} PipelineIsLoad(raws: seq<RawRow>)
    ensures Load(raws) == Restricted(Converted(raws))
  {
    if raws != [] {
      PipelineIsLoad(raws[1..]);
      ConvertedStep(raws);
      RestrictedPrepend(FateOf(raws[0]), Converted(raws[1..]));
    }
  }

  /**
   * The start-up cleaning, step by step as the dashboard does it: `dropna`, dropping
   * the "tbd" rows, the numeric conversion and the year restriction.
   */
  method Preprocess(raws: seq<RawRow>) returns (r: Result<seq<Game>, LoadError>)
    ensures r == Load(raws)
    ensures r.Failure? <==> exists i :: 0 <= i < |raws| && Complete(raws[i]) && raws[i].userScore.value.Token?
                                                      && raws[i].userScore.value.text != Undetermined
    ensures r.Success? ==> forall g :: g in r.value <==>
              exists i :: 0 <= i < |raws| && FateOf(raws[i]) == Kept(g) && g.yearOfRelease >= MinYear
  {
    var df := DropMissing(raws);
    df := Filter(df, IsDetermined);
    var numeric := ToNumeric(df);
    if numeric.Failure? {
      r := Failure(numeric.error);
    } else {
      var dfFiltered := Filter(numeric.value, ReleasedSinceMinYear);
      r := Success(dfFiltered);
    }
    PipelineIsLoad(raws);
    if r.Success? {
      forall g ensures g in r.value <==> exists i :: 0 <= i < |raws| && FateOf(raws[i]) == Kept(g) && g.yearOfRelease >= MinYear {
        LoadedGames(raws, g);
      }
    }
  }
}
