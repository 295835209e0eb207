/**
 * The choices offered by the dashboard's filter controls, read off the cleaned
 * table: its distinct genres and ratings in order of first appearance, and its
 * distinct release years in ascending order (the bounds and marks of the year
 * range slider).
 */
module Catalog {
  import opened Sequences
  import opened Records

  datatype FilterOptions = FilterOptions(genres: seq<string>, ratings: seq<string>, years: seq<int>)

  function AsReal(y: int): real {
    y as real
  }

  /** `np.sort(unique(years))`: strictly ascending, exactly the years given. */
  function SortedYears(years: seq<int>): (r: seq<int>)
    ensures forall i, j :: 0 <= i < j < |r| ==> r[i] < r[j]
    ensures forall y :: y in r <==> y in years
  {
    var u := Unique(years);
    var r := SortBy(u, AsReal);
    PermutationNoDuplicates(u, r);
    AscendingYears(r);
    SameYears(u, r);
    r
  }

  /** Sorted and duplicate-free years are strictly ascending. */
  lemma AscendingYears(r: seq<int>)
    requires SortedBy(r, AsReal) && NoDuplicates(r)
    ensures forall i, j :: 0 <= i < j < |r| ==> r[i] < r[j]
  {
    forall i, j | 0 <= i < j < |r| ensures r[i] < r[j] {
      assert AsReal(r[i]) <= AsReal(r[j]);
    }
  }

  /** Rearranging a sequence of years keeps the same years. */
  lemma SameYears(u: seq<int>, r: seq<int>)
    requires multiset(u) == multiset(r)
    ensures forall y :: y in r <==> y in u
  {
    forall y ensures y in r <==> y in u {
      assert y in r <==> y in multiset(r);
      assert y in u <==> y in multiset(u);
    }
  }

  /**
   * `genres`, `ratings` and `years` of the dashboard: each list holds exactly the
   * values present in `df`, without duplicates; genres and ratings are listed in
   * order of first appearance, years in strictly ascending order.
   */
  function Options(df: seq<Game>): (o: FilterOptions)
    ensures NoDuplicates(o.genres) && forall x :: x in o.genres <==> exists g :: g in df && g.genre == x
    ensures NoDuplicates(o.ratings) && forall x :: x in o.ratings <==> exists g :: g in df && g.rating == x
    ensures forall i, j :: 0 <= i < j < |o.years| ==> o.years[i] < o.years[j]
    ensures forall y :: y in o.years <==> exists g :: g in df && g.yearOfRelease == y
    ensures forall i, j :: 0 <= i < j < |o.genres| ==>
              o.genres[i] in GenreColumn(df) && o.genres[j] in GenreColumn(df) &&
              FirstIndex(GenreColumn(df), o.genres[i]) < FirstIndex(GenreColumn(df), o.genres[j])
    ensures forall i, j :: 0 <= i < j < |o.ratings| ==>
              o.ratings[i] in RatingColumn(df) && o.ratings[j] in RatingColumn(df) &&
              FirstIndex(RatingColumn(df), o.ratings[i]) < FirstIndex(RatingColumn(df), o.ratings[j])
  {
    assert forall x :: x in GenreColumn(df) <==> exists g :: g in df && g.genre == x by {
      forall x ensures x in GenreColumn(df) <==> exists g :: g in df && g.genre == x {
        GenreColumnMembers(df, x);
      }
    }
    assert forall x :: x in RatingColumn(df) <==> exists g :: g in df && g.rating == x by {
      forall x ensures x in RatingColumn(df) <==> exists g :: g in df && g.rating == x {
        RatingColumnMembers(df, x);
      }
    }
    assert forall y :: y in YearColumn(df) <==> exists g :: g in df && g.yearOfRelease == y by {
      forall y ensures y in YearColumn(df) <==> exists g :: g in df && g.yearOfRelease == y {
        YearColumnMembers(df, y);
      }
    }
    UniqueFirstSeenOrder(GenreColumn(df));
    UniqueFirstSeenOrder(RatingColumn(df));
    FilterOptions(Unique(GenreColumn(df)), Unique(RatingColumn(df)), SortedYears(YearColumn(df)))
  }
}
