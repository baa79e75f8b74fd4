/** Worked examples of the normalisation and of the load. */
module Scenarios {
  import opened Wrappers
  import opened Seqs
  import opened Join
  import opened Dates
  import opened Normalize
  import opened Loader

  /** Two reviews by one user of one movie. */
  function TwoReviews(): seq<SourceRow> {
    [SourceRow(7, "Amy", "a@x.com", "Dune", "Sci-Fi", 2021, "V", 9, "great", "01-06-2022"),
     SourceRow(7, "Amy", "a@x.com", "Dune", "Sci-Fi", 2021, "V", 8, "rewatch", "02-06-2022")]
  }

  lemma DistinctOfPair<T(!new)>(x: T)
    ensures Distinct([x, x]) == [x]
  {
    assert [x, x][..1] == [x] && [x][..0] == [];
  }

  lemma TwoReviewsUsers(h: string)
    ensures UserTable(TwoReviews(), h) == [UserEntry(UserKey(7, "Amy", "a@x.com"), 1, h)]
  {
    assert UserKeys(TwoReviews()) == [UserKey(7, "Amy", "a@x.com"), UserKey(7, "Amy", "a@x.com")];
    DistinctOfPair(UserKey(7, "Amy", "a@x.com"));
  }

  lemma TwoReviewsMovies()
    ensures Movies(TwoReviews()) == [Movie(1, "Dune", "Sci-Fi", 2021, "V")]
  {
    var mk := MovieKey("Dune", "Sci-Fi", 2021, "V");
    assert MovieKeys(TwoReviews()) == [mk, mk];
    DistinctOfPair(mk);
  }

  lemma TwoReviewsWithUsers(h: string)
    ensures var df, e := TwoReviews(), UserEntry(UserKey(7, "Amy", "a@x.com"), 1, h);
      WithUsers(df, h) == [(df[0], Some(e)), (df[1], Some(e))]
  {
    var df, e := TwoReviews(), UserEntry(UserKey(7, "Amy", "a@x.com"), 1, h);
    TwoReviewsUsers(h);
    MatchesSingle(UserKey(7, "Amy", "a@x.com"), [e], EntryKey, 0);
    LeftJoinOneToOne(df, [e], UserKeyOf, EntryKey);
  }

  lemma TwoReviewsMerged(h: string)
    ensures var df, e, m := TwoReviews(), UserEntry(UserKey(7, "Amy", "a@x.com"), 1, h), Movie(1, "Dune", "Sci-Fi", 2021, "V");
      WithMovies(df, h) == [((df[0], Some(e)), Some(m)), ((df[1], Some(e)), Some(m))]
  {
    var df, e, m := TwoReviews(), UserEntry(UserKey(7, "Amy", "a@x.com"), 1, h), Movie(1, "Dune", "Sci-Fi", 2021, "V");
    TwoReviewsWithUsers(h);
    TwoReviewsMovies();
    var w := [(df[0], Some(e)), (df[1], Some(e))];
    MatchesSingle("Dune", [m], MovieTitle, 0);
    LeftJoinOneToOne(w, [m], JoinedTitle, MovieTitle);
  }

  /** One user, one movie, two reviews, both resolved to id 1. */
  lemma TwoReviewsNormalised(h: string)
    ensures Preprocess(TwoReviews(), h) == Tables(
        [User(1, "Amy", "a@x.com", h)],
        [Movie(1, "Dune", "Sci-Fi", 2021, "V")],
        [Review(1, Some(1), Some(1), 9, "great", "01-06-2022"),
         Review(2, Some(1), Some(1), 8, "rewatch", "02-06-2022")])
  {
    TwoReviewsUsers(h);
    TwoReviewsMovies();
    TwoReviewsMerged(h);
  }

  /** A single row whose date does not parse rolls the load back with that
      date's error. */
  lemma SingleRowRollsBack(r: SourceRow, h: string)
    requires ParseDate(r.reviewDate).Err?
    ensures LoadData([r], h) == RolledBack(ParseDate(r.reviewDate).error)
  {
    LoadCommitsIffDatesParse([r], h);
  }

  /** One row with an impossible month: the load rolls back. */
  lemma MonthThirteenRollsBack(h: string)
    ensures LoadData([TwoReviews()[0].(reviewDate := "31-13-2022")], h) == RolledBack(FormatMismatch)
  {
    MonthThirteenRefused();
    SingleRowRollsBack(TwoReviews()[0].(reviewDate := "31-13-2022"), h);
  }

  /** Two films titled "Dune": the merge on the title alone pairs each row
      with both, so REVIEWS has more rows than the input. */
  lemma SharedTitleDuplicates(h: string)
    ensures var df := [TwoReviews()[0], TwoReviews()[1].(releaseYear := 1984, director := "L")];
      |ReviewsToLoad(df, h)| > |df|
  {
    var df := [TwoReviews()[0], TwoReviews()[1].(releaseYear := 1984, director := "L")];
    assert df[0].title == df[1].title && MovieKeyOf(df[0]) != MovieKeyOf(df[1]);
    ReviewCountExact(df, h);
  }
}
