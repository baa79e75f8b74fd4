/** The REVIEWS part of `load_data_to_oracle`: the loop that turns every
    review row into the tuple handed to `executemany`, parsing its date, and
    what a failing date does to the whole load. */
module Loader {
  import opened Wrappers
  import opened Dates
  import opened Normalize

  /** One tuple of `review_data`: the review with its date parsed. */
  datatype ReviewRecord = ReviewRecord(
    reviewId: nat, userId: Option<nat>, movieId: Option<nat>,
    rating: int, reviewText: string, reviewDate: Date)

  function RecordOf(r: Review, date: Date): ReviewRecord {
    ReviewRecord(r.reviewId, r.userId, r.movieId, r.rating, r.reviewText, date)
  }

  /** The loop as a function over its input, extended one row at a time:
      the first date that does not parse raises, and no tuples are kept. */
  function ConvertReviews(rows: seq<Review>): (r: Result<seq<ReviewRecord>, DateError>)
    ensures r.Ok? <==> forall i :: 0 <= i < |rows| ==> ParseDate(rows[i].reviewDate).Ok?
    ensures r.Ok? ==>
      && |r.value| == |rows|
      && forall i :: 0 <= i < |rows| ==> r.value[i] == RecordOf(rows[i], ParseDate(rows[i].reviewDate).value)
    ensures r.Err? ==>
      exists i :: && 0 <= i < |rows| && ParseDate(rows[i].reviewDate) == Err(r.error)
                  && forall j :: 0 <= j < i ==> ParseDate(rows[j].reviewDate).Ok?
  {
    if rows == [] then Ok([])
    else
      var init, last := rows[..|rows| - 1], rows[|rows| - 1];
      assert rows == init + [last];
      var prefix := ConvertReviews(init);
      if prefix.Err? then prefix
      else
        var date := ParseDate(last.reviewDate);
        if date.Err? then Err(date.error)
        else Ok(prefix.value + [RecordOf(last, date.value)])
  }

  /** Once a prefix has failed, the whole batch fails with the same error. */
  lemma {:induction false} ConvertErrExtends(rows: seq<Review>, n: nat)
    requires n <= |rows| && ConvertReviews(rows[..n]).Err?
    ensures ConvertReviews(rows) == ConvertReviews(rows[..n])
    decreases |rows| - n
  {
    if n < |rows| {
      var p := rows[..n + 1];
      assert p[..|p| - 1] == rows[..n];
      ConvertErrExtends(rows, n + 1);
    } else {
      assert rows[..n] == rows;
    }
  }

  /** One more row: a batch whose prefix converted either fails on that
      row's date or gains its tuple. */
  lemma ConvertStep(rows: seq<Review>, i: nat)
    requires i < |rows| && ConvertReviews(rows[..i]).Ok?
    ensures ParseDate(rows[i].reviewDate).Err? ==>
      ConvertReviews(rows[..i + 1]) == Err(ParseDate(rows[i].reviewDate).error)
    ensures ParseDate(rows[i].reviewDate).Ok? ==>
      ConvertReviews(rows[..i + 1]) == Ok(ConvertReviews(rows[..i]).value + [RecordOf(rows[i], ParseDate(rows[i].reviewDate).value)])
  {
    assert rows[..i + 1][..i] == rows[..i];
  }

  /** The `for index, row in reviews_df.iterrows()` loop: appends one tuple
      per row, or stops at the first `strptime` failure. */
  method BuildReviewData(rows: seq<Review>) returns (result: Result<seq<ReviewRecord>, DateError>)
    ensures result == ConvertReviews(rows)
  {
    var reviewData: seq<ReviewRecord> := [];
    var i := 0;
    while i < |rows|
      invariant 0 <= i <= |rows|
      invariant ConvertReviews(rows[..i]) == Ok(reviewData)
    {
      var date := ParseDate(rows[i].reviewDate);
      ConvertStep(rows, i);
      if date.Err? {
        ConvertErrExtends(rows, i + 1);
        return Err(date.error);
      }
      reviewData := reviewData + [RecordOf(rows[i], date.value)];
      i := i + 1;
    }
    assert rows[..i] == rows;
    result := Ok(reviewData);
  }

  /** What the database holds after the load. Nothing is committed before
      the final commit, so a failure in the REVIEWS step rolls back the USERS
      and MOVIES inserts as well. */
  datatype LoadOutcome =
    | Committed(users: seq<User>, movies: seq<Movie>, reviews: seq<ReviewRecord>)
    | RolledBack(error: DateError)

  /** `load_data_to_oracle` with the file read, the database reachable and
      every insert accepted. */
  function LoadData(df: seq<SourceRow>, hashedPassword: string): LoadOutcome {
    var tables := Preprocess(df, hashedPassword);
    match ConvertReviews(tables.reviews)
    case Ok(records) => Committed(tables.users, tables.movies, records)
    case Err(e) => RolledBack(e)
  }

  /** The input row whose date review `k` carries. */
  lemma RowOfReview(df: seq<SourceRow>, h: string, k: nat) returns (i: nat)
    requires k < |ReviewsToLoad(df, h)|
    ensures i < |df| && ReviewsToLoad(df, h)[k].reviewDate == df[i].reviewDate
  {
    i := ReviewResolvesAt(df, h, k);
  }

  /** A review that carries the date of input row `i`. */
  lemma ReviewOfRow(df: seq<SourceRow>, h: string, i: nat) returns (k: nat)
    requires i < |df|
    ensures k < |ReviewsToLoad(df, h)| && ReviewsToLoad(df, h)[k].reviewDate == df[i].reviewDate
  {
    var x := MovieOfRow(df, i);
    k := ReviewForMovie(df, h, i, x);
  }

  /** The load commits exactly when every input row's date parses; then the
      tables are the normalised ones and each review carries the date its row
      wrote. Otherwise it rolls back with the error of some input row. */
  lemma LoadCommitsIffDatesParse(df: seq<SourceRow>, h: string)
    ensures LoadData(df, h).Committed? <==> forall i :: 0 <= i < |df| ==> ParseDate(df[i].reviewDate).Ok?
    ensures LoadData(df, h).Committed? ==>
      var o, rv := LoadData(df, h), ReviewsToLoad(df, h);
      && o.users == UsersToLoad(df, h) && o.movies == Movies(df)
      && |o.reviews| == |rv|
      && forall k :: 0 <= k < |rv| ==> o.reviews[k] == RecordOf(rv[k], ParseDate(rv[k].reviewDate).value)
    ensures LoadData(df, h).RolledBack? ==>
      exists i :: 0 <= i < |df| && ParseDate(df[i].reviewDate) == Err(LoadData(df, h).error)
  {
    var rv := ReviewsToLoad(df, h);
    var c := ConvertReviews(rv);
    if c.Err? {
      var k :| 0 <= k < |rv| && ParseDate(rv[k].reviewDate) == Err(c.error);
      var i := RowOfReview(df, h, k);
    } else {
      forall i | 0 <= i < |df| ensures ParseDate(df[i].reviewDate).Ok? {
        var k := ReviewOfRow(df, h, i);
      }
    }
  }
}
