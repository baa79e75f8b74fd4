/** `preprocess_and_save_data` of the loader: one flat table, one row per
    review with the user and movie attributes repeated, is split into the
    USERS, MOVIES and REVIEWS row sets with dense surrogate keys. */
module Normalize {
  import opened Wrappers
  import opened Seqs
  import opened Join

  /** One row of the input table. */
  datatype SourceRow = SourceRow(
    userId: int, name: string, email: string,
    title: string, genre: string, releaseYear: int, director: string,
    rating: int, reviewText: string, reviewDate: string)

  /** The columns users are deduplicated on. */
  datatype UserKey = UserKey(userId: int, name: string, email: string)

  /** The columns movies are deduplicated on. */
  datatype MovieKey = MovieKey(title: string, genre: string, releaseYear: int, director: string)

  function UserKeyOf(r: SourceRow): UserKey {
    UserKey(r.userId, r.name, r.email)
  }

  function MovieKeyOf(r: SourceRow): MovieKey {
    MovieKey(r.title, r.genre, r.releaseYear, r.director)
  }

  function UserKeys(df: seq<SourceRow>): seq<UserKey> {
    seq(|df|, i requires 0 <= i < |df| => UserKeyOf(df[i]))
  }

  function MovieKeys(df: seq<SourceRow>): seq<MovieKey> {
    seq(|df|, i requires 0 <= i < |df| => MovieKeyOf(df[i]))
  }

  /** A row of the intermediate user frame: the raw triple, the new dense
      `clean_user_id` and the shared password hash. */
  datatype UserEntry = UserEntry(key: UserKey, cleanUserId: nat, passwordHash: string)

  /** A row of the USERS table. */
  datatype User = User(userId: nat, name: string, email: string, passwordHash: string)

  /** A row of the MOVIES table. */
  datatype Movie = Movie(movieId: nat, title: string, genre: string, releaseYear: int, director: string)

  /** A row of the REVIEWS table; a key the left merges could not resolve
      would be missing (NaN), which `None` stands for. */
  datatype Review = Review(
    reviewId: nat, userId: Option<nat>, movieId: Option<nat>,
    rating: int, reviewText: string, reviewDate: string)

  /** The three row sets handed to the database. */
  datatype Tables = Tables(users: seq<User>, movies: seq<Movie>, reviews: seq<Review>)

  /** The intermediate user frame: distinct triples in first-seen order,
      numbered from 1 by position, each with the one precomputed hash. */
  function UserTable(df: seq<SourceRow>, hashedPassword: string): seq<UserEntry> {
    var d := Distinct(UserKeys(df));
    seq(|d|, i requires 0 <= i < |d| => UserEntry(d[i], i + 1, hashedPassword))
  }

  /** USERS: the user frame without the raw user id. */
  function UsersToLoad(df: seq<SourceRow>, hashedPassword: string): seq<User> {
    var t := UserTable(df, hashedPassword);
    seq(|t|, i requires 0 <= i < |t| => User(t[i].cleanUserId, t[i].key.name, t[i].key.email, t[i].passwordHash))
  }

  function MovieKeyOfMovie(m: Movie): MovieKey {
    MovieKey(m.title, m.genre, m.releaseYear, m.director)
  }

  /** MOVIES: distinct movie tuples in first-seen order, `movie_id` from 1 in
      front. */
  function Movies(df: seq<SourceRow>): seq<Movie> {
    var d := Distinct(MovieKeys(df));
    seq(|d|, i requires 0 <= i < |d| => Movie(i + 1, d[i].title, d[i].genre, d[i].releaseYear, d[i].director))
  }

  function EntryKey(u: UserEntry): UserKey {
    u.key
  }

  function MovieTitle(m: Movie): string {
    m.title
  }

  function JoinedTitle(p: (SourceRow, Option<UserEntry>)): string {
    p.0.title
  }

  /** The first merge: each source row with its user entry, on the triple. */
  function WithUsers(df: seq<SourceRow>, hashedPassword: string): seq<(SourceRow, Option<UserEntry>)> {
    LeftJoin(df, UserTable(df, hashedPassword), UserKeyOf, EntryKey)
  }

  /** The second merge: each of those rows with a movie, on the title alone. */
  function WithMovies(df: seq<SourceRow>, hashedPassword: string): seq<((SourceRow, Option<UserEntry>), Option<Movie>)> {
    LeftJoin(WithUsers(df, hashedPassword), Movies(df), JoinedTitle, MovieTitle)
  }

  function ReviewOf(reviewId: nat, row: ((SourceRow, Option<UserEntry>), Option<Movie>)): Review {
    var src := row.0.0;
    Review(
      reviewId,
      if row.0.1.Some? then Some(row.0.1.value.cleanUserId) else None,
      if row.1.Some? then Some(row.1.value.movieId) else None,
      src.rating, src.reviewText, src.reviewDate)
  }

  /** REVIEWS: the merged rows, numbered from 1 in output order. */
  function ReviewsToLoad(df: seq<SourceRow>, hashedPassword: string): seq<Review> {
    var rows := WithMovies(df, hashedPassword);
    seq(|rows|, k requires 0 <= k < |rows| => ReviewOf(k + 1, rows[k]))
  }

  /** `preprocess_and_save_data(df)`, with the hash of the default password
      computed beforehand. */
  function Preprocess(df: seq<SourceRow>, hashedPassword: string): Tables {
    Tables(UsersToLoad(df, hashedPassword), Movies(df), ReviewsToLoad(df, hashedPassword))
  }

  /** Every row sharing a title with another has the same movie tuple. */
  predicate TitlesUnambiguous(df: seq<SourceRow>) {
    forall i, j :: 0 <= i < |df| && 0 <= j < |df| && df[i].title == df[j].title ==>
      MovieKeyOf(df[i]) == MovieKeyOf(df[j])
  }

  /** `row` resolves to review `rv`: same rating, text and date, a user entry
      with the row's triple, and a movie with the row's title. */
  predicate Resolves(users: seq<UserEntry>, movies: seq<Movie>, row: SourceRow, rv: Review) {
    && rv.rating == row.rating && rv.reviewText == row.reviewText && rv.reviewDate == row.reviewDate
    && rv.userId.Some? && 1 <= rv.userId.value <= |users| && users[rv.userId.value - 1].key == UserKeyOf(row)
    && rv.movieId.Some? && 1 <= rv.movieId.value <= |movies| && movies[rv.movieId.value - 1].title == row.title
  }

  // ---------------------------------------------------------------- USERS

  /** The user frame holds exactly the distinct triples of the input, each
      once, in order of first appearance. */
  lemma UserTableFirstSeen(df: seq<SourceRow>, h: string)
    ensures var t, ks := UserTable(df, h), UserKeys(df);
      && |t| == |Elements(ks)|
      && (forall i, j :: 0 <= i < j < |t| ==> t[i].key != t[j].key)
      && (forall i :: 0 <= i < |df| ==> exists j :: 0 <= j < |t| && t[j].key == UserKeyOf(df[i]))
      && (forall j :: 0 <= j < |t| ==> t[j].key in ks)
      && (forall i, j :: 0 <= i < j < |t| ==> FirstIndex(ks, t[i].key) < FirstIndex(ks, t[j].key))
  {
    var t, ks := UserTable(df, h), UserKeys(df);
    var d := Distinct(ks);
    DistinctCardinality(ks);
    forall i | 0 <= i < |df| ensures exists j :: 0 <= j < |t| && t[j].key == UserKeyOf(df[i]) {
      assert ks[i] in d;
      var j := FirstIndex(d, ks[i]);
      assert t[j].key == d[j];
    }
    forall i, j | 0 <= i < j < |t| ensures FirstIndex(ks, t[i].key) < FirstIndex(ks, t[j].key) {
      DistinctOrder(ks, i, j);
    }
  }

  /** `clean_user_id` runs 1..N by position, and the id of a triple is one
      more than the number of distinct triples that appear before its first
      row. */
  lemma UserIdsDense(df: seq<SourceRow>, h: string)
    ensures var t, ks := UserTable(df, h), UserKeys(df);
      forall j :: 0 <= j < |t| ==>
        && t[j].cleanUserId == j + 1
        && t[j].key in ks
        && t[j].cleanUserId == 1 + |Distinct(ks[..FirstIndex(ks, t[j].key)])|
  {
    var ks := UserKeys(df);
    forall j | 0 <= j < |Distinct(ks)| ensures |Distinct(ks[..FirstIndex(ks, Distinct(ks)[j])])| == j {
      DistinctRankAt(ks, j);
    }
  }

  /** USERS has one row per distinct triple: row `i` is user entry `i`
      without the raw id, so it has id `i + 1`, that triple's name and
      e-mail, which are those of an input row, and the same password hash as
      every other row. */
  lemma UsersShareOneHash(df: seq<SourceRow>, h: string)
    ensures var users, t := UsersToLoad(df, h), UserTable(df, h);
      && |users| == |t| == |Elements(UserKeys(df))|
      && forall i :: 0 <= i < |users| ==>
           && users[i].userId == i + 1 == t[i].cleanUserId
           && users[i].name == t[i].key.name && users[i].email == t[i].key.email
           && users[i].passwordHash == h
           && exists r :: r in df && r.name == users[i].name && r.email == users[i].email
  {
    var t, ks := UserTable(df, h), UserKeys(df);
    var d := Distinct(ks);
    var users := UsersToLoad(df, h);
    DistinctCardinality(ks);
    assert |users| == |t| == |d|;
    forall i | 0 <= i < |users|
      ensures exists r :: r in df && r.name == users[i].name && r.email == users[i].email
    {
      assert t[i].key == d[i] && d[i] in ks;
      var j :| 0 <= j < |ks| && ks[j] == d[i];
      assert df[j] in df && df[j].name == users[i].name && df[j].email == users[i].email;
    }
  }

  // --------------------------------------------------------------- MOVIES

  /** MOVIES holds exactly the distinct movie tuples of the input, each once,
      in order of first appearance, with ids 1..M by position. */
  lemma MoviesFirstSeen(df: seq<SourceRow>)
    ensures var ms, ks := Movies(df), MovieKeys(df);
      && |ms| == |Elements(ks)|
      && (forall i, j :: 0 <= i < j < |ms| ==> MovieKeyOfMovie(ms[i]) != MovieKeyOfMovie(ms[j]))
      && (forall i :: 0 <= i < |df| ==> exists j :: 0 <= j < |ms| && MovieKeyOfMovie(ms[j]) == MovieKeyOf(df[i]))
      && (forall j :: 0 <= j < |ms| ==> MovieKeyOfMovie(ms[j]) in ks && ms[j].movieId == j + 1)
      && (forall i, j :: 0 <= i < j < |ms| ==> FirstIndex(ks, MovieKeyOfMovie(ms[i])) < FirstIndex(ks, MovieKeyOfMovie(ms[j])))
  {
    var ms, ks := Movies(df), MovieKeys(df);
    var d := Distinct(ks);
    assert forall j :: 0 <= j < |ms| ==> MovieKeyOfMovie(ms[j]) == d[j];
    DistinctCardinality(ks);
    forall i | 0 <= i < |df| ensures exists j :: 0 <= j < |ms| && MovieKeyOfMovie(ms[j]) == MovieKeyOf(df[i]) {
      assert ks[i] in d;
    }
    forall i, j | 0 <= i < j < |ms| ensures FirstIndex(ks, MovieKeyOfMovie(ms[i])) < FirstIndex(ks, MovieKeyOfMovie(ms[j])) {
      DistinctOrder(ks, i, j);
    }
  }

  /** The id of a movie tuple is one more than the number of distinct tuples
      that appear before its first row. */
  lemma MovieIdsByFirstAppearance(df: seq<SourceRow>)
    ensures var ms, ks := Movies(df), MovieKeys(df);
      forall j :: 0 <= j < |ms| ==>
        && MovieKeyOfMovie(ms[j]) in ks
        && ms[j].movieId == 1 + |Distinct(ks[..FirstIndex(ks, MovieKeyOfMovie(ms[j]))])|
  {
    var ms, ks := Movies(df), MovieKeys(df);
    forall j | 0 <= j < |ms|
      ensures MovieKeyOfMovie(ms[j]) in ks
      ensures ms[j].movieId == 1 + |Distinct(ks[..FirstIndex(ks, MovieKeyOfMovie(ms[j]))])|
    {
      assert MovieKeyOfMovie(ms[j]) == Distinct(ks)[j];
      DistinctRankAt(ks, j);
    }
  }

  // -------------------------------------------------------- the user merge

  /** The merge on the triple finds exactly one user entry for every row, so
      it keeps the rows one for one. */
  lemma WithUsersExact(df: seq<SourceRow>, h: string)
    ensures var t, w := UserTable(df, h), WithUsers(df, h);
      && |w| == |df|
      && forall i :: 0 <= i < |df| ==>
           && w[i].0 == df[i]
           && w[i].1.Some?
           && 1 <= w[i].1.value.cleanUserId <= |t|
           && t[w[i].1.value.cleanUserId - 1] == w[i].1.value
           && w[i].1.value.key == UserKeyOf(df[i])
  {
    var t, w := UserTable(df, h), WithUsers(df, h);
    WithUsersOneToOne(df, h);
    forall i | 0 <= i < |df|
      ensures && w[i].0 == df[i]
              && w[i].1.Some?
              && 1 <= w[i].1.value.cleanUserId <= |t|
              && t[w[i].1.value.cleanUserId - 1] == w[i].1.value
              && w[i].1.value.key == UserKeyOf(df[i])
    {
      var j := UserMatchOfRow(df, h, i);
      assert w[i] == (df[i], Some(t[j]));
    }
  }

  /** Every row's triple matches exactly one user entry, so the merge on the
      triple pairs row `i` with that entry. */
  lemma WithUsersOneToOne(df: seq<SourceRow>, h: string)
    ensures |WithUsers(df, h)| == |df|
    ensures forall i :: 0 <= i < |df| ==> |Matches(UserKeyOf(df[i]), UserTable(df, h), EntryKey)| == 1
    ensures forall i :: 0 <= i < |df| ==>
      WithUsers(df, h)[i] == (df[i], Some(Matches(UserKeyOf(df[i]), UserTable(df, h), EntryKey)[0]))
  {
    var t := UserTable(df, h);
    forall i | 0 <= i < |df| ensures |Matches(UserKeyOf(df[i]), t, EntryKey)| == 1 {
      var j := UserMatchOfRow(df, h, i);
    }
    LeftJoinOneToOne(df, t, UserKeyOf, EntryKey);
  }

  /** The one user entry that row `i`'s triple matches. */
  lemma UserMatchOfRow(df: seq<SourceRow>, h: string, i: nat) returns (j: nat)
    requires i < |df|
    ensures j < |UserTable(df, h)|
    ensures Matches(UserKeyOf(df[i]), UserTable(df, h), EntryKey) == [UserTable(df, h)[j]]
    ensures UserTable(df, h)[j].cleanUserId == j + 1 && UserTable(df, h)[j].key == UserKeyOf(df[i])
  {
    var t, ks := UserTable(df, h), UserKeys(df);
    var d := Distinct(ks);
    assert ks[i] in d;
    j := FirstIndex(d, ks[i]);
    NoDupIndex(d, j);
    MatchesSingle(UserKeyOf(df[i]), t, EntryKey, j);
  }

  // ------------------------------------------------------- the movie merge

  /** Position `FirstIndex(Distinct(MovieKeys(df)), ...)` of MOVIES holds
      the tuple of row `i`. */
  lemma MovieOfRow(df: seq<SourceRow>, i: nat) returns (x: nat)
    requires i < |df|
    ensures x < |Movies(df)| && MovieKeyOfMovie(Movies(df)[x]) == MovieKeyOf(df[i])
    ensures forall y :: 0 <= y < |Movies(df)| && MovieKeyOfMovie(Movies(df)[y]) == MovieKeyOf(df[i]) ==> y == x
  {
    var ks := MovieKeys(df);
    var d := Distinct(ks);
    assert ks[i] in d;
    x := FirstIndex(d, ks[i]);
    forall y | 0 <= y < |Movies(df)| && MovieKeyOfMovie(Movies(df)[y]) == MovieKeyOf(df[i]) ensures y == x {
      assert d[y] == MovieKeyOfMovie(Movies(df)[y]);
      NoDupIndex(d, y);
    }
  }

  /** Every movie tuple is the tuple of some input row. */
  lemma RowOfMovie(df: seq<SourceRow>, y: nat) returns (j: nat)
    requires y < |Movies(df)|
    ensures j < |df| && MovieKeyOf(df[j]) == MovieKeyOfMovie(Movies(df)[y])
  {
    var ks := MovieKeys(df);
    var d := Distinct(ks);
    assert d[y] == MovieKeyOfMovie(Movies(df)[y]);
    assert d[y] in ks;
    j :| 0 <= j < |ks| && ks[j] == d[y];
  }

  /** A row's title matches at least one movie, and exactly one when every
      row with that title has the same movie tuple. */
  lemma MovieMatchesOfRow(df: seq<SourceRow>, i: nat)
    requires i < |df|
    ensures var n := |Matches(df[i].title, Movies(df), MovieTitle)|;
      && n >= 1
      && (n == 1 <==> forall j :: 0 <= j < |df| && df[j].title == df[i].title ==> MovieKeyOf(df[j]) == MovieKeyOf(df[i]))
  {
    var ms := Movies(df);
    var x := MovieOfRow(df, i);
    assert ms[x] in Matches(df[i].title, ms, MovieTitle);
    if forall j :: 0 <= j < |df| && df[j].title == df[i].title ==> MovieKeyOf(df[j]) == MovieKeyOf(df[i]) {
      forall y | 0 <= y < |ms| && y != x ensures MovieTitle(ms[y]) != df[i].title {
        var j := RowOfMovie(df, y);
      }
      MatchesSingle(df[i].title, ms, MovieTitle, x);
    } else {
      var j :| 0 <= j < |df| && df[j].title == df[i].title && MovieKeyOf(df[j]) != MovieKeyOf(df[i]);
      var y := MovieOfRow(df, j);
      if x < y {
        MatchesTwo(df[i].title, ms, MovieTitle, x, y);
      } else {
        MatchesTwo(df[i].title, ms, MovieTitle, y, x);
      }
    }
  }

  /** Row `i` of the user merge matches at most one movie exactly when every
      row with its title has its movie tuple. */
  lemma JoinedRowMatches(df: seq<SourceRow>, h: string, i: nat)
    requires i < |df|
    ensures |WithUsers(df, h)| == |df|
    ensures |Matches(JoinedTitle(WithUsers(df, h)[i]), Movies(df), MovieTitle)| <= 1 <==>
      forall j :: 0 <= j < |df| && df[j].title == df[i].title ==> MovieKeyOf(df[j]) == MovieKeyOf(df[i])
  {
    var e := WithUsersAt(df, h, i);
    MovieMatchesOfRow(df, i);
  }

  /** REVIEWS has as many rows as the input exactly when no title is shared
      by two different movie tuples; otherwise such a row is repeated once
      per movie with its title. */
  lemma ReviewCountExact(df: seq<SourceRow>, h: string)
    ensures |ReviewsToLoad(df, h)| >= |df|
    ensures |ReviewsToLoad(df, h)| == |df| <==> TitlesUnambiguous(df)
  {
    var w, ms := WithUsers(df, h), Movies(df);
    WithUsersLength(df, h);
    LeftJoinSameLength(w, ms, JoinedTitle, MovieTitle);
    forall i | 0 <= i < |df|
      ensures |Matches(JoinedTitle(w[i]), ms, MovieTitle)| <= 1 <==>
        forall j :: 0 <= j < |df| && df[j].title == df[i].title ==> MovieKeyOf(df[j]) == MovieKeyOf(df[i])
    {
      JoinedRowMatches(df, h, i);
    }
  }

  // ---------------------------------------------------------------- REVIEWS

  /** The number of reviews the rows `rows` give when merged on title with
      the movies `ms`: one per movie that has the row's title. */
  function ReviewTotal(rows: seq<SourceRow>, ms: seq<Movie>): nat {
    if rows == [] then 0
    else ReviewTotal(rows[..|rows| - 1], ms) + |Matches(rows[|rows| - 1].title, ms, MovieTitle)|
  }

  lemma ReviewTotalStep(rows: seq<SourceRow>, ms: seq<Movie>, i: nat)
    requires i < |rows|
    ensures ReviewTotal(rows[..i + 1], ms) == ReviewTotal(rows[..i], ms) + |Matches(rows[i].title, ms, MovieTitle)|
  {
    assert rows[..i + 1][..i] == rows[..i];
  }

  /** Rows carrying the input rows, in order, whose titles all match some
      movie, have as many merge rows in their first `i` blocks as the first
      `i` input rows have reviews. */
  lemma {:induction false} BlocksOfRows(w: seq<(SourceRow, Option<UserEntry>)>, df: seq<SourceRow>, ms: seq<Movie>, i: nat)
    requires |w| == |df| && i <= |df|
    requires forall j :: 0 <= j < |df| ==> w[j].0 == df[j] && |Matches(df[j].title, ms, MovieTitle)| >= 1
    ensures BlocksLength(w[..i], ms, JoinedTitle, MovieTitle) == ReviewTotal(df[..i], ms)
  {
    if i > 0 {
      BlocksOfRows(w, df, ms, i - 1);
      BlocksOfRowsStep(w, df, ms, i - 1);
    }
  }

  /** Adding row `j` adds as many merge rows as row `j` has reviews. */
  lemma BlocksOfRowsStep(w: seq<(SourceRow, Option<UserEntry>)>, df: seq<SourceRow>, ms: seq<Movie>, j: nat)
    requires |w| == |df| && j < |df|
    requires w[j].0 == df[j] && |Matches(df[j].title, ms, MovieTitle)| >= 1
    ensures BlocksLength(w[..j + 1], ms, JoinedTitle, MovieTitle) ==
      BlocksLength(w[..j], ms, JoinedTitle, MovieTitle) + |Matches(df[j].title, ms, MovieTitle)|
    ensures ReviewTotal(df[..j + 1], ms) == ReviewTotal(df[..j], ms) + |Matches(df[j].title, ms, MovieTitle)|
  {
    BlocksLengthStep(w, ms, JoinedTitle, MovieTitle, j);
    JoinOneLength(w[j], ms, JoinedTitle, MovieTitle);
    assert JoinedTitle(w[j]) == df[j].title;
    ReviewTotalStep(df, ms, j);
  }

  /** Row `j` of the user merge carries input row `j`, whose title names at
      least one movie. */
  lemma WithUsersCarryRows(df: seq<SourceRow>, h: string)
    ensures |WithUsers(df, h)| == |df|
    ensures forall j :: 0 <= j < |df| ==>
      WithUsers(df, h)[j].0 == df[j] && |Matches(df[j].title, Movies(df), MovieTitle)| >= 1
  {
    WithUsersExact(df, h);
    forall j | 0 <= j < |df| ensures |Matches(df[j].title, Movies(df), MovieTitle)| >= 1 {
      MovieMatchesOfRow(df, j);
    }
  }

  /** REVIEWS has exactly one row per pair of an input row and a movie with
      that row's title. */
  lemma ReviewsLength(df: seq<SourceRow>, h: string)
    ensures |ReviewsToLoad(df, h)| == ReviewTotal(df, Movies(df))
  {
    var w := WithUsers(df, h);
    WithUsersCarryRows(df, h);
    LeftJoinCount(w, Movies(df), JoinedTitle, MovieTitle);
    BlocksOfRows(w, df, Movies(df), |df|);
    assert w[..|w|] == w && df[..|df|] == df;
  }

  /** The review built from merge row `k`, when that row pairs row `i` of
      the user merge with a movie of its title. */
  lemma ReviewOfBlockRow(df: seq<SourceRow>, h: string, i: nat, k: nat, x: nat)
    requires i < |df| && x < |Movies(df)| && Movies(df)[x].title == df[i].title
    requires |WithUsers(df, h)| == |df| && k < |WithMovies(df, h)|
    requires WithMovies(df, h)[k] == (WithUsers(df, h)[i], Some(Movies(df)[x]))
    ensures k < |ReviewsToLoad(df, h)|
    ensures ReviewsToLoad(df, h)[k].reviewId == k + 1
    ensures ReviewsToLoad(df, h)[k].movieId == Some(x + 1)
    ensures Resolves(UserTable(df, h), Movies(df), df[i], ReviewsToLoad(df, h)[k])
  {
    var e := WithUsersAt(df, h, i);
    ReviewAt(df, h, k);
    MovieById(df, Movies(df)[x]);
    ResolvesOf(UserTable(df, h), Movies(df), df[i], e, Movies(df)[x], k + 1);
  }

  /** The block of row `i` when rows carrying the input rows, in order, are
      merged with `ms` on title: it starts at `o`, the number of reviews of
      the rows before it, and pairs row `i` with each movie of its title, in
      the order of `ms`. */
  lemma BlockOfRow(w: seq<(SourceRow, Option<UserEntry>)>, df: seq<SourceRow>, ms: seq<Movie>, i: nat) returns (o: nat, idx: seq<nat>)
    requires |w| == |df| && i < |df|
    requires forall j :: 0 <= j < |df| ==> w[j].0 == df[j] && |Matches(df[j].title, ms, MovieTitle)| >= 1
    ensures o == ReviewTotal(df[..i], ms)
    ensures ReviewTotal(df[..i + 1], ms) == o + |idx|
    ensures |idx| >= 1 && o + |idx| <= |LeftJoin(w, ms, JoinedTitle, MovieTitle)|
    ensures forall t, u :: 0 <= t < u < |idx| ==> idx[t] < idx[u]
    ensures forall x :: 0 <= x < |ms| && ms[x].title == df[i].title ==> x in idx
    ensures forall t :: 0 <= t < |idx| ==>
      && idx[t] < |ms| && ms[idx[t]].title == df[i].title
      && LeftJoin(w, ms, JoinedTitle, MovieTitle)[o + t] == (w[i], Some(ms[idx[t]]))
  {
    idx := BlockRows(w, df, ms, i);
    o := BlockPlacement(w, df, ms, i);
  }

  /** Row `i`'s block on its own: row `i` paired with each movie of its
      title, in the order of `ms`. */
  lemma BlockRows(w: seq<(SourceRow, Option<UserEntry>)>, df: seq<SourceRow>, ms: seq<Movie>, i: nat) returns (idx: seq<nat>)
    requires |w| == |df| && i < |df|
    requires forall j :: 0 <= j < |df| ==> w[j].0 == df[j] && |Matches(df[j].title, ms, MovieTitle)| >= 1
    ensures |idx| >= 1 && |JoinOne(w[i], ms, JoinedTitle, MovieTitle)| == |idx|
    ensures forall t, u :: 0 <= t < u < |idx| ==> idx[t] < idx[u]
    ensures forall x :: 0 <= x < |ms| && ms[x].title == df[i].title ==> x in idx
    ensures forall t :: 0 <= t < |idx| ==>
      && idx[t] < |ms| && ms[idx[t]].title == df[i].title
      && JoinOne(w[i], ms, JoinedTitle, MovieTitle)[t] == (w[i], Some(ms[idx[t]]))
  {
    idx := JoinOneInOrder(w[i], ms, JoinedTitle, MovieTitle);
    assert JoinedTitle(w[i]) == df[i].title;
  }

  /** Where row `i`'s block sits in the merge: at `o`, right after as many
      rows as the earlier input rows have reviews. */
  lemma BlockPlacement(w: seq<(SourceRow, Option<UserEntry>)>, df: seq<SourceRow>, ms: seq<Movie>, i: nat) returns (o: nat)
    requires |w| == |df| && i < |df|
    requires forall j :: 0 <= j < |df| ==> w[j].0 == df[j] && |Matches(df[j].title, ms, MovieTitle)| >= 1
    ensures o == ReviewTotal(df[..i], ms)
    ensures ReviewTotal(df[..i + 1], ms) == o + |JoinOne(w[i], ms, JoinedTitle, MovieTitle)|
    ensures o + |JoinOne(w[i], ms, JoinedTitle, MovieTitle)| <= |LeftJoin(w, ms, JoinedTitle, MovieTitle)|
    ensures forall t :: 0 <= t < |JoinOne(w[i], ms, JoinedTitle, MovieTitle)| ==>
      LeftJoin(w, ms, JoinedTitle, MovieTitle)[o + t] == JoinOne(w[i], ms, JoinedTitle, MovieTitle)[t]
  {
    o := LeftJoinRowsOfBlock(w, ms, JoinedTitle, MovieTitle, i);
    BlocksOfRows(w, df, ms, i);
    BlocksOfRows(w, df, ms, i + 1);
  }

  /** Row `i`'s block of the movie merge. */
  lemma MergeBlockOfRow(df: seq<SourceRow>, h: string, i: nat) returns (o: nat, idx: seq<nat>)
    requires i < |df|
    ensures |WithUsers(df, h)| == |df|
    ensures o == ReviewTotal(df[..i], Movies(df))
    ensures ReviewTotal(df[..i + 1], Movies(df)) == o + |idx|
    ensures |idx| >= 1 && o + |idx| <= |WithMovies(df, h)|
    ensures forall t, u :: 0 <= t < u < |idx| ==> idx[t] < idx[u]
    ensures forall x :: 0 <= x < |Movies(df)| && Movies(df)[x].title == df[i].title ==> x in idx
    ensures forall t :: 0 <= t < |idx| ==>
      && idx[t] < |Movies(df)| && Movies(df)[idx[t]].title == df[i].title
      && WithMovies(df, h)[o + t] == (WithUsers(df, h)[i], Some(Movies(df)[idx[t]]))
  {
    WithUsersCarryRows(df, h);
    o, idx := BlockOfRow(WithUsers(df, h), df, Movies(df), i);
  }

  /** Input row `i`'s reviews: they start at `o`, the number of reviews of
      the rows before it (one per movie with each earlier row's title), and
      there is one for each movie with row `i`'s title, in MOVIES order, each
      resolving row `i`. With `ReviewsLength` the blocks of consecutive rows
      tile REVIEWS, so every pair of a row and a movie of its title has
      exactly one review. */
  lemma ReviewsOfRow(df: seq<SourceRow>, h: string, i: nat) returns (o: nat, idx: seq<nat>)
    requires i < |df|
    ensures o == ReviewTotal(df[..i], Movies(df))
    ensures ReviewTotal(df[..i + 1], Movies(df)) == o + |idx|
    ensures |idx| >= 1 && o + |idx| <= |ReviewsToLoad(df, h)|
    ensures forall t, u :: 0 <= t < u < |idx| ==> idx[t] < idx[u]
    ensures forall x :: 0 <= x < |Movies(df)| && Movies(df)[x].title == df[i].title ==> x in idx
    ensures forall t :: 0 <= t < |idx| ==>
      && idx[t] < |Movies(df)| && Movies(df)[idx[t]].title == df[i].title
      && ReviewsToLoad(df, h)[o + t].reviewId == o + t + 1
      && ReviewsToLoad(df, h)[o + t].movieId == Some(idx[t] + 1)
      && Resolves(UserTable(df, h), Movies(df), df[i], ReviewsToLoad(df, h)[o + t])
  {
    o, idx := MergeBlockOfRow(df, h, i);
    var e := WithUsersAt(df, h, i);
    MovieIdsByPosition(df);
    ReviewsNumbered(df, h);
    NumberedBlock(WithMovies(df, h), ReviewsToLoad(df, h), UserTable(df, h), Movies(df), df[i], e, o, idx);
  }

  /** MOVIES is numbered by position. */
  lemma MovieIdsByPosition(df: seq<SourceRow>)
    ensures forall x :: 0 <= x < |Movies(df)| ==> Movies(df)[x].movieId == x + 1
  {
  }

  /** Review `k` is merge row `k` numbered `k + 1`. */
  lemma ReviewsNumbered(df: seq<SourceRow>, h: string)
    ensures |ReviewsToLoad(df, h)| == |WithMovies(df, h)|
    ensures forall k :: 0 <= k < |WithMovies(df, h)| ==> ReviewsToLoad(df, h)[k] == ReviewOf(k + 1, WithMovies(df, h)[k])
  {
  }

  /** Numbering a block that pairs `row`, with its user entry `e`, with the
      movies at positions `idx` gives reviews that resolve `row`, one per
      movie. */
  lemma NumberedBlock(rows: seq<((SourceRow, Option<UserEntry>), Option<Movie>)>, rv: seq<Review>,
                      users: seq<UserEntry>, ms: seq<Movie>, row: SourceRow, e: UserEntry, o: nat, idx: seq<nat>)
    requires |rv| == |rows| && forall k :: 0 <= k < |rows| ==> rv[k] == ReviewOf(k + 1, rows[k])
    requires 1 <= e.cleanUserId <= |users| && users[e.cleanUserId - 1] == e && e.key == UserKeyOf(row)
    requires forall x :: 0 <= x < |ms| ==> ms[x].movieId == x + 1
    requires o + |idx| <= |rows|
    requires forall t :: 0 <= t < |idx| ==>
      idx[t] < |ms| && ms[idx[t]].title == row.title && rows[o + t] == ((row, Some(e)), Some(ms[idx[t]]))
    ensures forall t :: 0 <= t < |idx| ==>
      && rv[o + t].reviewId == o + t + 1
      && rv[o + t].movieId == Some(idx[t] + 1)
      && Resolves(users, ms, row, rv[o + t])
  {
    forall t | 0 <= t < |idx|
      ensures rv[o + t].movieId == Some(idx[t] + 1) && Resolves(users, ms, row, rv[o + t])
    {
      ResolvesOf(users, ms, row, e, ms[idx[t]], o + t + 1);
    }
  }

  /** A movie row is the one its id names. */
  lemma MovieById(df: seq<SourceRow>, m: Movie)
    requires m in Movies(df)
    ensures 1 <= m.movieId <= |Movies(df)| && Movies(df)[m.movieId - 1] == m
  {
  }

  /** A merged row made of `row`, a user entry with its triple and a movie
      with its title gives a review that resolves `row`. */
  lemma ResolvesOf(t: seq<UserEntry>, ms: seq<Movie>, row: SourceRow, e: UserEntry, m: Movie, id: nat)
    requires 1 <= e.cleanUserId <= |t| && t[e.cleanUserId - 1] == e && e.key == UserKeyOf(row)
    requires 1 <= m.movieId <= |ms| && ms[m.movieId - 1] == m && m.title == row.title
    ensures Resolves(t, ms, row, ReviewOf(id, ((row, Some(e)), Some(m))))
  {
  }

  /** Row `i` of the user merge, the entry found for it. */
  lemma WithUsersAt(df: seq<SourceRow>, h: string, i: nat) returns (e: UserEntry)
    requires i < |df|
    ensures |WithUsers(df, h)| == |df|
    ensures WithUsers(df, h)[i] == (df[i], Some(e))
    ensures 1 <= e.cleanUserId <= |UserTable(df, h)| && UserTable(df, h)[e.cleanUserId - 1] == e
    ensures e.key == UserKeyOf(df[i])
  {
    WithUsersExact(df, h);
    e := WithUsers(df, h)[i].1.value;
  }

  lemma WithUsersLength(df: seq<SourceRow>, h: string)
    ensures |WithUsers(df, h)| == |df|
  {
    WithUsersExact(df, h);
  }

  /** Review `k`, as built from row `k` of the movie merge. */
  lemma ReviewAt(df: seq<SourceRow>, h: string, k: nat)
    requires k < |WithMovies(df, h)|
    ensures |ReviewsToLoad(df, h)| == |WithMovies(df, h)|
    ensures ReviewsToLoad(df, h)[k] == ReviewOf(k + 1, WithMovies(df, h)[k])
  {
  }

  /** The input row that review `k` resolves. */
  lemma ReviewResolvesAt(df: seq<SourceRow>, h: string, k: nat) returns (i: nat)
    requires k < |ReviewsToLoad(df, h)|
    ensures i < |df| && Resolves(UserTable(df, h), Movies(df), df[i], ReviewsToLoad(df, h)[k])
  {
    var w, ms, rows := WithUsers(df, h), Movies(df), WithMovies(df, h);
    ReviewAt(df, h, k);
    LeftJoinSound(w, ms, JoinedTitle, MovieTitle, k);
    var row := rows[k];
    WithUsersLength(df, h);
    i :| 0 <= i < |w| && w[i] == row.0;
    var e := WithUsersAt(df, h, i);
    var x := MovieOfRow(df, i);
    assert MovieTitle(ms[x]) == JoinedTitle(row.0);
    var m := row.1.value;
    MovieById(df, m);
    assert row == ((df[i], Some(e)), Some(m));
    ResolvesOf(UserTable(df, h), ms, df[i], e, m, k + 1);
  }

  /** Every review carries the id `k + 1` of its position and resolves some
      input row: its rating, text and date are that row's, its user id names
      the entry with the row's triple and its movie id a movie with the row's
      title. In particular every foreign key is present and in range. */
  lemma ReviewsResolve(df: seq<SourceRow>, h: string)
    ensures var t, ms, rv := UserTable(df, h), Movies(df), ReviewsToLoad(df, h);
      forall k :: 0 <= k < |rv| ==>
        && rv[k].reviewId == k + 1
        && exists i :: 0 <= i < |df| && Resolves(t, ms, df[i], rv[k])
  {
    var t, ms, rv := UserTable(df, h), Movies(df), ReviewsToLoad(df, h);
    forall k | 0 <= k < |rv| ensures exists i :: 0 <= i < |df| && Resolves(t, ms, df[i], rv[k]) {
      var i := ReviewResolvesAt(df, h, k);
    }
  }

  /** A review of row `i` for the movie at position `x`, when it has the row's
      title. */
  lemma ReviewForMovie(df: seq<SourceRow>, h: string, i: nat, x: nat) returns (k: nat)
    requires i < |df| && x < |Movies(df)| && Movies(df)[x].title == df[i].title
    ensures k < |ReviewsToLoad(df, h)|
    ensures Resolves(UserTable(df, h), Movies(df), df[i], ReviewsToLoad(df, h)[k])
    ensures ReviewsToLoad(df, h)[k].movieId == Some(x + 1)
  {
    var w, ms, rows := WithUsers(df, h), Movies(df), WithMovies(df, h);
    var e := WithUsersAt(df, h, i);
    LeftJoinComplete(w, ms, JoinedTitle, MovieTitle, i, x);
    k :| 0 <= k < |rows| && rows[k] == (w[i], Some(ms[x]));
    ReviewAt(df, h, k);
    MovieById(df, ms[x]);
    ResolvesOf(UserTable(df, h), ms, df[i], e, ms[x], k + 1);
  }

  /** Every input row yields a review for each movie that has its title. */
  lemma ReviewsCoverMovies(df: seq<SourceRow>, h: string)
    ensures var t, ms, rv := UserTable(df, h), Movies(df), ReviewsToLoad(df, h);
      forall i, x :: 0 <= i < |df| && 0 <= x < |ms| && ms[x].title == df[i].title ==>
        exists k :: 0 <= k < |rv| && Resolves(t, ms, df[i], rv[k]) && rv[k].movieId == Some(x + 1)
  {
    var t, ms, rv := UserTable(df, h), Movies(df), ReviewsToLoad(df, h);
    forall i, x | 0 <= i < |df| && 0 <= x < |ms| && ms[x].title == df[i].title
      ensures exists k :: 0 <= k < |rv| && Resolves(t, ms, df[i], rv[k]) && rv[k].movieId == Some(x + 1)
    {
      var k := ReviewForMovie(df, h, i, x);
    }
  }

  /** No input row is lost: each yields at least one review. */
  lemma ReviewsCoverRows(df: seq<SourceRow>, h: string)
    ensures var t, ms, rv := UserTable(df, h), Movies(df), ReviewsToLoad(df, h);
      forall i :: 0 <= i < |df| ==> exists k :: 0 <= k < |rv| && Resolves(t, ms, df[i], rv[k])
  {
    var t, ms, rv := UserTable(df, h), Movies(df), ReviewsToLoad(df, h);
    forall i | 0 <= i < |df| ensures exists k :: 0 <= k < |rv| && Resolves(t, ms, df[i], rv[k]) {
      var x := MovieOfRow(df, i);
      var k := ReviewForMovie(df, h, i, x);
    }
  }

  /** Under unambiguous titles, review `i` and row `i` of the movie merge. */
  lemma WithMoviesOneToOne(df: seq<SourceRow>, h: string)
    requires TitlesUnambiguous(df)
    ensures |WithMovies(df, h)| == |df|
    ensures forall i :: 0 <= i < |df| ==> |Matches(df[i].title, Movies(df), MovieTitle)| == 1
    ensures forall i :: 0 <= i < |df| ==>
      WithMovies(df, h)[i] == (WithUsers(df, h)[i], Some(Matches(df[i].title, Movies(df), MovieTitle)[0]))
  {
    var w, ms := WithUsers(df, h), Movies(df);
    WithUsersExact(df, h);
    forall i | 0 <= i < |w| ensures |Matches(JoinedTitle(w[i]), ms, MovieTitle)| == 1 {
      MovieMatchesOfRow(df, i);
    }
    LeftJoinOneToOne(w, ms, JoinedTitle, MovieTitle);
  }

  lemma WithMoviesLength(df: seq<SourceRow>, h: string)
    requires TitlesUnambiguous(df)
    ensures |ReviewsToLoad(df, h)| == |df|
  {
    ReviewCountExact(df, h);
  }

  /** Review `i` under unambiguous titles. */
  lemma ReviewFollowsRowAt(df: seq<SourceRow>, h: string, i: nat)
    requires TitlesUnambiguous(df) && i < |df|
    ensures |ReviewsToLoad(df, h)| == |df|
    ensures ReviewsToLoad(df, h)[i].reviewId == i + 1
    ensures Resolves(UserTable(df, h), Movies(df), df[i], ReviewsToLoad(df, h)[i])
    ensures MovieKeyOfMovie(Movies(df)[ReviewsToLoad(df, h)[i].movieId.value - 1]) == MovieKeyOf(df[i])
  {
    WithMoviesOneToOne(df, h);
    var ms := Movies(df);
    var e := WithUsersAt(df, h, i);
    var m := Matches(df[i].title, ms, MovieTitle)[0];
    MovieById(df, m);
    var j := RowOfMovie(df, m.movieId - 1);
    ReviewAt(df, h, i);
    ResolvesOf(UserTable(df, h), ms, df[i], e, m, i + 1);
  }

  /** When no title is shared by two movie tuples, review `i` is input row `i`
      with its user's id and the id of its own movie tuple. */
  lemma ReviewsFollowRows(df: seq<SourceRow>, h: string)
    requires TitlesUnambiguous(df)
    ensures var t, ms, rv := UserTable(df, h), Movies(df), ReviewsToLoad(df, h);
      && |rv| == |df|
      && forall i :: 0 <= i < |df| ==>
           && rv[i].reviewId == i + 1
           && Resolves(t, ms, df[i], rv[i])
           && MovieKeyOfMovie(ms[rv[i].movieId.value - 1]) == MovieKeyOf(df[i])
  {
    WithMoviesLength(df, h);
    forall i | 0 <= i < |df|
      ensures ReviewsToLoad(df, h)[i].reviewId == i + 1
      ensures Resolves(UserTable(df, h), Movies(df), df[i], ReviewsToLoad(df, h)[i])
      ensures MovieKeyOfMovie(Movies(df)[ReviewsToLoad(df, h)[i].movieId.value - 1]) == MovieKeyOf(df[i])
    {
      ReviewFollowsRowAt(df, h, i);
    }
  }
}
