# Movie-review ETL loader: normalisation and review-date loading

This project models the data-transforming core of the loader script of a
movie-review site. The script reads one flat table with one row per review.
In that table the reviewer's `(user_id, name, email)` and the film's
`(title, genre, release_year, director)` repeat on every row.
`preprocess_and_save_data` splits the table into three row sets:

- **USERS**: the distinct user triples, in order of first appearance. Each
  gets a dense `clean_user_id` 1..N and the one hash of the default password.
- **MOVIES**: the distinct movie tuples, in order of first appearance. Each
  gets a dense `movie_id` 1..M.
- **REVIEWS**: every input row, left-merged to its user on the full triple
  and to a movie on the **title alone**, then numbered 1..K.

`load_data_to_oracle` then builds the REVIEWS tuples in a loop. The loop
parses each `review_date` with `strptime(..., '%d-%m-%Y')`. A date that does
not parse raises, and the whole load is rolled back.

Modules:

- `Wrappers` (`wrappers.dfy`): `Option` and `Result`.
- `Seqs` (`seqs.dfy`): `Distinct`, which is first-seen deduplication as pandas
  `drop_duplicates` keeps it, plus `FirstIndex` and the rank and cardinality
  lemmas behind dense ids.
- `Join` (`join.dfy`): pandas `merge(..., how='left')` over sequences. Each left
  row is repeated once per matching right row, in right order. A left row
  with no match appears once with a missing right part (`None` for NaN).
- `Normalize` (`normalize.dfy`): `preprocess_and_save_data` and its
  properties.
- `Dates` (`dates.dfy`): `strptime` with `'%d-%m-%Y'` as CPython's `_strptime`
  performs it, then the calendar check of `datetime`.
- `Loader` (`loader.dfy`): the review-tuple loop as a `method` proved
  against a function, and the commit/rollback outcome of the load.
- `Scenarios` (`scenarios.dfy`): worked examples.

The password hash is a parameter (`hashedPassword`/`h`). werkzeug computes it
once from the fixed default password with a random salt, and every user row
carries that same value.

One might expect REVIEWS to have exactly one row per input row. The code
merges movies on `title` only (data_loader.py:46), so this holds only when
no title belongs to two different movie tuples. In general each input row
yields one review per movie with its title, in MOVIES order, and the rows'
blocks follow input order. `Normalize.ReviewsLength` and
`Normalize.ReviewsOfRow` prove this exactly. `Normalize.ReviewCountExact`
proves that REVIEWS is never shorter than the input, and is exactly as long
if and only if titles are unambiguous. `Scenarios.SharedTitleDuplicates` is a
concrete input where REVIEWS grows.

## Model

| member | source | states |
|---|---|---|
| Seqs.Distinct | data_loader.py:32 | `drop_duplicates` on keys: the result has no duplicate, holds exactly the values of the input and is no longer than it |
| Seqs.DistinctOrder | data_loader.py:32 | the kept values appear in the order of their first occurrence in the input |
| Seqs.DistinctRankAt | data_loader.py:32-33 | the value at position `i` of the deduplicated frame has exactly `i` distinct values before its first occurrence |
| Seqs.DistinctPrefix | data_loader.py:32 | deduplicating a prefix of the input gives a prefix of the deduplicated frame |
| Seqs.DistinctRank | data_loader.py:32-33 | a value's position in the deduplicated frame is the number of distinct values seen before its first occurrence |
| Seqs.DistinctCardinality | data_loader.py:32 | the deduplicated frame has as many rows as the input has distinct keys |
| Join.Matches | data_loader.py:44 | the right rows with key `k`: a row is in it iff it is in the right frame and has key `k`, and it is no longer than the right frame |
| Join.MatchesInOrder | data_loader.py:46 | the matches are the right rows at strictly increasing positions that include every position with key `k`, so they keep right order and repeated rows |
| Join.JoinOne | data_loader.py:44 | the block of output rows of one left row has at least one row and at most one more than the right frame |
| Join.JoinOneBlock | data_loader.py:44 | one left row's block pairs it with exactly the right rows of its key, or, when no right row has the key, is the single row with a missing right part |
| Join.JoinOneInOrder | data_loader.py:46 | one left row's block in order: with matches, it is the left row paired with the right rows at strictly increasing positions, one per position with its key; without, the single row with a missing right part |
| Join.LeftJoin | data_loader.py:44 | the merge is the blocks of the left rows concatenated in left order; it never has fewer rows than its left frame |
| Join.LeftJoinSound | data_loader.py:44 | every output row comes from a left row; a present right part is a right row with that row's key; a missing one means no right row has the key |
| Join.LeftJoinComplete | data_loader.py:44 | every pair of a left row and a right row with equal keys occurs in the output |
| Join.LeftJoinKeepsLeft | data_loader.py:44 | every left row occurs in the output |
| Join.LeftJoinAppend | data_loader.py:46 | merging a concatenation is the concatenation of the merges, so output order follows left order |
| Join.LeftJoinCount | data_loader.py:46 | the merge has exactly the sum over the left rows of their match counts, with one row for a left row nothing matches |
| Join.LeftJoinBlockAt | data_loader.py:46 | left row `i`'s block is the slice of the merge that starts after the blocks of the rows before it |
| Join.LeftJoinRowsOfBlock | data_loader.py:46 | the same block row by row: merge row `o + t` is block row `t`, with `o` the total size of the earlier blocks |
| Join.LeftJoinSameLength | data_loader.py:46 | the merge keeps the row count iff no left key matches two right rows |
| Join.LeftJoinOneToOne | data_loader.py:44 | when every left key has exactly one match, output row `i` is left row `i` with its match |
| Join.MatchesSingle | data_loader.py:44 | when only right row `j` has key `k`, the matches are exactly that row |
| Join.MatchesNone | data_loader.py:44 | no right row with key `k` means no matches |
| Join.MatchesTwo | data_loader.py:46 | two right rows with key `k` give at least two matches |
| Join.MatchesAtMostOne | data_loader.py:46 | when no two right rows share key `k`, there is at most one match |
| Normalize.UserTable | data_loader.py:32-37 | the user frame: the distinct triples in first-seen order, numbered from 1 by position, each with the one hash; its properties are stated by `UserTableFirstSeen`, `UserIdsDense` and `UserMatchOfRow` |
| Normalize.UsersToLoad | data_loader.py:38 | USERS: the user frame without the raw user id; its properties are stated by `UsersShareOneHash` |
| Normalize.Movies | data_loader.py:40-41 | MOVIES: the distinct movie tuples in first-seen order with `movie_id` from 1 in front; its properties are stated by `MoviesFirstSeen` and `MovieIdsByFirstAppearance` |
| Normalize.WithUsers | data_loader.py:44 | the left merge of the input with the user frame on the triple; its properties are stated by `WithUsersExact` |
| Normalize.WithMovies | data_loader.py:46 | the left merge of that result with MOVIES on the title alone; its properties are stated by `MergeBlockOfRow`, `ReviewsLength`, `ReviewsOfRow`, `ReviewCountExact` and `WithMoviesOneToOne` |
| Normalize.ReviewsToLoad | data_loader.py:48-52 | REVIEWS: the merged rows numbered from 1 in output order, with the user's and the movie's ids; its properties are stated by `ReviewsResolve`, `ReviewsCoverRows` and `ReviewsFollowRows` |
| Normalize.Preprocess | data_loader.py:23-54 | the three row sets USERS, MOVIES and REVIEWS; `Scenarios.TwoReviewsNormalised` evaluates it on a concrete input |
| Normalize.UserTableFirstSeen | data_loader.py:32 | the user frame holds exactly the distinct `(user_id, name, email)` triples, none twice, in first-appearance order, one row per distinct triple |
| Normalize.UserIdsDense | data_loader.py:32-33 | `clean_user_id` is 1..N by position, and a triple's id is one more than the number of distinct triples seen before its first row |
| Normalize.UsersShareOneHash | data_loader.py:35-38 | USERS row `i` is user entry `i` without the raw id: id `i + 1`, that triple's name and e-mail (those of an input row), and the same password hash on every row; one row per distinct triple |
| Normalize.MoviesFirstSeen | data_loader.py:40-41 | MOVIES holds exactly the distinct movie tuples, none twice, in first-appearance order, with `movie_id` `j + 1` in front |
| Normalize.MovieIdsByFirstAppearance | data_loader.py:40-41 | a movie's id is one more than the number of distinct tuples seen before its first row |
| Normalize.WithUsersExact | data_loader.py:44 | the merge on the triple keeps the rows one for one; row `i` is input row `i` with the user entry whose id points back to it and whose triple is the row's |
| Normalize.WithUsersOneToOne | data_loader.py:44 | every row's triple has exactly one user entry, and row `i` of the merge on the triple is input row `i` with it |
| Normalize.UserMatchOfRow | data_loader.py:44 | every input row's triple matches exactly one user entry, the one at position `id - 1` |
| Normalize.WithUsersAt | data_loader.py:44 | row `i` of the first merge is input row `i` with a present user entry for its triple |
| Normalize.MovieOfRow | data_loader.py:40 | each row's movie tuple sits at exactly one position of MOVIES |
| Normalize.RowOfMovie | data_loader.py:40 | each movie tuple comes from some input row |
| Normalize.MovieById | data_loader.py:41 | a movie's id names its own position in MOVIES |
| Normalize.MovieMatchesOfRow | data_loader.py:46 | a row's title matches at least one movie, and exactly one iff every row with that title has the same movie tuple |
| Normalize.JoinedRowMatches | data_loader.py:46 | a row of the first merge matches at most one movie iff its title is unambiguous |
| Normalize.ReviewCountExact | data_loader.py:46-50 | REVIEWS has at least as many rows as the input, and exactly as many iff no title belongs to two movie tuples |
| Normalize.MergeBlockOfRow | data_loader.py:46 | row `i`'s block of the movie merge starts at `o`, the number of reviews of the earlier rows, and pairs row `i` with each movie of its title at strictly increasing MOVIES positions that cover all such movies |
| Normalize.ReviewsLength | data_loader.py:46-50 | REVIEWS has exactly one row per pair of an input row and a movie with that row's title: its length is the sum over the rows of their title's movie count |
| Normalize.ReviewsOfRow | data_loader.py:44-52 | row `i`'s reviews occupy positions `o` to `o + n - 1`, where `o` counts the reviews of the earlier rows and `n` the movies with row `i`'s title. They take those movies in MOVIES order, one each, carry ids `o + t + 1`, and resolve row `i` |
| Normalize.ReviewResolvesAt | data_loader.py:44-52 | review `k` carries the rating, text and date of some input row, a present user id naming that row's user entry, and a present movie id naming a movie with that row's title |
| Normalize.ReviewsResolve | data_loader.py:48-52 | every review has id `k + 1` by position and resolves some input row, so every foreign key is present and in range |
| Normalize.ReviewForMovie | data_loader.py:46 | an input row and a movie with its title give a review of that row for that movie |
| Normalize.ReviewsCoverMovies | data_loader.py:46 | every input row yields a review for each movie that has its title |
| Normalize.ReviewsCoverRows | data_loader.py:44-50 | no input row is lost: each yields at least one review |
| Normalize.WithMoviesOneToOne | data_loader.py:46 | with unambiguous titles, the movie merge keeps the rows one for one, each with the single movie of its title |
| Normalize.ReviewFollowsRowAt | data_loader.py:46-52 | with unambiguous titles, review `i` resolves input row `i` and its movie id names that row's own movie tuple |
| Normalize.ReviewsFollowRows | data_loader.py:46-52 | with unambiguous titles, REVIEWS follows the input row for row: id `i + 1`, row `i`'s data, its user and its own movie |
| Dates.DaysInMonth | data_loader.py:97 | month lengths are 28..31, and 29 exactly for February of a leap year |
| Dates.FirstDash | data_loader.py:97 | the first '-' in the text, or its length when there is none |
| Dates.ParseDate | data_loader.py:97 | `strptime(s, '%d-%m-%Y')`: a success is always a real calendar date in years 1..9999 |
| Dates.FormatDate | data_loader.py:96 | the `DD-MM-YYYY` text of a date is ten characters with dashes at positions 2 and 5 |
| Dates.ParseFormatRoundTrip | data_loader.py:96-97 | every valid date written as `DD-MM-YYYY` parses back to itself |
| Dates.ParseCanonical | data_loader.py:97 | for `DD-MM-YYYY` digit text, parsing succeeds iff the numbers form a real date, yields that date, and otherwise reports the failing check (pattern, year 0, day past month end) |
| Dates.MonthThirteenRefused | data_loader.py:97 | `31-13-2022` is refused as not matching the format |
| Dates.LeapDayAccepted | data_loader.py:97 | `29-02-2024` parses to 29 February 2024 |
| Dates.LeapDayRefused | data_loader.py:97 | `29-02-2023` is refused: the day is out of range for the month |
| Loader.ConvertReviews | data_loader.py:94-105 | the loop succeeds iff every review's date parses, and then yields one tuple per review with its parsed date; a failure carries the error of some review that all earlier reviews passed |
| Loader.ConvertErrExtends | data_loader.py:95-97 | once a prefix of the reviews fails, the whole batch fails with the same error |
| Loader.BuildReviewData | data_loader.py:94-105 | the `review_data` loop computes exactly `ConvertReviews` of the reviews |
| Loader.RowOfReview | data_loader.py:97 | each review's date text is that of some input row |
| Loader.ReviewOfRow | data_loader.py:97 | each input row's date text is carried by some review |
| Loader.LoadData | data_loader.py:55-125 | the load: the normalised tables committed with the converted reviews, or a rollback with the first date error; its properties are stated by `LoadCommitsIffDatesParse` |
| Loader.LoadCommitsIffDatesParse | data_loader.py:94-119 | the load commits iff every input date parses; it then holds USERS, MOVIES and one tuple per review with its parsed date; otherwise it rolls back with the error of some input row |
| Scenarios.TwoReviewsNormalised | data_loader.py:23-54 | two reviews by one user of one film give one user, one movie and two reviews, both pointing to id 1 |
| Scenarios.SingleRowRollsBack | data_loader.py:113-116 | a single row whose date does not parse rolls the load back with that date's error |
| Scenarios.MonthThirteenRollsBack | data_loader.py:113-116 | a row dated `31-13-2022` rolls the load back |
| Scenarios.SharedTitleDuplicates | data_loader.py:46 | two films sharing a title make REVIEWS longer than the input |

## Left out

- `app.py` is not part of this model. It is web routing, sessions and SQL run inside the database.
- Database connection, `executemany`, commit and rollback calls (data_loader.py:14-22, 64-91, 106-125) are external I/O. `Loader.LoadData` models only the resulting outcome, committed tables or rollback.
- Failures of the USERS and MOVIES inserts, of the REVIEWS insert and of the final commit come from database constraints outside this code. The model assumes they succeed.
- Reading the CSV file and its latin-1 decoding (data_loader.py:59) are file I/O. The model starts from the decoded rows.
- PBKDF2-SHA256 hashing through werkzeug (data_loader.py:36) is a foreign, salted call. The hash is a parameter computed once.
- pandas dtype coercion and NaN keys are library behaviour. Key fields are assumed present, and ratings are integers.
- The in-place column assignments and inserts (data_loader.py:33, 37, 41, 51) are modelled as functions that build the finished frames. Nothing else holds a reference to those frames, so no aliasing is lost.
- The progress messages printed to the console are left out.
- Dates.ParseDate: reads only ASCII digits. Python's `\d` in the `strptime` patterns also matches other Unicode decimal digits.
- Loader.ReviewRecord: holds only the date part of the `datetime`. Its time is always midnight.
