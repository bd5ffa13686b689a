# Movie watchlist store, modelled in Dafny

This project models the persistence layer of a small movie-watchlist program:
the `database.py` module, which keeps three SQLite tables behind one
module-level connection and runs one to four short SQL statements per operation.

- `movies(id INTEGER PRIMARY KEY, title, release_timestamp)`: the catalogue.
  Ids are rowids assigned by the engine.
- `users(username PRIMARY KEY)`: the registered users.
- `watched(user_username, movie_id)`: one row per "user watched movie" event.
  The table has no UNIQUE constraint, and its foreign keys are never enforced.

The files:

- `database.dfy`, module `Database`. The class `Store` holds the tables as
  fields: `movies: seq<Movie>`, `users: set<string>`, `watched: seq<Watch>`
  and a `tablesCreated` flag. The mutations `create_tables`, `add_user`,
  `add_movie` and `watch_movie` are methods on it. Each runs inside
  `with connection:`, so it either commits or rolls back. A method that
  returns `RolledBack(error)` leaves every table as it was. The queries
  `get_movies`, `search_movies` and `get_watched_movies` are functions that
  read the store. The object invariant `Valid()` says three things. There are
  no rows before the tables exist. Rowids are the row numbers 1..n, because
  no movie is ever deleted. Every `watched` user is a user, because
  `watch_movie` inserts the user first. Module-level functions model the
  SQL: `Where` (a WHERE filter), `NextRowid` (rowid assignment), `WatchedBy`
  (the join). Lemmas state the properties of these functions.
- `like.dfy`, module `SqlLike`. This is SQLite's `LIKE` as `search_movies`
  uses it. `%` matches any run of characters, `_` matches exactly one
  character, and other characters match up to ASCII case. There is no
  ESCAPE clause. Strings are read whole, including any NUL character (see
  Left out). The module proves that the pattern `%term%` matches exactly
  the titles that contain `term` ignoring ASCII case, when `term` holds no
  `%` or `_`. It also proves that the term `_`, which is not
  escaped, matches every non-empty title and no empty one.
- `scenarios.dfy`, module `Scenarios`. These are client methods that drive
  the store, creating the tables first as `app.py` does (one scenario first
  shows `add_user` failing without tables), and assert what the contracts let a
  caller conclude. The scenarios: watching the same movie twice, a duplicate
  user, the "upcoming" boundary, a case-insensitive search, and a search for
  a term no title contains.

Three behaviours of `database.py` that a reader might not expect are modelled
as the code has them:

- `watched` has no UNIQUE constraint. A second `watch_movie` of the same pair
  commits a second row, and the movie is listed twice.
- A `movie_id` that names no movie is stored, because foreign keys are not
  enforced. The join drops that row.
- `database.py` has no query that lists users, and `add_movie` returns
  nothing. `AddMovie` returns only its outcome, and its contract gives the
  new id.

## Model

| member | source | states |
|---|---|---|
| `Database.Store.constructor` | database.py:90 | A fresh connection to a file without tables. It is valid, has no tables and holds no rows. |
| `Database.Store.CreateTables` | database.py:93-98 | Afterwards the tables exist. Every row of all three tables is unchanged, because every statement is `IF NOT EXISTS`. Calling it again changes nothing. |
| `Database.Store.AddUser` | database.py:101-103 | Commits exactly when the tables exist and the name is new. It then adds exactly that name. Otherwise it rolls back with "no such table: users" or the `users.username` UNIQUE violation. On a rollback every table is unchanged. `movies` and `watched` never change. |
| `Database.Store.AddMovie` | database.py:106-108 | Commits exactly when the tables exist. It then appends exactly one row `(NextRowid(old movies), title, timestamp)`. The new id equals the new row count. `users` and `watched` are unchanged. A rollback changes nothing. |
| `Database.Store.WatchMovie` | database.py:129-135 | Commits whenever the tables exist. An existing user never makes it fail. The user is then in `users`, and exactly one row `(u, m)` is appended to `watched`, with no duplicate check and no check that the movie exists. The user's watched list grows by exactly the movie rows with id `m`. |
| `Database.Store.GetMovies` | database.py:111-119 | Fails with "no such table: movies" exactly when the tables are missing. Without `upcoming` it returns every movie. With `upcoming` it returns exactly the movies with `release_timestamp > now`, each as often as in the table. A movie released at `now` is excluded. |
| `Database.Store.SearchMovies` | database.py:122-126 | Returns exactly the movies whose title is LIKE `%term%`, each as often as in the table. For a term without `%` or `_`, these are exactly the titles containing the term, ignoring ASCII case. An empty term returns the whole table. |
| `Database.Store.GetWatchedMovies` | database.py:138-142 | An unknown user gets no rows. Otherwise each movie appears as many times as `watched` pairs the user with its id. Dangling rows contribute nothing. |
| `Database.Where` | database.py:76 | The filtered rows are exactly the rows of the table that satisfy the condition, each with its multiplicity in the table. The result is never longer than the table. |
| `Database.WhereKeepsAll` | database.py:75-76 | A condition that holds on every row returns the table unchanged and in order. |
| `Database.NextRowid` | database.py:56 | The rowid given to an inserted row: 1 in an empty table. Otherwise one more than the largest existing id, so it is greater than every existing id. |
| `Database.NextRowidIsCount` | database.py:106-108 | In a table numbered 1..n, the next rowid is n + 1. |
| `Database.RowidLookup` | database.py:77-78 | In a table numbered 1..n, `movies.id = k` selects exactly row k when 1 <= k <= n, and no row otherwise. |
| `Database.SearchFindsSubstrings` | database.py:122-126 | For a term without wildcards, a movie is in the search result exactly when it is in the table and its title contains the term, ignoring ASCII case (both directions). |
| `Database.SearchEmptyTermReturnsAll` | database.py:125 | The empty term gives the pattern `%%`, which returns every movie in table order. |
| `Database.WatchedByCounts` | database.py:77-80 | The join lists a movie of the table once per `watched` row pairing the user with its id. It lists no movie outside the table. |
| `Database.WatchedByWithoutRows` | database.py:77-80 | A user with no `watched` rows gets an empty join. |
| `Database.WatchExistingListsIt` | database.py:77-80 | One more `watched` row pairing the user with an existing movie's id adds exactly that movie at the end of the user's join. |
| `Database.WatchTwiceListsTwice` | database.py:65-70 | Watching an existing movie twice lists it twice, because the `watched` table has no UNIQUE constraint. |
| `Database.WatchDanglingListsNothing` | database.py:65-70 | A `watched` row whose id names no movie is stored but adds nothing to the join, because foreign keys are not enforced. |
| `SqlLike.FoldCaseMatches` | database.py:83 | Two characters match under LIKE exactly when they are equal or one is the upper-case ASCII form of the other. No other case folding applies. |
| `SqlLike.PercentMatchesAll` | database.py:125 | A lone `%` matches every string. |
| `SqlLike.LeadingPercent` | database.py:125 | `%q` matches a string exactly when `q` matches one of its suffixes. |
| `SqlLike.LiteralPattern` | database.py:83 | A pattern without wildcards matches exactly the strings equal to it, ignoring ASCII case. |
| `SqlLike.LiteralThenPercent` | database.py:125 | `w%`, for a literal `w`, matches exactly the strings that start with `w`, ignoring ASCII case. |
| `SqlLike.ContainsPatternMeansSubstring` | database.py:122-126 | For a term without `%` or `_`, the title is LIKE `%term%` exactly when it contains the term, ignoring ASCII case. |
| `SqlLike.EmptyTermMatchesAll` | database.py:125 | The empty term matches every title. |
| `SqlLike.UnderscoreTermMatchesAnyNonEmpty` | database.py:125 | The term is not escaped, so the term `_` matches every non-empty title and no empty one. |

## Left out

- `app.py`, the interactive menu. Its input and output loop, the date parsing and formatting, and the float `timestamp()` conversion are UI code. Its passing of `movie_id` as a raw string depends on SQLite type affinity, which is engine behaviour.
- The SQLite engine and the `data.db` file. The tables are abstract collections. The constructor models a connection to a file with no tables yet. A `Store` gets rows only by replaying the mutations on that empty store after `CreateTables`. A file that already holds tables and rows when it is opened is not modelled directly.
- `datetime.today()`. `GetMovies` takes the current time `now` as a parameter.
- REAL timestamps. Timestamps are integers, because the code only ever compares them with `>`.
- The release index. It adds and drops no rows, and its only visible effect is row order (see Row order). Its creation is part of the `tablesCreated` flag.
- The constants `DELETE_MOVIE` and `SET_MOVIE_WATCHED`. No function uses them.
- Python's sqlite3 runs `CREATE` statements outside the implicit transaction. `CreateTables` is one step, because its statements cannot fail except through the engine.
- Engine failures such as a locked database, disk errors and concurrent writers. The mutations fail only with the errors the SQL itself can raise. The driver's `OverflowError` is not modelled either: Python's sqlite3 raises it when an integer parameter lies outside the signed 64-bit range, as in `watch_movie("alice", 2**63)`, and the transaction rolls back, where `WatchMovie` commits.
- Row order. The SELECTs have no ORDER BY, so the engine chooses the order. For example, an index scan may return the upcoming movies by timestamp. The model returns rows in table order. The contracts of `GetMovies` with `upcoming` and of `GetWatchedMovies` describe which rows come back and how often, not their order. The model's join lists movies in `watched` order, and the contract of `WatchMovie` and the `Watch*` lemmas are stated in that order.
- `NextRowid` does not model the engine's random choice of an unused rowid once the largest rowid reaches 2^63 - 1. Under `Valid()` that would take 2^63 - 1 inserts.
- `SearchMovies` does not model the engine's "LIKE or GLOB pattern too complex" error. SQLite raises it for patterns longer than 50000 bytes. Nor does it model that SQLite's LIKE reads a title or a term only up to its first NUL character; `Like` reads the whole string, so for titles or terms that contain NUL the model's result can differ from the engine's.
- `SearchMovies` has no lemma about a term that holds `%`, or `_` among other characters (`a%b`, `x_y`). For those terms its result is given only by the definition of `Like`.
