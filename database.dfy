/** The watchlist store of database.py: three SQLite tables behind the one
    module-level connection, and the statements the module runs over them.

    Every public operation runs inside `with connection:`, which commits when
    the block ends normally and rolls back when a statement raises. A method
    below that returns `RolledBack` therefore leaves every table as it was. */
module Database {
  import opened SqlLike

  /** A row of `movies(id INTEGER PRIMARY KEY, title TEXT, release_timestamp REAL)`. */
  datatype Movie = Movie(id: int, title: string, releaseTimestamp: int)

  /** A row of `watched(user_username TEXT, movie_id INTEGER)`. The table has
      no UNIQUE constraint and its foreign keys are never enforced. */
  datatype Watch = Watch(username: string, movieId: int)

  /** The SQLite errors the statements can raise. */
  datatype DbError =
    | NoSuchTable(table: string)
    | UniqueConstraintFailed(column: string)

  /** The rows a query fetches, or the error it raised. */
  datatype Result<T> = Ok(value: T) | Err(error: DbError)

  /** How a `with connection:` block of a mutation ends. */
  datatype Outcome = Committed | RolledBack(error: DbError)

  /** The WHERE clauses the queries over `movies` use. */
  datatype Condition =
    | ReleasedAfter(now: int)          // release_timestamp > ?
    | TitleLike(pattern: string)       // title LIKE ? COLLATE NOCASE
    | IdIs(id: int)                    // movies.id = watched.movie_id

  predicate Holds(c: Condition, m: Movie) {
    match c
    case ReleasedAfter(now) => m.releaseTimestamp > now
    case TitleLike(pattern) => Like(m.title, pattern)
    case IdIs(id) => m.id == id
  }

  /** The rows of `rows` that satisfy `c`, in table order. */
  function Where(rows: seq<Movie>, c: Condition): (r: seq<Movie>)
    ensures |r| <= |rows|
    ensures forall m :: m in r <==> m in rows && Holds(c, m)
    ensures forall m :: multiset(r)[m] == if Holds(c, m) then multiset(rows)[m] else 0
  {
    if rows == [] then []
    else
      var last := rows[|rows| - 1];
      assert rows == rows[..|rows| - 1] + [last];
      Where(rows[..|rows| - 1], c) + (if Holds(c, last) then [last] else [])
  }

  /** A table where every row satisfies `c` is returned whole. */
  lemma {:induction false} WhereKeepsAll(rows: seq<Movie>, c: Condition)
    requires forall m :: m in rows ==> Holds(c, m)
    ensures Where(rows, c) == rows
    decreases |rows|
  {
    if rows != [] {
      var prefix, last := rows[..|rows| - 1], rows[|rows| - 1];
      assert rows == prefix + [last];
      WhereKeepsAll(prefix, c);
      assert Holds(c, last);
    }
  }

  // ---------------------------------------------------------------- rowids

  /** Rowids are the row numbers 1, 2, 3, ...: how `INTEGER PRIMARY KEY`
      numbers a table from which no row is ever deleted. */
  predicate RowidsSequential(ms: seq<Movie>) {
    forall i :: 0 <= i < |ms| ==> ms[i].id == i + 1
  }

  /** The rowid SQLite gives a row inserted without one: one more than the
      largest rowid in the table, or 1 when the table is empty. */
  function NextRowid(ms: seq<Movie>): (r: int)
    ensures forall m :: m in ms ==> m.id < r
    ensures ms == [] ==> r == 1
    ensures ms != [] ==> exists m :: m in ms && m.id == r - 1
  {
    if ms == [] then 1
    else
      var prefix, last := ms[..|ms| - 1], ms[|ms| - 1];
      assert ms == prefix + [last];
      if prefix == [] then last.id + 1
      else
        var before := NextRowid(prefix);
        if last.id + 1 > before then last.id + 1 else before
  }

  /** In a table numbered 1..n the next rowid is n + 1. */
  lemma {:induction false} NextRowidIsCount(ms: seq<Movie>)
    requires RowidsSequential(ms)
    ensures NextRowid(ms) == |ms| + 1
    decreases |ms|
  {
    if ms != [] {
      var prefix := ms[..|ms| - 1];
      assert RowidsSequential(prefix);
      NextRowidIsCount(prefix);
    }
  }

  /** The rows `movies.id = ?` selects: the rows whose id is `id`. */
  function MoviesWithId(ms: seq<Movie>, id: int): seq<Movie> {
    Where(ms, IdIs(id))
  }

  /** In a table numbered 1..n, id k selects row k when 1 <= k <= n and nothing otherwise. */
  lemma {:induction false} RowidLookup(ms: seq<Movie>, id: int)
    requires RowidsSequential(ms)
    ensures MoviesWithId(ms, id) == if 1 <= id <= |ms| then [ms[id - 1]] else []
    decreases |ms|
  {
    if ms != [] {
      var prefix := ms[..|ms| - 1];
      assert RowidsSequential(prefix);
      RowidLookup(prefix, id);
    }
  }

  // ---------------------------------------------------------------- queries

  /** `SELECT * FROM movies WHERE release_timestamp > ?`. */
  function Upcoming(ms: seq<Movie>, now: int): seq<Movie> {
    Where(ms, ReleasedAfter(now))
  }

  /** `SELECT * FROM movies WHERE title LIKE '%term%' COLLATE NOCASE`. */
  function SearchResults(ms: seq<Movie>, term: string): seq<Movie> {
    Where(ms, TitleLike(ContainsPattern(term)))
  }

  /** For a term with no wildcard, the search returns exactly the movies whose
      title contains the term, ignoring ASCII case. */
  lemma SearchFindsSubstrings(ms: seq<Movie>, term: string)
    requires HasNoWildcard(term)
    ensures forall m :: m in SearchResults(ms, term) <==> m in ms && ContainsIgnoringCase(m.title, term)
  {
    forall m | m in ms
      ensures Like(m.title, ContainsPattern(term)) <==> ContainsIgnoringCase(m.title, term)
    {
      ContainsPatternMeansSubstring(m.title, term);
    }
  }

  /** An empty term returns every movie, in table order. */
  lemma SearchEmptyTermReturnsAll(ms: seq<Movie>)
    ensures SearchResults(ms, "") == ms
  {
    forall m | m in ms ensures Holds(TitleLike(ContainsPattern("")), m) {
      EmptyTermMatchesAll(m.title);
    }
    WhereKeepsAll(ms, TitleLike(ContainsPattern("")));
  }

  /** The join of `SELECT_WATCHED_MOVIES` without its `users` table: for each
      `watched` row of `u`, in table order, the movie rows with its id. */
  function WatchedBy(ms: seq<Movie>, ws: seq<Watch>, u: string): seq<Movie>
    decreases |ws|
  {
    if ws == [] then []
    else
      var w := ws[|ws| - 1];
      WatchedBy(ms, ws[..|ws| - 1], u) + (if w.username == u then MoviesWithId(ms, w.movieId) else [])
  }

  /** One more `watched` row adds its movie rows at the end of the join. */
  lemma WatchedByAppend(ms: seq<Movie>, ws: seq<Watch>, w: Watch, u: string)
    ensures WatchedBy(ms, ws + [w], u) ==
      WatchedBy(ms, ws, u) + (if w.username == u then MoviesWithId(ms, w.movieId) else [])
  {
    assert (ws + [w])[..|ws|] == ws;
  }

  /** A movie of the table appears once per `watched` row that pairs `u` with
      its id, so a repeated row repeats it; a row whose id names no movie adds
      nothing, and nothing outside the table appears. */
  lemma {:induction false} WatchedByCounts(ms: seq<Movie>, ws: seq<Watch>, u: string)
    requires RowidsSequential(ms)
    ensures forall m :: multiset(WatchedBy(ms, ws, u))[m] == if m in ms then multiset(ws)[Watch(u, m.id)] else 0
    decreases |ws|
  {
    if ws != [] {
      var prefix, w := ws[..|ws| - 1], ws[|ws| - 1];
      assert ws == prefix + [w];
      WatchedByCounts(ms, prefix, u);
      RowidLookup(ms, w.movieId);
      forall m
        ensures multiset(WatchedBy(ms, ws, u))[m] == if m in ms then multiset(ws)[Watch(u, m.id)] else 0
      {
        if m in ms {
          var i :| 0 <= i < |ms| && ms[i] == m;
          assert m.id == i + 1;
          if w.username == u && 1 <= w.movieId <= |ms| {
            assert ms[w.movieId - 1] == m <==> w == Watch(u, m.id);
          }
        }
      }
    }
  }

  /** A user with no `watched` rows has watched nothing. */
  lemma {:induction false} WatchedByWithoutRows(ms: seq<Movie>, ws: seq<Watch>, u: string)
    requires forall w :: w in ws ==> w.username != u
    ensures WatchedBy(ms, ws, u) == []
    decreases |ws|
  {
    if ws != [] {
      var prefix := ws[..|ws| - 1];
      assert forall w :: w in prefix ==> w in ws;
      WatchedByWithoutRows(ms, prefix, u);
    }
  }

  /** One `watched` row of `u` for an existing movie adds exactly that movie. */
  lemma WatchExistingListsIt(ms: seq<Movie>, ws: seq<Watch>, u: string, id: int)
    requires RowidsSequential(ms) && 1 <= id <= |ms|
    ensures WatchedBy(ms, ws + [Watch(u, id)], u) == WatchedBy(ms, ws, u) + [ms[id - 1]]
  {
    WatchedByAppend(ms, ws, Watch(u, id), u);
    RowidLookup(ms, id);
  }

  /** Watching an existing movie twice lists it twice: nothing deduplicates. */
  lemma WatchTwiceListsTwice(ms: seq<Movie>, ws: seq<Watch>, u: string, id: int)
    requires RowidsSequential(ms) && 1 <= id <= |ms|
    ensures WatchedBy(ms, ws + [Watch(u, id)] + [Watch(u, id)], u) == WatchedBy(ms, ws, u) + [ms[id - 1], ms[id - 1]]
  {
    var w, m := Watch(u, id), ms[id - 1];
    var once := ws + [w];
    WatchExistingListsIt(ms, ws, u, id);
    WatchExistingListsIt(ms, once, u, id);
    assert WatchedBy(ms, ws, u) + [m] + [m] == WatchedBy(ms, ws, u) + [m, m];
  }

  /** Watching an id that names no movie stores a dangling row that the join drops. */
  lemma WatchDanglingListsNothing(ms: seq<Movie>, ws: seq<Watch>, u: string, id: int)
    requires RowidsSequential(ms) && !(1 <= id <= |ms|)
    ensures WatchedBy(ms, ws + [Watch(u, id)], u) == WatchedBy(ms, ws, u)
  {
    WatchedByAppend(ms, ws, Watch(u, id), u);
    RowidLookup(ms, id);
  }

  // ---------------------------------------------------------------- the store

  /** The tables behind the module-level `connection`. */
  class Store {
    var tablesCreated: bool
    var movies: seq<Movie>
    var users: set<string>
    var watched: seq<Watch>

    /** Before `create_tables` there are no rows; rowids are the row numbers,
        since nothing ever deletes a movie; every `watched` user is a user,
        since `watch_movie` inserts it first. */
    ghost predicate Valid()
      reads this
    {
      (!tablesCreated ==> movies == [] && users == {} && watched == []) &&
      RowidsSequential(movies) &&
      (forall w :: w in watched ==> w.username in users)
    }

    /** Connecting to a database file that holds no tables yet. */
    constructor ()
      ensures Valid() && !tablesCreated
      ensures movies == [] && users == {} && watched == []
    {
      tablesCreated := false;
      movies, users, watched := [], {}, [];
    }

    /** `create_tables`: every statement is `IF NOT EXISTS`, so existing rows are kept. */
    method CreateTables()
      requires Valid()
      modifies this
      ensures Valid() && tablesCreated
      ensures movies == old(movies) && users == old(users) && watched == old(watched)
    {
      tablesCreated := true;
    }

    /** `add_user`: INSERT into a table whose key is the username. */
    method AddUser(username: string) returns (outcome: Outcome)
      requires Valid()
      modifies this
      ensures Valid()
      ensures !old(tablesCreated) ==> outcome == RolledBack(NoSuchTable("users"))
      ensures old(tablesCreated) && username in old(users) ==> outcome == RolledBack(UniqueConstraintFailed("users.username"))
      ensures outcome.Committed? <==> old(tablesCreated) && username !in old(users)
      ensures users == if outcome.Committed? then old(users) + {username} else old(users)
      ensures tablesCreated == old(tablesCreated) && movies == old(movies) && watched == old(watched)
    {
      if !tablesCreated {
        outcome := RolledBack(NoSuchTable("users"));
      } else if username in users {
        outcome := RolledBack(UniqueConstraintFailed("users.username"));
      } else {
        users := users + {username};
        outcome := Committed;
      }
    }

    /** `add_movie`: INSERT without an id, so the engine assigns the next rowid. */
    method AddMovie(title: string, releaseTimestamp: int) returns (outcome: Outcome)
      requires Valid()
      modifies this
      ensures Valid()
      ensures outcome == if old(tablesCreated) then Committed else RolledBack(NoSuchTable("movies"))
      ensures movies == if outcome.Committed? then old(movies) + [Movie(NextRowid(old(movies)), title, releaseTimestamp)] else old(movies)
      ensures outcome.Committed? ==> movies == old(movies) + [Movie(|old(movies)| + 1, title, releaseTimestamp)]
      ensures tablesCreated == old(tablesCreated) && users == old(users) && watched == old(watched)
    {
      if !tablesCreated {
        outcome := RolledBack(NoSuchTable("movies"));
      } else {
        NextRowidIsCount(movies);
        movies := movies + [Movie(NextRowid(movies), title, releaseTimestamp)];
        outcome := Committed;
      }
    }

    /** `watch_movie`: INSERT OR IGNORE the user, then INSERT the pair with no
        duplicate check and no check that the movie exists. */
    method WatchMovie(username: string, movieId: int) returns (outcome: Outcome)
      requires Valid()
      modifies this
      ensures Valid()
      ensures outcome == if old(tablesCreated) then Committed else RolledBack(NoSuchTable("users"))
      ensures users == if outcome.Committed? then old(users) + {username} else old(users)
      ensures watched == if outcome.Committed? then old(watched) + [Watch(username, movieId)] else old(watched)
      ensures tablesCreated == old(tablesCreated) && movies == old(movies)
      ensures outcome.Committed? ==>
        GetWatchedMovies(username) == Ok(old(GetWatchedMovies(username)).value + MoviesWithId(movies, movieId))
    {
      if !tablesCreated {
        outcome := RolledBack(NoSuchTable("users"));
      } else {
        if username !in users {
          WatchedByWithoutRows(movies, watched, username);
        }
        WatchedByAppend(movies, watched, Watch(username, movieId), username);
        users := users + {username};
        watched := watched + [Watch(username, movieId)];
        outcome := Committed;
      }
    }

    /** `get_movies`: every movie, or only those released strictly after `now`. */
    function GetMovies(upcoming: bool, now: int): (r: Result<seq<Movie>>)
      reads this
      ensures r.Ok? <==> tablesCreated
      ensures r.Err? ==> r.error == NoSuchTable("movies")
      ensures r.Ok? && !upcoming ==> r.value == movies
      ensures r.Ok? && upcoming ==> forall m :: m in r.value <==> m in movies && m.releaseTimestamp > now
      ensures r.Ok? && upcoming ==>
        forall m :: multiset(r.value)[m] == if m.releaseTimestamp > now then multiset(movies)[m] else 0
    {
      if !tablesCreated then Err(NoSuchTable("movies"))
      else if upcoming then Ok(Upcoming(movies, now))
      else Ok(movies)
    }

    /** `search_movies`: titles LIKE `%term%`, with the term's own `%` and `_`
        acting as wildcards. */
    function SearchMovies(term: string): (r: Result<seq<Movie>>)
      reads this
      ensures r.Ok? <==> tablesCreated
      ensures r.Err? ==> r.error == NoSuchTable("movies")
      ensures r.Ok? ==> forall m :: m in r.value <==> m in movies && Like(m.title, ContainsPattern(term))
      ensures r.Ok? ==>
        forall m :: multiset(r.value)[m] == if Like(m.title, ContainsPattern(term)) then multiset(movies)[m] else 0
      ensures r.Ok? && HasNoWildcard(term) ==>
        forall m :: m in r.value <==> m in movies && ContainsIgnoringCase(m.title, term)
      ensures r.Ok? && term == "" ==> r.value == movies
    {
      if !tablesCreated then Err(NoSuchTable("movies"))
      else
        assert HasNoWildcard(term) ==>
          forall m :: m in SearchResults(movies, term) <==> m in movies && ContainsIgnoringCase(m.title, term) by {
          if HasNoWildcard(term) { SearchFindsSubstrings(movies, term); }
        }
        assert term == "" ==> SearchResults(movies, term) == movies by {
          if term == "" { SearchEmptyTermReturnsAll(movies); }
        }
        Ok(SearchResults(movies, term))
    }

    /** `get_watched_movies`: the join of `movies`, `watched` and `users` for one
        username. An unknown user, or one who has watched nothing, gets no rows. */
    function GetWatchedMovies(username: string): (r: Result<seq<Movie>>)
      reads this
      ensures r.Ok? <==> tablesCreated
      ensures r.Err? ==> r.error == NoSuchTable("movies")
      ensures r.Ok? && username !in users ==> r.value == []
      ensures r.Ok? && RowidsSequential(movies) && (forall w :: w in watched ==> w.username in users) ==>
        forall m :: multiset(r.value)[m] == if m in movies then multiset(watched)[Watch(username, m.id)] else 0
    {
      if !tablesCreated then Err(NoSuchTable("movies"))
      else if username !in users then
        assert (forall w :: w in watched ==> w.username in users) ==> forall m: Movie :: Watch(username, m.id) !in watched;
        Ok([])
      else
        assert RowidsSequential(movies) ==>
          forall m :: multiset(WatchedBy(movies, watched, username))[m] ==
            if m in movies then multiset(watched)[Watch(username, m.id)] else 0 by {
          if RowidsSequential(movies) { WatchedByCounts(movies, watched, username); }
        }
        Ok(WatchedBy(movies, watched, username))
    }
  }
}
