/** Callers of the store and what its contracts let them conclude. They create
    the tables first, as app.py does, then mutate and query; one scenario
    first shows `add_user` failing without tables. */
module Scenarios {
  import opened SqlLike
  import opened Database

  /** Watching the same movie twice stores two rows and lists the movie twice;
      the user is created by the first watch; another user has watched nothing. */
  method WatchSameMovieTwice(future: int)
  {
    var db := new Store();
    db.CreateTables();
    var dune := Movie(1, "Dune", future);
    var o := db.AddMovie("Dune", future);
    assert db.movies == [dune];
    RowidLookup(db.movies, 1);
    assert db.GetWatchedMovies("alice") == Ok([]);
    o := db.WatchMovie("alice", 1);
    assert "alice" in db.users;
    assert db.GetWatchedMovies("alice") == Ok([dune]);
    o := db.WatchMovie("alice", 1);
    assert |db.watched| == 2;
    assert db.GetWatchedMovies("alice").value == [dune] + [dune];
    assert db.GetWatchedMovies("bob") == Ok([]);
  }

  /** A second `add_user` with the same name is rolled back; a later watch by
      that user still commits, and a watch of a missing movie lists nothing. */
  method DuplicateUserRolledBack()
  {
    var db := new Store();
    var o := db.AddUser("alice");
    assert o == RolledBack(NoSuchTable("users"));
    db.CreateTables();
    o := db.AddUser("alice");
    assert o == Committed && db.users == {"alice"};
    o := db.AddUser("alice");
    assert o == RolledBack(UniqueConstraintFailed("users.username")) && db.users == {"alice"};
    assert db.movies == [] && db.watched == [];
    var before := db.GetWatchedMovies("alice");
    assert before == Ok([]);
    o := db.WatchMovie("alice", 7);
    assert o == Committed && db.watched == [Watch("alice", 7)];
    var after := db.GetWatchedMovies("alice");
    assert after.value == before.value + MoviesWithId(db.movies, 7);
    assert MoviesWithId(db.movies, 7) == [];
    assert after.Ok?;
    assert after.value == [];
  }

  /** Of movies released at now - 1, now and now + 1, only the last is upcoming. */
  method UpcomingExcludesNow(now: int)
  {
    var db := new Store();
    db.CreateTables();
    var a, b, c := Movie(1, "A", now - 1), Movie(2, "B", now), Movie(3, "C", now + 1);
    var o := db.AddMovie("A", now - 1);
    assert db.movies == [a];
    o := db.AddMovie("B", now);
    assert db.movies == [a, b];
    o := db.AddMovie("C", now + 1);
    assert db.movies == [a, b, c];
    var upcoming := db.GetMovies(true, now).value;
    assert c in upcoming && a !in upcoming && b !in upcoming;
  }

  /** A search ignores ASCII case. */
  method SearchIgnoresCase(release: int)
  {
    var db := new Store();
    db.CreateTables();
    var o := db.AddMovie("The Matrix", release);
    var matrix := Movie(1, "The Matrix", release);
    assert db.movies == [matrix];
    assert HasNoWildcard("matrix");
    assert OccursAt("The Matrix", "matrix", 4) by {
      assert "The Matrix"[4..10] == "Matrix";
    }
    var found := db.SearchMovies("matrix");
    assert matrix in found.value;
  }

  /** A term that no title contains finds nothing. */
  method SearchForAbsentTerm(release: int)
  {
    var db := new Store();
    db.CreateTables();
    var o := db.AddMovie("The Matrix", release);
    var matrix := Movie(1, "The Matrix", release);
    assert db.movies == [matrix];
    assert HasNoWildcard("xyz");
    assert !ContainsIgnoringCase("The Matrix", "xyz") by {
      forall i | 0 <= i <= 7 ensures !OccursAt("The Matrix", "xyz", i) {
        assert "The Matrix"[i..i + 3][0] == "The Matrix"[i];
      }
    }
    var found := db.SearchMovies("xyz");
    assert matrix !in found.value;
    assert found.value == [];
  }
}
