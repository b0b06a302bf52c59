/**
 * The `StaffDB` store (app.py:28-95): one session on the database file,
 * holding the `workers` table as its rows in storage order, whether the
 * composite index `speed_search` on (sex, name) exists, and whether the
 * connection is open. Each SQL statement becomes an update of these fields.
 * `committed` is what the file holds after the last `connection.commit()`;
 * the ghost `commits` counts the commits.
 */
module Staff {
  import opened Workers
  import opened Queries

  /** What a database file holds when a session opens it. */
  datatype StoredFile = NoTable | Table(rows: seq<Worker>, indexed: bool)

  class StaffDB {
    var rows: seq<Worker>
    var hasTable: bool
    var indexed: bool
    var isOpen: bool
    var committed: seq<Worker>
    ghost var commits: nat

    /** Without the table there are no rows and no index on it. */
    ghost predicate WellFormed()
      reads this
    {
      !hasTable ==> rows == [] && committed == [] && !indexed
    }

    /** The table exists: true of every session once `setup_db` has run. */
    ghost predicate Valid()
      reads this
    {
      hasTable
    }

    /** What the file holds: the committed rows and the index. */
    function Persisted(): StoredFile
      reads this
    {
      if hasTable then Table(committed, indexed) else NoTable
    }

    /**
     * `StaffDB.__init__` (app.py:30-33): connect to the file, which holds
     * `file`, and create the table if it is absent.
     */
    constructor (file: StoredFile)
      ensures Valid() && isOpen
      ensures rows == committed == (if file.Table? then file.rows else [])
      ensures indexed == (file.Table? && file.indexed)
    {
      rows := if file.Table? then file.rows else [];
      committed := rows;
      indexed := file.Table? && file.indexed;
      hasTable := file.Table?;
      isOpen := true;
      commits := 0;
      new;
      SetupDb();
    }

    /** `connection.commit()`: everything stored so far becomes durable. */
    method Commit()
      requires isOpen
      modifies this`committed, this`commits
      ensures committed == rows && commits == old(commits) + 1
    {
      committed := rows;
      commits := commits + 1;
    }

    /**
     * `setup_db` (app.py:36-44): `CREATE TABLE IF NOT EXISTS`. An absent
     * table is created empty; an existing one, with its rows and index, is
     * left as it is, so a second call changes nothing.
     */
    method SetupDb()
      requires isOpen && WellFormed()
      modifies this`hasTable, this`committed, this`commits
      ensures Valid() && isOpen
      ensures rows == old(rows) && indexed == old(indexed)
      ensures !old(hasTable) ==> rows == [] && !indexed
      ensures Persisted() == Table(rows, indexed)
      ensures commits == old(commits) + 1
    {
      hasTable := true;
      Commit();
    }

    /** `add_worker` (app.py:47-49): store one row, then commit. */
    method AddWorker(w: Worker)
      requires Valid() && isOpen
      modifies this`rows, this`committed, this`commits
      ensures Valid() && isOpen && indexed == old(indexed)
      ensures rows == old(rows) + [w]
      ensures Persisted() == Table(rows, indexed)
      ensures commits == old(commits) + 1
    {
      Store(w, this);
      Commit();
    }

    /**
     * `add_many` (app.py:52-55): store every worker in order, then commit
     * once. Nothing of the batch is committed before the loop ends.
     */
    method AddMany(workers: seq<Worker>)
      requires Valid() && isOpen
      modifies this`rows, this`committed, this`commits
      ensures Valid() && isOpen && indexed == old(indexed)
      ensures rows == old(rows) + workers
      ensures |rows| == |old(rows)| + |workers|
      ensures Persisted() == Table(rows, indexed)
      ensures commits == old(commits) + 1
    {
      var i := 0;
      while i < |workers|
        invariant 0 <= i <= |workers|
        invariant rows == old(rows) + workers[..i]
        invariant committed == old(committed) && commits == old(commits)
      {
        Store(workers[i], this);
        i := i + 1;
      }
      assert workers[..i] == workers;
      Commit();
    }

    /**
     * `show_all_unique` (app.py:58-64): each distinct (name, dob, sex) triple
     * of the table exactly once, nothing else, in non-decreasing name order.
     */
    method ShowAllUnique() returns (result: seq<Worker>)
      requires Valid() && isOpen
      ensures forall w :: multiset(result)[w] == if w in rows then 1 else 0
      ensures SortedByName(result)
    {
      result := DistinctByName(rows);
      DistinctByNameCorrect(rows);
    }

    /**
     * `find_male_f` (app.py:67-73): every row with sex `Male` whose name
     * begins with `F` or `f`, as often as it is stored, and no other row.
     * The order is left open: the index may change it.
     */
    method FindMaleF() returns (result: seq<Worker>)
      requires Valid() && isOpen
      ensures forall w :: multiset(result)[w] == if IsMaleF(w) then multiset(rows)[w] else 0
    {
      result := MaleF(rows);
      MaleFCounts(rows);
    }

    /**
     * `make_faster` (app.py:76-82): `CREATE INDEX IF NOT EXISTS` on (sex, name).
     * The rows, and so the result of every query, stay as they were; a
     * second call changes nothing.
     */
    method MakeFaster()
      requires Valid() && isOpen
      modifies this`indexed, this`committed, this`commits
      ensures Valid() && isOpen && indexed
      ensures rows == old(rows)
      ensures Persisted() == Table(rows, true)
      ensures commits == old(commits) + 1
    {
      indexed := true;
      Commit();
    }

    /** `vacuum` (app.py:85-87): rewrites the file; rows and index are unaffected. */
    method Vacuum()
      requires Valid() && isOpen
      modifies this`committed, this`commits
      ensures Valid() && isOpen && rows == old(rows) && indexed == old(indexed)
      ensures Persisted() == Table(rows, indexed)
      ensures commits == old(commits) + 1
    {
      Commit();
    }

    /** `close` (app.py:89-90): end the session; closing twice is harmless. */
    method Close()
      modifies this`isOpen
      ensures !isOpen
    {
      isOpen := false;
    }

    /**
     * `clear_table` (app.py:92-95): `DELETE FROM workers`, then commit. The
     * table and its index remain, so later inserts still succeed.
     */
    method ClearTable()
      requires Valid() && isOpen
      modifies this`rows, this`committed, this`commits
      ensures Valid() && isOpen && indexed == old(indexed)
      ensures rows == []
      ensures Persisted() == Table([], indexed)
      ensures commits == old(commits) + 1
    {
      rows := [];
      Commit();
    }
  }

  /**
   * `Worker.store` (app.py:24-26): `INSERT INTO workers VALUES (?, ?, ?)`
   * appends one row in field order; nothing is checked and nothing committed.
   */
  method Store(w: Worker, db: StaffDB)
    requires db.Valid() && db.isOpen
    modifies db`rows
    ensures db.rows == old(db.rows) + [w]
  {
    db.rows := db.rows + [w];
  }

  /**
   * Mode 4 of `main` (app.py:178-186): clear the table, add the random
   * workers, then the special ones. Afterwards the search of `find_male_f`
   * finds exactly the special workers.
   */
  method Populate(db: StaffDB, randomPicks: seq<RandomPick>, specialPicks: seq<SpecialPick>)
    returns (specials: seq<Worker>)
    requires db.Valid() && db.isOpen
    requires forall i :: 0 <= i < |randomPicks| ==> ValidRandomPick(randomPicks[i])
    requires |specialPicks| == 100
    requires forall i :: 0 <= i < |specialPicks| ==> ValidSpecialPick(specialPicks[i])
    modifies db
    ensures db.Valid() && db.isOpen && db.indexed == old(db.indexed)
    ensures db.rows == RandomWorkers(randomPicks) + specials
    ensures |specials| == 100 && MaleF(db.rows) == specials
    ensures forall i :: 0 <= i < 100 ==> specials[i] == SpecialWorker(specialPicks[i])
    ensures db.Persisted() == Table(db.rows, db.indexed)
  {
    var many := RandomWorkers(randomPicks);
    specials := SpecialWorkers(specialPicks);
    OnlySpecialsMatch(many, specials);
    db.ClearTable();
    db.AddMany(many);
    assert db.rows == many;
    db.AddMany(specials);
  }

  /**
   * Mode 6 of `main` (app.py:205-219) without the clock: search, create the
   * index, search again. Both searches return the same rows.
   */
  method IndexBenchmark(db: StaffDB) returns (before: seq<Worker>, after: seq<Worker>)
    requires db.Valid() && db.isOpen
    modifies db
    ensures db.Valid() && db.isOpen && db.indexed && db.rows == old(db.rows)
    ensures forall w :: multiset(before)[w] == if IsMaleF(w) then multiset(db.rows)[w] else 0
    ensures multiset(before) == multiset(after)
  {
    before := db.FindMaleF();
    db.MakeFaster();
    after := db.FindMaleF();
  }

  /**
   * Two runs of the program on one file: the second session finds the table
   * the first one left, with its committed rows and its index, and
   * `setup_db` does not disturb it. Rows stored but not committed are lost.
   */
  method Reopen(db: StaffDB) returns (next: StaffDB)
    requires db.Valid() && db.isOpen
    modifies db
    ensures !db.isOpen
    ensures next.Valid() && next.isOpen
    ensures next.rows == old(db.committed) && next.indexed == old(db.indexed)
  {
    db.Close();
    next := new StaffDB(db.Persisted());
  }
}
