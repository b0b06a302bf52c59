# Personnel registry: a Dafny model of `app.py`

`app.py` is a command-line personnel registry. It keeps one SQLite table, `workers(name, dob, sex)`, in the file `staff.db`. This project models the logic underneath its SQL and CLI plumbing, and proves properties of that model:

- **`StaffDB` store** (`staff_db.dfy`, module `Staff`): a class whose fields hold the table's rows in storage order, whether the table exists, whether the composite index `speed_search` on (sex, name) exists, and whether the connection is open. Each SQL statement becomes an update of these fields. A further field records what `connection.commit()` has made durable, which is what the file holds; a ghost field counts the commits.
- **Query meanings** (`queries.dfy`, module `Queries`): `SELECT DISTINCT … ORDER BY name` and the `sex = 'Male' AND name LIKE 'F%'` filter, as functions of the rows.
- **SQLite text semantics** (`collation.dfy`, module `Collation`): the BINARY collation behind `ORDER BY name`, and the default `LIKE`, which folds ASCII case.
- **Worker records and generators** (`workers.dfy`, module `Workers`): `Worker`, `get_age` with the clock reading passed in, and `random_worker` / `special_workers` with their random draws passed in.
- **Calendar** (`calendar.dfy`, `date_text.dfy`): the Gregorian leap-year rule, month lengths, the completed-years age computation, and the `YYYY-MM-DD` text form that `random_date` writes and `strptime` reads.

The search follows SQLite's default `LIKE`, which is case-insensitive for ASCII letters: `name LIKE 'F%'` also accepts names beginning with a lower-case `f`, although the comment at app.py:66 speaks only of surnames beginning with F. `Collation.LikeF` states this, and `Queries.MaleFExample` shows a man named `fox …` passing the filter.

Names compare as sequences of Unicode scalar values. SQLite's BINARY collation compares UTF-8 bytes, and UTF-8 byte order equals code point order, so the two orders agree.

The one `connection.commit()` in `add_many` is modelled by the field `committed`. It keeps its old value for the whole loop and takes the new rows only after the loop.

## Model

| member | source | states |
|---|---|---|
| `Calendar.DaysInMonth` | app.py:103-108 | the day bound lies between 28 and 31; it is 29 exactly for February of a leap year (`Calendar.IsLeapYear`, the test `(y%4==0 and y%100!=0) or y%400==0` of app.py:104), 28 for February of any other year, 30 exactly for months 4, 6, 9 and 11, and 31 exactly for months 1, 3, 5, 7, 8, 10 and 12 |
| `Calendar.YearLength` | app.py:103-108 | the twelve month bounds add up to 366 in a leap year and 365 otherwise |
| `Calendar.AgeCountsBirthdays` | app.py:18-21 | `Calendar.AgeOn`, which computes `now.year - birth.year`, minus one when `(now.month, now.day) < (birth.month, birth.day)`, is the number of completed years: the k-th birthday is on or before `now` exactly when k ≤ the age |
| `Calendar.AgeNonNegative` | app.py:18-21 | a birth date on or before `now` gives an age ≥ 0 |
| `Calendar.AgeMonotone` | app.py:18-21 | a later `now` never gives a smaller age |
| `DateText.Number` | app.py:16 | a run of n digits has a value below 10^n |
| `DateText.Padded` | app.py:110 | the zero-padded rendering of `n` has exactly the requested width, only digits, and reads back as `n` |
| `DateText.PaddedNumber` | app.py:110 | every run of digits is the zero-padded rendering of its own value |
| `DateText.FormatDate` | app.py:110 | `f"{year}-{month:02d}-{day:02d}"` is ten characters with dashes at positions 4 and 7 |
| `DateText.ParseDate` | app.py:16 | `strptime(dob, "%Y-%m-%d")` on the padded form succeeds only with a valid calendar date; it fails on a day the month lacks |
| `DateText.ParseFormat` | app.py:110 | parsing the text `random_date` writes for a valid date gives back that date |
| `DateText.FormatParse` | app.py:16 | a string that parses to a date with a four-digit year is exactly that date's padded text |
| `DateText.RandomDateRangeIsValidDates` | app.py:99-108 | the bounds `random_date` draws from admit exactly the valid dates of 1960 to 2000 |
| `DateText.RandomDate` | app.py:110 | the text `random_date` returns is ten characters long |
| `DateText.RandomDateParses` | app.py:98-110 | any draw within the bounds is a valid date, and the text `random_date` makes of it parses back to it |
| `Collation.NameLeReflexive` | app.py:62 | every name sorts no later than itself under `Collation.NameLe`, the BINARY order behind `ORDER BY name` |
| `Collation.NameLeTotal` | app.py:62 | any two names are comparable under the BINARY collation |
| `Collation.NameLeTransitive` | app.py:62 | the BINARY collation is transitive |
| `Collation.NameLeAntisymmetric` | app.py:62 | two names that each sort no later than the other are equal |
| `Collation.AsciiLower` | app.py:71 | `LIKE` folds exactly the ASCII upper-case letters, each to the letter 32 code points up |
| `Collation.LikeF` | app.py:71 | `name LIKE 'F%'`, modelled by `Collation.LikePrefix` (the name begins with the pattern up to ASCII case), holds exactly when the name is non-empty and begins with `F` or `f` |
| `Workers.GetAge` | app.py:15-21 | fails exactly when the date of birth does not parse; otherwise the result is the number of completed years at `now` |
| `Workers.GetAgeNonNegative` | app.py:15-21 | a well-formed date of birth on or before `now` gives a successful, non-negative age |
| `Workers.RandomWorker` | app.py:112-120 | the generated name never begins with `F` or `f`; sex is `Male` or `Female` |
| `Workers.RandomWorkers` | app.py:181 | one worker per draw, none of them matching `LIKE 'F%'` |
| `Workers.SpecialWorker` | app.py:127-133 | the generated worker is `Male` with a name matching `LIKE 'F%'` |
| `Workers.GeneratedDobsParse` | app.py:112-133 | the date of birth of every generated worker parses back to the drawn date, so `get_age` succeeds on it |
| `Workers.SpecialWorkersMatch` | app.py:129-133 | workers built by the special generator are all male with names beginning with `F` |
| `Workers.SpecialWorkers` | app.py:122-135 | exactly 100 workers, the i-th built from the i-th draw, all male with names beginning with `F` |
| `Queries.MaleFCounts` | app.py:68-73 | the search `Queries.MaleF` (the rows satisfying `Queries.IsMaleF`, i.e. `sex = 'Male' AND name LIKE 'F%'`, in storage order) returns each matching row as often as it is stored and no other row |
| `Queries.MaleFAppend` | app.py:68-73 | the search over two appended batches is the search over each, concatenated |
| `Queries.MaleFKeepsAll` | app.py:68-73 | a batch whose rows all match comes back whole and in order |
| `Queries.MaleFDropsAll` | app.py:71 | a batch with no name beginning with `F`/`f` contributes nothing |
| `Queries.OnlySpecialsMatch` | app.py:179-186 | after random workers then special workers, the search returns exactly the special workers |
| `Queries.MaleFExample` | app.py:71 | on four sample rows, the search keeps the men named `Fox…` and `fox…` and drops a woman named `Foxtrot…` and a man named `Amos…` |
| `Queries.InsertByName` | app.py:62 | inserting a row adds exactly that row to the multiset of rows |
| `Queries.PrependSorted` | app.py:62 | a row that sorts no later than every row of a sorted sequence can be put in front of it |
| `Queries.InsertByNameSorted` | app.py:62 | inserting into a name-sorted sequence keeps it name-sorted |
| `Queries.DistinctByNameCorrect` | app.py:59-63 | `Queries.DistinctByName`, the model of `SELECT DISTINCT name, dob, sex FROM workers ORDER BY name`, returns every stored triple exactly once and nothing else, in non-decreasing name order |
| `Queries.DistinctIgnoresDuplicates` | app.py:59-63 | storing an already stored triple again leaves the distinct listing unchanged |
| `Queries.DistinctExample` | app.py:59-63 | rows Brown, Adams, Curtis, Brown are listed as Adams, Brown, Curtis |
| `Staff.StaffDB.constructor` | app.py:30-33 | opening a file gives an open session with the table present; the rows and index come from the file, or are empty if the table was absent |
| `Staff.StaffDB.Commit` | app.py:44 | commit makes every stored row durable and counts one commit |
| `Staff.StaffDB.SetupDb` | app.py:36-44 | `CREATE TABLE IF NOT EXISTS` creates an empty table if it is absent and changes no rows and no index if it exists, so a repeat call is a no-op |
| `Staff.StaffDB.AddWorker` | app.py:47-49 | exactly one row `(name, dob, sex)` is appended after the earlier rows, which are unchanged, then committed with one commit |
| `Staff.StaffDB.AddMany` | app.py:52-55 | the workers are appended in input order, so the row count grows by exactly their number; one commit in all, after the loop |
| `Staff.StaffDB.ShowAllUnique` | app.py:58-64 | each distinct stored triple exactly once, nothing else, in non-decreasing name order |
| `Staff.StaffDB.FindMaleF` | app.py:67-73 | every stored row with sex `Male` and a name beginning with `F` or `f`, as often as it is stored, and nothing else |
| `Staff.StaffDB.MakeFaster` | app.py:76-82 | the index exists afterwards and the rows are unchanged, so every query result is unchanged and a repeat call is a no-op |
| `Staff.StaffDB.Vacuum` | app.py:85-87 | rows and index are unchanged |
| `Staff.StaffDB.Close` | app.py:89-90 | the session is closed; a second close is harmless |
| `Staff.StaffDB.ClearTable` | app.py:92-95 | no rows remain; the table and its index remain and the session stays usable for inserts |
| `Staff.Store` | app.py:24-26 | `INSERT` appends the worker as one row in field order, with no check on any field and no commit; the worker is a `Workers.Worker`, the three strings `Worker.__init__` (app.py:9-12) takes as given with no constraint on dob or sex |
| `Staff.Populate` | app.py:178-186 | after mode 4 the table holds the random workers followed by the 100 workers `special_workers` builds from its draws, all committed, and the search finds exactly those special ones |
| `Staff.IndexBenchmark` | app.py:205-219 | both searches return exactly the stored rows with sex `Male` and a name beginning with `F` or `f`, with their multiplicities, so the result is the same before and after `make_faster` |
| `Staff.Reopen` | app.py:146 | a later run on the same file finds exactly the rows the earlier session committed, and its index; its `setup_db` disturbs nothing; rows stored but never committed are lost |

## Left out

- The `sqlite3` connection and cursor, the file format and crash behaviour (app.py:31-32). What a commit makes durable is the field `committed`; only the number of commits (`commits`) is ghost.
- Failure to open or create the database file. It is I/O in a foreign library.
- `main`'s argument dispatch, messages and `try/finally` close (app.py:138-224). They are CLI glue. Modes 4 and 6, and the reopening of the file by a later run, appear only as `Staff.Populate`, `Staff.IndexBenchmark` and `Staff.Reopen`.
- Timing with `time.time()` and the speed-up the index gives. These are wall-clock floating-point measurements; only "results unchanged" is modelled.
- The distribution of `random.choice` and `random.randint`. Their draws are parameters, constrained to the lists and ranges the source draws from.
- The count of one million random workers in mode 4 (app.py:181). `Staff.Populate` takes any number of draws.
- `datetime.now()`. The clock reading is a parameter.
- SQLite's dynamic typing and `NULL`. Every field is a string, which is all the source ever stores.
- Use of a closed connection, which raises `ProgrammingError`. The data operations require an open session instead.
- Staff.StaffDB.Vacuum: does not model the error SQLite raises for `VACUUM` inside an open transaction, as after an uncommitted `Store`. The program only vacuums right after `clear_table` has committed (app.py:151-152).
- The general `LIKE` pattern language (`_`, `%` inside the pattern, `ESCAPE`). Only a literal prefix followed by `%` is modelled, which is the only pattern the source uses.
- DateText.ParseDate: accepts only the zero-padded ASCII form `YYYY-MM-DD`. `strptime` also accepts unpadded months and days (`1990-5-7`), a space-padded day (`1990-05- 7`) and non-ASCII decimal digits; those inputs are reported as malformed here.
- Staff.StaffDB.FindMaleF: states the rows and their multiplicities, not their order. With the (sex, name) index SQLite may return the rows in index order instead of storage order. The model returns storage order.
- Staff.StaffDB.ShowAllUnique: states non-decreasing name order only. SQL leaves the order of rows with equal names open, and the model fixes one choice.
