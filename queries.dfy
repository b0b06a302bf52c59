/**
 * The meaning of the registry's two SELECT statements, as functions of the
 * rows of the `workers` table in storage order:
 * `SELECT DISTINCT name, dob, sex FROM workers ORDER BY name` (app.py:59-63)
 * and `SELECT ... WHERE sex = 'Male' AND name LIKE 'F%'` (app.py:68-72).
 */
module Queries {
  import opened Collation
  import opened Workers

  /** The row filter of `find_male_f`: exact `sex = 'Male'`, and `name LIKE 'F%'`. */
  predicate IsMaleF(w: Worker) {
    w.sex == "Male" && LikePrefix(w.name, "F")
  }

  /** The rows that pass the filter, in storage order, duplicates kept. */
  function MaleF(rows: seq<Worker>): seq<Worker> {
    if rows == [] then []
    else
      var last := rows[|rows| - 1];
      MaleF(rows[..|rows| - 1]) + (if IsMaleF(last) then [last] else [])
  }

  /** Each matching row comes out as often as it is stored; no other row comes out. */
  lemma {:induction false} MaleFCounts(rows: seq<Worker>)
    ensures forall w :: multiset(MaleF(rows))[w] == if IsMaleF(w) then multiset(rows)[w] else 0
  {
    if rows != [] {
      var init, last := rows[..|rows| - 1], rows[|rows| - 1];
      MaleFCounts(init);
      assert rows == init + [last];
    }
  }

  /** The filter distributes over appending batches of rows. */
  lemma {:induction false} MaleFAppend(a: seq<Worker>, b: seq<Worker>)
    ensures MaleF(a + b) == MaleF(a) + MaleF(b)
    decreases |b|
  {
    if b == [] {
      assert a + b == a;
    } else {
      var init, last := b[..|b| - 1], b[|b| - 1];
      MaleFAppend(a, init);
      assert (a + b)[..|a + b| - 1] == a + init;
    }
  }

  /** A batch in which every row matches is returned whole, in order. */
  lemma {:induction false} MaleFKeepsAll(rows: seq<Worker>)
    requires forall i :: 0 <= i < |rows| ==> IsMaleF(rows[i])
    ensures MaleF(rows) == rows
  {
    if rows != [] {
      MaleFKeepsAll(rows[..|rows| - 1]);
    }
  }

  /** A batch whose names never begin with `F` or `f` contributes nothing. */
  lemma {:induction false} MaleFDropsAll(rows: seq<Worker>)
    requires forall i :: 0 <= i < |rows| ==> !LikePrefix(rows[i].name, "F")
    ensures MaleF(rows) == []
  {
    if rows != [] {
      MaleFDropsAll(rows[..|rows| - 1]);
    }
  }

  /**
   * After `random_worker` rows followed by `special_workers` rows (mode 4,
   * app.py:179-186), the search returns exactly the special rows.
   */
  lemma {:induction false} OnlySpecialsMatch(randoms: seq<Worker>, specials: seq<Worker>)
    requires forall i :: 0 <= i < |randoms| ==> !LikePrefix(randoms[i].name, "F")
    requires forall i :: 0 <= i < |specials| ==> specials[i].sex == "Male" && LikePrefix(specials[i].name, "F")
    ensures MaleF(randoms + specials) == specials
  {
    MaleFAppend(randoms, specials);
    MaleFDropsAll(randoms);
    MaleFKeepsAll(specials);
  }

  /** Non-decreasing by name under the BINARY collation, as `ORDER BY name` promises. */
  predicate SortedByName(s: seq<Worker>) {
    forall i, j :: 0 <= i < j < |s| ==> NameLe(s[i].name, s[j].name)
  }

  /** Inserts `w` before the first row whose name is not smaller. */
  function InsertByName(s: seq<Worker>, w: Worker): (r: seq<Worker>)
    ensures multiset(r) == multiset(s) + multiset{w}
  {
    if s == [] then [w]
    else if NameLe(w.name, s[0].name) then [w] + s
    else
      assert s == [s[0]] + s[1..];
      [s[0]] + InsertByName(s[1..], w)
  }

  /** A row no greater than every row of a sorted sequence can be put in front of it. */
  lemma PrependSorted(x: Worker, s: seq<Worker>)
    requires SortedByName(s)
    requires forall j :: 0 <= j < |s| ==> NameLe(x.name, s[j].name)
    ensures SortedByName([x] + s)
  {
  }

  lemma {:induction false} InsertByNameSorted(s: seq<Worker>, w: Worker)
    requires SortedByName(s)
    ensures SortedByName(InsertByName(s, w))
  {
    if s == [] {
    } else if NameLe(w.name, s[0].name) {
      forall j | 0 <= j < |s|
        ensures NameLe(w.name, s[j].name)
      {
        if j > 0 {
          NameLeTransitive(w.name, s[0].name, s[j].name);
        }
      }
      PrependSorted(w, s);
    } else {
      var tail := InsertByName(s[1..], w);
      InsertByNameSorted(s[1..], w);
      NameLeTotal(w.name, s[0].name);
      forall j | 0 <= j < |tail|
        ensures NameLe(s[0].name, tail[j].name)
      {
        assert tail[j] in multiset(tail);
        if tail[j] != w {
          assert tail[j] in multiset(s[1..]);
          var k :| 0 <= k < |s[1..]| && s[1..][k] == tail[j];
          assert s[k + 1] == tail[j];
        }
      }
      PrependSorted(s[0], tail);
    }
  }

  /**
   * `SELECT DISTINCT name, dob, sex FROM workers ORDER BY name` over the
   * stored rows. Among rows with equal names the order is this function's
   * choice; SQL leaves it open.
   */
  function DistinctByName(rows: seq<Worker>): seq<Worker> {
    if rows == [] then []
    else
      var s := DistinctByName(rows[..|rows| - 1]);
      var last := rows[|rows| - 1];
      if last in s then s else InsertByName(s, last)
  }

  /** Every distinct stored triple comes out exactly once, nothing else does, sorted by name. */
  lemma {:induction false} DistinctByNameCorrect(rows: seq<Worker>)
    ensures forall w :: multiset(DistinctByName(rows))[w] == if w in rows then 1 else 0
    ensures SortedByName(DistinctByName(rows))
  {
    if rows != [] {
      var init, last := rows[..|rows| - 1], rows[|rows| - 1];
      DistinctByNameCorrect(init);
      assert rows == init + [last];
      var s := DistinctByName(init);
      if last !in s {
        InsertByNameSorted(s, last);
      }
    }
  }

  /** Storing an already stored triple again does not change the distinct listing. */
  lemma DistinctIgnoresDuplicates(rows: seq<Worker>, w: Worker)
    requires w in rows
    ensures DistinctByName(rows + [w]) == DistinctByName(rows)
  {
    assert (rows + [w])[..|rows|] == rows;
    DistinctByNameCorrect(rows);
  }

  /**
   * The search on four rows: a man named `Fox…` matches, a woman named
   * `Foxtrot…` and a man named `Amos…` do not, and `LIKE` also lets a man
   * named `fox…` through.
   */
  lemma MaleFExample()
    ensures MaleF([Worker("Fox James X", "1990-05-17", "Male"),
                   Worker("Foxtrot Y", "1990-05-17", "Female"),
                   Worker("Amos Z", "1990-05-17", "Male"),
                   Worker("fox Anna Y", "1990-05-17", "Male")])
         == [Worker("Fox James X", "1990-05-17", "Male"), Worker("fox Anna Y", "1990-05-17", "Male")]
  {
    var a := Worker("Fox James X", "1990-05-17", "Male");
    var b := Worker("Foxtrot Y", "1990-05-17", "Female");
    var c := Worker("Amos Z", "1990-05-17", "Male");
    var d := Worker("fox Anna Y", "1990-05-17", "Male");
    LikeF(a.name);
    LikeF(c.name);
    LikeF(d.name);
    assert [a, b, c, d][..3] == [a, b, c] && [a, b, c][..2] == [a, b] && [a, b][..1] == [a];
    assert MaleF([a]) == [a] by {
      assert [a][..0] == [];
    }
  }

  /** The listing puts Adams, Brown and Curtis in that order and drops the repeated Brown. */
  lemma DistinctExample(adams: Worker, brown: Worker, curtis: Worker)
    requires adams.name == "Adams" && brown.name == "Brown" && curtis.name == "Curtis"
    ensures DistinctByName([brown, adams, curtis, brown]) == [adams, brown, curtis]
  {
    var rows1, rows2, rows3 := [brown], [brown, adams], [brown, adams, curtis];
    assert DistinctByName(rows1) == [brown] by {
      assert rows1[..0] == [];
    }
    assert DistinctByName(rows2) == [adams, brown] by {
      assert rows2[..1] == rows1;
      assert NameLe(adams.name, brown.name);
    }
    assert DistinctByName(rows3) == [adams, brown, curtis] by {
      assert rows3[..2] == rows2;
      assert !NameLe(curtis.name, adams.name) && !NameLe(curtis.name, brown.name);
      assert curtis !in [adams, brown];
      assert [adams, brown][1..] == [brown];
      assert [brown][1..] == [];
      assert InsertByName([brown], curtis) == [brown, curtis];
      assert InsertByName([adams, brown], curtis) == [adams, brown, curtis];
    }
    DistinctIgnoresDuplicates(rows3, brown);
    assert rows3 + [brown] == [brown, adams, curtis, brown];
  }
}
