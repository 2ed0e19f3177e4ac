/**
 * The contact_submissions table: its rows, the order in which the list
 * query returns them, the LIMIT/OFFSET window, and the delete-by-id filter
 * (the same filter the admin view applies to its local copy of the list).
 */
module Submissions {

  /** One row of contact_submissions. */
  datatype Submission = Submission(id: nat, name: string, email: string, message: string, createdAt: int)

  function Min(a: int, b: int): int { if a <= b then a else b }

  /** Some row carries this id. */
  predicate HasId(rows: seq<Submission>, id: nat) {
    exists i | 0 <= i < |rows| :: rows[i].id == id
  }

  /**
   * The rows in the order the database assigned them: ids strictly increase
   * and creation times never decrease.
   */
  ghost predicate InsertionOrdered(rows: seq<Submission>) {
    forall i, j :: 0 <= i < j < |rows| ==> rows[i].id < rows[j].id && rows[i].createdAt <= rows[j].createdAt
  }

  /** Newest first: creation times never increase, ties broken by the larger id first. */
  ghost predicate SortedNewestFirst(rows: seq<Submission>) {
    forall i, j :: 0 <= i < j < |rows| ==> rows[i].createdAt >= rows[j].createdAt && rows[i].id > rows[j].id
  }

  // ---------------------------------------------------------------------
  // Filtering by id: DELETE ... WHERE id = ..., and prev.filter(sub => sub.id !== id)
  // ---------------------------------------------------------------------

  /** The rows whose id differs from the given one, in their original order. */
  function Without(rows: seq<Submission>, id: nat): (r: seq<Submission>)
    ensures |r| <= |rows|
    ensures !HasId(r, id)
  {
    if rows == [] then []
    else (if rows[0].id == id then [] else [rows[0]]) + Without(rows[1..], id)
  }

  /** A row survives the filter exactly when it is in the table and has another id. */
  lemma {:induction false} WithoutMembers(rows: seq<Submission>, id: nat)
    ensures forall s :: s in Without(rows, id) <==> s in rows && s.id != id
  {
    if rows != [] {
      WithoutMembers(rows[1..], id);
      assert rows == [rows[0]] + rows[1..];
    }
  }

  /** Filtering commutes with concatenation, so the kept rows stay in their order. */
  lemma {:induction false} WithoutAppend(a: seq<Submission>, b: seq<Submission>, id: nat)
    ensures Without(a + b, id) == Without(a, id) + Without(b, id)
  {
    if a == [] {
      assert a + b == b;
    } else {
      assert (a + b)[0] == a[0];
      assert (a + b)[1..] == a[1..] + b;
      WithoutAppend(a[1..], b, id);
    }
  }

  /** Filtering out an id no row carries changes nothing. */
  lemma {:induction false} WithoutAbsent(rows: seq<Submission>, id: nat)
    requires !HasId(rows, id)
    ensures Without(rows, id) == rows
  {
    if rows != [] {
      assert rows[0].id != id;
      assert !HasId(rows[1..], id) by {
        forall i | 0 <= i < |rows[1..]| ensures rows[1..][i].id != id {
          assert rows[1..][i] == rows[i + 1];
        }
      }
      WithoutAbsent(rows[1..], id);
      assert rows == [rows[0]] + rows[1..];
    }
  }

  /** With ids in increasing order, no row other than row k carries row k's id. */
  lemma OnlyRowHasItsId(rows: seq<Submission>, k: nat)
    requires InsertionOrdered(rows)
    requires k < |rows|
    ensures !HasId(rows[..k], rows[k].id)
    ensures !HasId(rows[k + 1..], rows[k].id)
  {
    var before, after := rows[..k], rows[k + 1..];
    forall i | 0 <= i < |before| ensures before[i].id != rows[k].id {
      assert before[i] == rows[i];
    }
    forall i | 0 <= i < |after| ensures after[i].id != rows[k].id {
      assert after[i] == rows[k + 1 + i];
    }
  }

  /**
   * With ids in increasing order, filtering out the id of row k removes
   * exactly that row: every other row keeps its content and position order.
   */
  lemma WithoutRemovesExactlyOne(rows: seq<Submission>, k: nat)
    requires InsertionOrdered(rows)
    requires k < |rows|
    ensures Without(rows, rows[k].id) == rows[..k] + rows[k + 1..]
    ensures |Without(rows, rows[k].id)| == |rows| - 1
  {
    OnlyRowHasItsId(rows, k);
    assert rows == rows[..k] + [rows[k]] + rows[k + 1..];
    WithoutSplice(rows[..k], rows[k], rows[k + 1..]);
  }

  /** Filtering out the id of the only row that has it leaves the rows around it. */
  lemma WithoutSplice(before: seq<Submission>, x: Submission, after: seq<Submission>)
    requires !HasId(before, x.id) && !HasId(after, x.id)
    ensures Without(before + [x] + after, x.id) == before + after
  {
    var id := x.id;
    assert Without([x], id) == [] by {
      assert [x][1..] == [];
    }
    WithoutAppend(before + [x], after, id);
    WithoutAppend(before, [x], id);
    WithoutAbsent(before, id);
    WithoutAbsent(after, id);
    calc {
      Without(before + [x] + after, id);
      Without(before + [x], id) + Without(after, id);
      Without(before, id) + Without([x], id) + Without(after, id);
      before + [] + after;
      { assert before + [] == before; }
      before + after;
    }
  }

  /** The first row of an ordered table comes before every later row. */
  lemma HeadPrecedesRest(rows: seq<Submission>)
    requires InsertionOrdered(rows)
    requires rows != []
    ensures forall s :: s in rows[1..] ==> rows[0].id < s.id && rows[0].createdAt <= s.createdAt
  {
    forall s | s in rows[1..] ensures rows[0].id < s.id && rows[0].createdAt <= s.createdAt {
      var m :| 0 <= m < |rows[1..]| && rows[1..][m] == s;
      assert s == rows[m + 1];
    }
  }

  /** A row that precedes every row of an ordered sequence can be put in front of it. */
  lemma ConsKeepsInsertionOrder(h: Submission, t: seq<Submission>)
    requires InsertionOrdered(t)
    requires forall s :: s in t ==> h.id < s.id && h.createdAt <= s.createdAt
    ensures InsertionOrdered([h] + t)
  {
    var r := [h] + t;
    forall i, j | 0 <= i < j < |r| ensures r[i].id < r[j].id && r[i].createdAt <= r[j].createdAt {
      assert r[j] == t[j - 1];
      if i > 0 {
        assert r[i] == t[i - 1];
      }
    }
  }

  /** Dropping the first row keeps the order. */
  lemma TailKeepsInsertionOrder(rows: seq<Submission>)
    requires InsertionOrdered(rows)
    requires rows != []
    ensures InsertionOrdered(rows[1..])
  {
    var rest := rows[1..];
    forall i, j | 0 <= i < j < |rest| ensures rest[i].id < rest[j].id && rest[i].createdAt <= rest[j].createdAt {
      assert rest[i] == rows[i + 1] && rest[j] == rows[j + 1];
    }
  }

  /** Filtering keeps the database's insertion order intact. */
  lemma {:induction false} WithoutKeepsInsertionOrder(rows: seq<Submission>, id: nat)
    requires InsertionOrdered(rows)
    ensures InsertionOrdered(Without(rows, id))
  {
    if rows != [] {
      TailKeepsInsertionOrder(rows);
      WithoutKeepsInsertionOrder(rows[1..], id);
      if rows[0].id != id {
        HeadPrecedesRest(rows);
        WithoutMembers(rows[1..], id);
        ConsKeepsInsertionOrder(rows[0], Without(rows[1..], id));
      } else {
        assert Without(rows, id) == Without(rows[1..], id);
      }
    }
  }

  // ---------------------------------------------------------------------
  // ORDER BY created_at DESC, LIMIT/OFFSET
  // ---------------------------------------------------------------------

  /**
   * The rows newest first. With rows kept in insertion order this is the
   * order of ORDER BY created_at DESC, ties going to the later insert.
   */
  function NewestFirst(rows: seq<Submission>): (r: seq<Submission>)
    ensures |r| == |rows|
    ensures forall i :: 0 <= i < |rows| ==> r[i] == rows[|rows| - 1 - i]
  {
    if rows == [] then [] else NewestFirst(rows[1..]) + [rows[0]]
  }

  /** Over rows in insertion order, NewestFirst is sorted by creation time, descending. */
  lemma NewestFirstIsSorted(rows: seq<Submission>)
    requires InsertionOrdered(rows)
    ensures SortedNewestFirst(NewestFirst(rows))
  {
    var r := NewestFirst(rows);
    forall i, j | 0 <= i < j < |r| ensures r[i].createdAt >= r[j].createdAt && r[i].id > r[j].id {
      assert r[i] == rows[|rows| - 1 - i] && r[j] == rows[|rows| - 1 - j];
    }
  }

  /** NewestFirst only reorders: it holds every row exactly as often as the table. */
  lemma {:induction false} NewestFirstIsPermutation(rows: seq<Submission>)
    ensures multiset(NewestFirst(rows)) == multiset(rows)
  {
    if rows != [] {
      NewestFirstIsPermutation(rows[1..]);
      assert rows == [rows[0]] + rows[1..];
    }
  }

  /** A row just inserted is the first row of the list. */
  lemma NewestFirstAfterInsert(rows: seq<Submission>, s: Submission)
    ensures NewestFirst(rows + [s]) == [s] + NewestFirst(rows)
  {
    var l, r := NewestFirst(rows + [s]), [s] + NewestFirst(rows);
    assert |l| == |r|;
    forall i | 0 <= i < |l| ensures l[i] == r[i] {
      if i > 0 {
        assert (rows + [s])[|rows| - i] == rows[|rows| - 1 - (i - 1)];
      }
    }
  }

  /**
   * LIMIT limit OFFSET offset over an ordered result: the rows from
   * position offset on, at most limit of them; none when offset is past the end.
   */
  function Window(ordered: seq<Submission>, offset: nat, limit: nat): (r: seq<Submission>)
    ensures |r| == if offset < |ordered| then Min(limit, |ordered| - offset) else 0
    ensures forall i :: 0 <= i < |r| ==> r[i] == ordered[offset + i]
  {
    if offset >= |ordered| then [] else ordered[offset..Min(offset + limit, |ordered|)]
  }

  // ---------------------------------------------------------------------
  // The table
  // ---------------------------------------------------------------------

  /**
   * The contact_submissions table. rows are kept in insertion order; nextId
   * is the id the database hands out next and clock the latest creation time.
   */
  class Table {
    var rows: seq<Submission>
    var nextId: nat
    var clock: int

    /** Database guarantees: fresh, increasing ids and non-decreasing creation times. */
    ghost predicate Valid()
      reads this
    {
      && InsertionOrdered(rows)
      && (forall s :: s in rows ==> s.id < nextId && s.createdAt <= clock)
    }

    constructor (startClock: int)
      ensures Valid()
      ensures rows == [] && nextId == 1 && clock == startClock
    {
      rows, nextId, clock := [], 1, startClock;
    }

    /**
     * INSERT ... RETURNING id, created_at: the database assigns the next id
     * and a creation time elapsed ticks after the previous one.
     */
    method Insert(name: string, email: string, message: string, elapsed: nat) returns (row: Submission)
      requires Valid()
      modifies this
      ensures Valid()
      ensures row == Submission(old(nextId), name, email, message, old(clock) + elapsed)
      ensures rows == old(rows) + [row]
      ensures forall s :: s in old(rows) ==> s.id < row.id
      ensures nextId == old(nextId) + 1 && clock == row.createdAt
      ensures NewestFirst(rows) == [row] + NewestFirst(old(rows))
    {
      row := Submission(nextId, name, email, message, clock + elapsed);
      NewestFirstAfterInsert(rows, row);
      rows := rows + [row];
      nextId := nextId + 1;
      clock := row.createdAt;
    }

    /** SELECT COUNT(*). */
    method Count() returns (total: nat)
      ensures total == |rows|
    {
      total := |rows|;
    }

    /** SELECT ... ORDER BY created_at DESC LIMIT limit OFFSET offset. */
    method Page(limit: nat, offset: nat) returns (page: seq<Submission>)
      requires Valid()
      ensures page == Window(NewestFirst(rows), offset, limit)
      ensures SortedNewestFirst(page)
      ensures |page| <= limit
    {
      NewestFirstIsSorted(rows);
      page := Window(NewestFirst(rows), offset, limit);
    }

    /** DELETE ... WHERE id = id RETURNING id: removed tells whether a row was returned. */
    method DeleteById(id: nat) returns (removed: bool)
      requires Valid()
      modifies this
      ensures Valid()
      ensures removed == HasId(old(rows), id)
      ensures rows == Without(old(rows), id)
      ensures removed ==> |rows| == |old(rows)| - 1
      ensures !removed ==> rows == old(rows)
      ensures nextId == old(nextId) && clock == old(clock)
    {
      removed := HasId(rows, id);
      var kept := Without(rows, id);
      if removed {
        var k :| 0 <= k < |rows| && rows[k].id == id;
        WithoutRemovesExactlyOne(rows, k);
      } else {
        WithoutAbsent(rows, id);
      }
      WithoutKeepsInsertionOrder(rows, id);
      WithoutMembers(rows, id);
      rows := kept;
    }
  }
}
