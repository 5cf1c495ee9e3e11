/**
 * The TODO service: create, read, update and delete over the `todos` table.
 *
 * The table is modelled abstractly as a map from id to row plus the id the
 * next insert receives. Everything the storage engine decides on its own
 * (the timestamps it writes, whether a statement fails) arrives as an
 * `Engine` value. Each operation is specified by a function over `Table`
 * values (`CreateSpec`, `ReadSpec`, `UpdateSpec`, `DeleteSpec`) whose
 * contract states what the service promises; the methods of `TODOService`
 * follow the source statement by statement and are proved to agree with
 * those functions.
 */
module Service {
  import opened Wrappers
  import opened Model

  /** One row of the `todos` table, without its key. */
  datatype Row = Row(subject: string, description: string,
                     createdAt: Timestamp, updatedAt: Timestamp)

  /** A snapshot of the `todos` table: rows by id, and the id the next insert receives. */
  datatype Table = Table(rows: map<int, Row>, nextId: int)

  /**
   * What the storage engine does on one call, as far as the service can see:
   * the timestamp it writes, whether the statement (insert, select, update,
   * delete) fails, whether the confirming single-row select that follows
   * a write fails, and, for a read, after how many rows the cursor stops on
   * an error (None: it runs to the end of the result).
   */
  datatype Engine = Engine(now: Timestamp, execFails: bool, confirmFails: bool, cursorStop: Option<nat>)

  /** Ids are positive and below the id the next insert receives (an auto-increment key). */
  predicate WellFormed(t: Table)
  {
    t.nextId >= 1 && forall id :: id in t.rows ==> 1 <= id < t.nextId
  }

  /** The TODO a row of the table reads back as: the id is set from the key. */
  function TodoOf(id: int, row: Row): Todo
  {
    Todo(id, row.subject, row.description, row.createdAt, row.updatedAt)
  }

  /** The row a TODO is stored as. */
  function RowOf(todo: Todo): Row
  {
    Row(todo.subject, todo.description, todo.createdAt, todo.updatedAt)
  }

  function Elements(ids: seq<int>): set<int>
  {
    set id | id in ids
  }

  // ---------------------------------------------------------------------
  // Create

  /** The specification of `CreateTODO`: the new table and the result. */
  function CreateSpec(t: Table, subject: string, description: string, eng: Engine)
    : (out: (Table, Result<Todo, ErrorKind>))
    requires WellFormed(t)
    ensures WellFormed(out.0)
    // an empty subject is a constraint violation and nothing is written
    ensures subject == "" ==> out == (t, Failure(Constraint))
    // a create never reports NotFound
    ensures out.1.Failure? ==> out.1.error in {Constraint, Storage}
    ensures out.1.Success? <==> subject != "" && !eng.execFails && !eng.confirmFails
    // the table either is untouched or gains exactly one row, under a fresh id
    ensures out.0 == t || (t.nextId !in t.rows && out.0.nextId == t.nextId + 1 &&
                           out.0.rows == t.rows[t.nextId := Row(subject, description, eng.now, eng.now)] &&
                           |out.0.rows| == |t.rows| + 1)
    ensures out.0 != t <==> subject != "" && !eng.execFails
    // the returned TODO is the row now stored under its id, and that id is new
    ensures out.1.Success? ==>
              var todo := out.1.value;
              todo.id !in t.rows && todo.id in out.0.rows && out.0.rows[todo.id] == RowOf(todo) &&
              todo.subject == subject && todo.description == description
  {
    if subject == "" then (t, Failure(Constraint))
    else if eng.execFails then (t, Failure(Storage))
    else
      var id := t.nextId;
      var t' := Table(t.rows[id := Row(subject, description, eng.now, eng.now)], id + 1);
      assert t'.rows.Keys == t.rows.Keys + {id};
      if eng.confirmFails then (t', Failure(Storage)) else (t', Success(TodoOf(id, t'.rows[id])))
  }

  // ---------------------------------------------------------------------
  // Read: cursor pagination

  /** The filter of the read query: every id when `prevID` is 0, else the ids strictly below it. */
  predicate Matches(prevID: int, id: int)
  {
    prevID == 0 || id < prevID
  }

  /** The exclusive upper bound the read walks down from. */
  function Cursor(prevID: int, nextId: int): int
  {
    if prevID != 0 then prevID else nextId
  }

  /**
   * The rows `ORDER BY id DESC LIMIT limit` yields among the ids in [1, below):
   * walking the ids downwards, taking each stored one until `limit` are taken.
   * A negative limit never runs out, as SQLite treats a negative LIMIT as no limit.
   */
  function Scan(rows: map<int, Row>, below: int, limit: int): seq<Todo>
    decreases below
  {
    if below <= 1 || limit == 0 then []
    else if below - 1 in rows then [TodoOf(below - 1, rows[below - 1])] + Scan(rows, below - 1, limit - 1)
    else Scan(rows, below - 1, limit)
  }

  /** Every entry of the page is a stored row, read back with its own id. */
  ghost predicate Stored(rows: map<int, Row>, page: seq<Todo>)
  {
    forall i :: 0 <= i < |page| ==> page[i].id in rows && page[i] == TodoOf(page[i].id, rows[page[i].id])
  }

  /** Ids strictly decrease along the page. */
  ghost predicate Descending(page: seq<Todo>)
  {
    forall i, j :: 0 <= i < j < |page| ==> page[i].id > page[j].id
  }

  ghost predicate Returned(page: seq<Todo>, id: int)
  {
    exists i :: 0 <= i < |page| && page[i].id == id
  }

  /**
   * What a page of the read is, independently of how it is computed: stored
   * rows that pass the filter, newest first, at most `size` of them (any
   * number when `size` is negative), and the largest such ids: a matching row
   * left out means the page is full and the row is older than all of it.
   */
  ghost predicate IsPage(rows: map<int, Row>, prevID: int, size: int, page: seq<Todo>)
  {
    && Stored(rows, page)
    && Descending(page)
    && (forall i :: 0 <= i < |page| ==> Matches(prevID, page[i].id))
    && (size >= 0 ==> |page| <= size)
    && (forall id :: id in rows && Matches(prevID, id) && !Returned(page, id) ==>
          |page| == size && forall i :: 0 <= i < |page| ==> id < page[i].id)
  }

  lemma {:induction false} ScanSound(rows: map<int, Row>, below: int, limit: int)
    ensures Stored(rows, Scan(rows, below, limit))
    ensures Descending(Scan(rows, below, limit))
    ensures forall i :: 0 <= i < |Scan(rows, below, limit)| ==> 1 <= Scan(rows, below, limit)[i].id < below
    ensures limit >= 0 ==> |Scan(rows, below, limit)| <= limit
    decreases below
  {
    if below <= 1 || limit == 0 {
    } else if below - 1 in rows {
      ScanSound(rows, below - 1, limit - 1);
      var rest := Scan(rows, below - 1, limit - 1);
      var page := Scan(rows, below, limit);
      assert page == [TodoOf(below - 1, rows[below - 1])] + rest;
      assert forall i :: 1 <= i < |page| ==> page[i] == rest[i - 1];
    } else {
      ScanSound(rows, below - 1, limit);
    }
  }

  lemma {:induction false} ScanComplete(rows: map<int, Row>, below: int, limit: int, id: int)
    requires id in rows && 1 <= id < below
    requires !Returned(Scan(rows, below, limit), id)
    ensures |Scan(rows, below, limit)| == limit
    ensures forall i :: 0 <= i < |Scan(rows, below, limit)| ==> id < Scan(rows, below, limit)[i].id
    decreases below
  {
    if limit == 0 {
    } else if below - 1 in rows {
      var rest := Scan(rows, below - 1, limit - 1);
      var page := Scan(rows, below, limit);
      assert page == [TodoOf(below - 1, rows[below - 1])] + rest;
      assert page[0].id == below - 1;
      assert forall k :: 0 <= k < |rest| ==> rest[k] == page[k + 1];
      ScanComplete(rows, below - 1, limit - 1, id);
    } else {
      ScanComplete(rows, below - 1, limit, id);
    }
  }

  /** The read walk from the cursor yields exactly a page in the sense of `IsPage`. */
  lemma CursorPage(t: Table, prevID: int, size: int)
    requires WellFormed(t)
    ensures IsPage(t.rows, prevID, size, Scan(t.rows, Cursor(prevID, t.nextId), size))
  {
    var below := Cursor(prevID, t.nextId);
    var page := Scan(t.rows, below, size);
    ScanSound(t.rows, below, size);
    forall id | id in t.rows && Matches(prevID, id) && !Returned(page, id)
      ensures |page| == size && forall i :: 0 <= i < |page| ==> id < page[i].id
    {
      ScanComplete(t.rows, below, size, id);
    }
  }

  /** Dropping the head of a page leaves the page that continues from the head's id. */
  lemma PageTail(rows: map<int, Row>, prevID: int, size: int, page: seq<Todo>)
    requires 0 !in rows
    requires IsPage(rows, prevID, size, page) && |page| > 0
    ensures IsPage(rows, page[0].id, size - 1, page[1..])
  {
  }

  /** A page leaves out a matching row only when it is full, so a non-empty limit yields a non-empty page. */
  lemma PageNonEmpty(rows: map<int, Row>, prevID: int, size: int, page: seq<Todo>, id: int)
    requires IsPage(rows, prevID, size, page)
    requires id in rows && Matches(prevID, id) && size != 0
    ensures |page| > 0
  {
  }

  /** The head of a non-empty page is the newest matching row. */
  lemma PageHeadIsMax(rows: map<int, Row>, prevID: int, size: int, page: seq<Todo>, id: int)
    requires IsPage(rows, prevID, size, page) && |page| > 0
    requires id in rows && Matches(prevID, id)
    ensures id <= page[0].id
  {
  }

  /** A page is determined by the table, the cursor and the size: `IsPage` is a complete specification. */
  lemma {:induction false} PageUnique(rows: map<int, Row>, prevID: int, size: int, p1: seq<Todo>, p2: seq<Todo>)
    requires 0 !in rows
    requires IsPage(rows, prevID, size, p1) && IsPage(rows, prevID, size, p2)
    ensures p1 == p2
    decreases |p1|
  {
    if |p1| > 0 {
      PageNonEmpty(rows, prevID, size, p2, p1[0].id);
    }
    if |p2| > 0 {
      PageNonEmpty(rows, prevID, size, p1, p2[0].id);
    }
    if |p1| > 0 {
      var a, b := p1[0].id, p2[0].id;
      PageHeadIsMax(rows, prevID, size, p1, b);
      PageHeadIsMax(rows, prevID, size, p2, a);
      assert p1[0] == p2[0];
      PageTail(rows, prevID, size, p1);
      PageTail(rows, prevID, size, p2);
      PageUnique(rows, a, size - 1, p1[1..], p2[1..]);
      assert p1 == [p1[0]] + p1[1..];
      assert p2 == [p2[0]] + p2[1..];
    }
  }

  /**
   * Reading `n` rows and then `m` more from the last id returned is the same
   * as reading `n + m` rows at once: cursor paging neither skips nor repeats rows.
   */
  lemma {:induction false} ScanResume(rows: map<int, Row>, below: int, n: int, m: int)
    requires n > 0 && m >= 0
    requires |Scan(rows, below, n)| == n
    ensures Scan(rows, below, n + m) == Scan(rows, below, n) + Scan(rows, Scan(rows, below, n)[n - 1].id, m)
    decreases below
  {
    if below - 1 in rows {
      if n > 1 {
        ScanResume(rows, below - 1, n - 1, m);
      }
    } else {
      ScanResume(rows, below - 1, n, m);
    }
  }

  /** The beginning of a page: what a cursor that may stop early has yielded. */
  ghost predicate PartialPage(rows: map<int, Row>, prevID: int, size: int, part: seq<Todo>)
  {
    exists page :: IsPage(rows, prevID, size, page) && part <= page
  }

  /** The read walk from the cursor is the only page there is. */
  lemma PageIsScan(t: Table, prevID: int, size: int, p: seq<Todo>)
    requires WellFormed(t)
    ensures IsPage(t.rows, prevID, size, p) ==> p == Scan(t.rows, Cursor(prevID, t.nextId), size)
  {
    if IsPage(t.rows, prevID, size, p) {
      CursorPage(t, prevID, size);
      PageUnique(t.rows, prevID, size, p, Scan(t.rows, Cursor(prevID, t.nextId), size));
    }
  }

  /**
   * The specification of `ReadTODO` as written: the rows the cursor yields,
   * newest first. A cursor that stops early on an error ends the loop like
   * the end of the result does, and since `rows.Err()` is never consulted the
   * rows read so far are returned as a success.
   */
  function ReadSpec(t: Table, prevID: int, size: int, eng: Engine): (r: Result<seq<Todo>, ErrorKind>)
    requires WellFormed(t)
    ensures r.Failure? <==> eng.execFails
    ensures r.Failure? ==> r.error == Storage
    // what is returned is the beginning of the page, in its order
    ensures r.Success? ==> PartialPage(t.rows, prevID, size, r.value)
    ensures r.Success? && eng.cursorStop.Some? ==> |r.value| <= eng.cursorStop.value
    // and it is the whole page unless the cursor stopped before the page's end
    ensures r.Success? && (eng.cursorStop.None? || |r.value| < eng.cursorStop.value) ==>
              IsPage(t.rows, prevID, size, r.value)
  {
    if eng.execFails then Failure(Storage)
    else
      var page := Scan(t.rows, Cursor(prevID, t.nextId), size);
      CursorPage(t, prevID, size);
      var part := if eng.cursorStop.Some? && eng.cursorStop.value < |page| then page[..eng.cursorStop.value] else page;
      assert IsPage(t.rows, prevID, size, page) && part <= page;
      Success(part)
  }

  /** A cursor that fails after one of two matching rows yields a successful read that is not the page. */
  lemma TruncatedReadSucceeds()
    ensures var t := Table(map[1 := Row("first", "", 0, 0), 2 := Row("second", "", 0, 0)], 3);
            var r := ReadSpec(t, 0, 5, Engine(0, false, false, Some(1)));
            r.Success? && |r.value| == 1 && !IsPage(t.rows, 0, 5, r.value)
  {
    var t := Table(map[1 := Row("first", "", 0, 0), 2 := Row("second", "", 0, 0)], 3);
    assert Scan(t.rows, 1, 3) == [];
    assert Scan(t.rows, 2, 4) == [TodoOf(1, t.rows[1])] + Scan(t.rows, 1, 3);
    assert Scan(t.rows, 3, 5) == [TodoOf(2, t.rows[2])] + Scan(t.rows, 2, 4);
    var part := ReadSpec(t, 0, 5, Engine(0, false, false, Some(1))).value;
    assert part == [TodoOf(2, t.rows[2])];
    assert !Returned(part, 1);
  }

  /**
   * `ReadTODO` as evidently intended: `rows.Err()` is checked after the
   * loop, so a cursor that stops early fails the read instead of passing part
   * of the page off as all of it.
   */
  function CheckedReadSpec(t: Table, prevID: int, size: int, eng: Engine): (r: Result<seq<Todo>, ErrorKind>)
    requires WellFormed(t)
    ensures r.Failure? ==> r.error == Storage
    ensures r.Success? ==> IsPage(t.rows, prevID, size, r.value)
    // it succeeds exactly when the read as written yields the whole page, and then agrees with it
    ensures r.Success? <==>
              ReadSpec(t, prevID, size, eng).Success? && IsPage(t.rows, prevID, size, ReadSpec(t, prevID, size, eng).value)
    ensures r.Success? ==> r == ReadSpec(t, prevID, size, eng)
  {
    if eng.execFails then Failure(Storage)
    else
      var page := Scan(t.rows, Cursor(prevID, t.nextId), size);
      CursorPage(t, prevID, size);
      if eng.cursorStop.Some? && eng.cursorStop.value < |page| then
        PageIsScan(t, prevID, size, page[..eng.cursorStop.value]);
        Failure(Storage)
      else
        Success(page)
  }

  /** The walk finds nothing when no row is stored below where it starts. */
  lemma {:induction false} ScanNone(rows: map<int, Row>, below: int, limit: int)
    requires forall id :: id in rows ==> id >= below
    ensures Scan(rows, below, limit) == []
    decreases below
  {
    if below > 1 && limit != 0 {
      ScanNone(rows, below - 1, limit);
    }
  }

  /** With no stored row passing the filter, a successful read is the empty list (never a missing one). */
  lemma NothingToRead(t: Table, prevID: int, size: int, eng: Engine)
    requires WellFormed(t) && !eng.execFails
    requires forall id :: id in t.rows ==> !Matches(prevID, id)
    ensures ReadSpec(t, prevID, size, eng) == Success([])
  {
    ScanNone(t.rows, Cursor(prevID, t.nextId), size);
  }

  /**
   * Paging with the last id of a full page as the next `prev_id` continues
   * exactly where that page stopped: the two pages together are the page of
   * their combined size.
   */
  lemma ReadNextPage(t: Table, prevID: int, n: int, m: int, p1: seq<Todo>, p2: seq<Todo>)
    requires WellFormed(t) && n > 0 && m >= 0
    requires IsPage(t.rows, prevID, n, p1) && |p1| == n
    requires IsPage(t.rows, p1[n - 1].id, m, p2)
    ensures p1[n - 1].id != 0
    ensures IsPage(t.rows, prevID, n + m, p1 + p2)
  {
    var below := Cursor(prevID, t.nextId);
    PageIsScan(t, prevID, n, p1);
    ScanSound(t.rows, below, n);
    PageIsScan(t, p1[n - 1].id, m, p2);
    ScanResume(t.rows, below, n, m);
    CursorPage(t, prevID, n + m);
  }

  /**
   * Paging ends: after a page that came back short of `size`, reading on
   * from its last id yields the empty list.
   */
  lemma PagingEnds(t: Table, prevID: int, size: int, p: seq<Todo>, m: int, eng: Engine)
    requires WellFormed(t) && !eng.execFails
    requires IsPage(t.rows, prevID, size, p) && 0 < |p| < size
    ensures p[|p| - 1].id != 0
    ensures ReadSpec(t, p[|p| - 1].id, m, eng) == Success([])
  {
    var last := p[|p| - 1].id;
    assert forall i :: 0 <= i < |p| ==> p[i].id >= last;
    assert forall id :: id in t.rows && Matches(prevID, id) ==> Returned(p, id);
    assert forall id :: id < last ==> Matches(prevID, id);
    NothingToRead(t, last, m, eng);
  }

  // ---------------------------------------------------------------------
  // Update

  /** The specification of `UpdateTODO`. */
  function UpdateSpec(t: Table, id: int, subject: string, description: string, eng: Engine)
    : (out: (Table, Result<Todo, ErrorKind>))
    requires WellFormed(t)
    ensures WellFormed(out.0) && out.0.nextId == t.nextId
    // id 0 is NotFound and an empty subject a constraint violation, and nothing is written
    ensures id == 0 ==> out == (t, Failure(NotFound))
    ensures id != 0 && subject == "" ==> out == (t, Failure(Constraint))
    // an id that is not stored is NotFound (unless the statement itself fails), and nothing is written
    ensures id !in t.rows ==> out.0 == t && out.1.Failure?
    ensures id !in t.rows && subject != "" && !eng.execFails ==> out.1 == Failure(NotFound)
    // only that row's subject, description and update time change
    ensures out.0 == t || (id in t.rows &&
              out.0.rows == t.rows[id := Row(subject, description, t.rows[id].createdAt, eng.now)])
    // a failing update statement writes nothing and is a storage error
    ensures id != 0 && subject != "" && eng.execFails ==> out == (t, Failure(Storage))
    // so is a failing confirming select, after the row was written
    ensures out.1.Failure? && id in t.rows && subject != "" && !eng.execFails ==> out.1.error == Storage
    // the row is written whenever the update statement succeeds, even if the confirming select then fails
    ensures id in t.rows && subject != "" && !eng.execFails ==>
              out.0.rows == t.rows[id := Row(subject, description, t.rows[id].createdAt, eng.now)]
    ensures out.1.Success? <==> id in t.rows && subject != "" && !eng.execFails && !eng.confirmFails
    // the returned TODO carries the requested id and is the row now stored under it
    ensures out.1.Success? ==>
              out.1.value.id == id && id in out.0.rows && out.0.rows[id] == RowOf(out.1.value) &&
              out.1.value.subject == subject && out.1.value.description == description
  {
    if id == 0 then (t, Failure(NotFound))
    else if subject == "" then (t, Failure(Constraint))
    else if eng.execFails then (t, Failure(Storage))
    else if id !in t.rows then (t, Failure(NotFound))
    else
      var t' := Table(t.rows[id := Row(subject, description, t.rows[id].createdAt, eng.now)], t.nextId);
      if eng.confirmFails then (t', Failure(Storage)) else (t', Success(TodoOf(id, t'.rows[id])))
  }

  // ---------------------------------------------------------------------
  // Delete

  /** `strings.Repeat(s, n)`. */
  function Repeat(s: string, n: nat): string
  {
    if n == 0 then "" else s + Repeat(s, n - 1)
  }

  const DeleteHead := "DELETE FROM todos WHERE id IN ("

  /** `fmt.Sprintf("DELETE FROM todos WHERE id IN (?%s)", placeholders)`. */
  function DeleteQuery(placeholders: string): string
  {
    DeleteHead + "?" + placeholders + ")"
  }

  /** The number of `?` parameters a statement expects to be bound. */
  function ParamCount(query: string): nat
  {
    if query == [] then 0 else (if query[0] == '?' then 1 else 0) + ParamCount(query[1..])
  }

  lemma {:induction false} ParamCountAppend(a: string, b: string)
    ensures ParamCount(a + b) == ParamCount(a) + ParamCount(b)
  {
    if a != [] {
      assert (a + b)[1..] == a[1..] + b;
      ParamCountAppend(a[1..], b);
    } else {
      assert a + b == b;
    }
  }

  lemma {:induction false} ParamCountNone(s: string)
    requires '?' !in s
    ensures ParamCount(s) == 0
  {
    if s != [] {
      assert s == [s[0]] + s[1..];
      ParamCountNone(s[1..]);
    }
  }

  lemma {:induction false} RepeatParams(n: nat)
    ensures ParamCount(Repeat(",?", n)) == n
  {
    if n > 0 {
      ParamCountAppend(",?", Repeat(",?", n - 1));
      assert ParamCount(",?") == 1 by {
        assert ",?"[1..] == "?";
      }
      RepeatParams(n - 1);
    }
  }

  lemma HeadNoMark()
    ensures '?' !in DeleteHead
  {
  }

  lemma HeadParams()
    ensures ParamCount(DeleteHead) == 0
  {
    HeadNoMark();
    ParamCountNone(DeleteHead);
  }

  /** Wrapping placeholders as `head ? placeholders )` adds one parameter when `head` has none. */
  lemma QueryParams(head: string, placeholders: string)
    requires ParamCount(head) == 0
    ensures ParamCount(head + "?" + placeholders + ")") == ParamCount(placeholders) + 1
  {
    ParamCountAppend(head + "?" + placeholders, ")");
    ParamCountAppend(head + "?", placeholders);
    ParamCountAppend(head, "?");
    assert ParamCount(")") == 0;
    assert ParamCount("?") == 1;
  }

  /** The statement built from some placeholders carries one parameter more than they do. */
  lemma QueryCount(placeholders: string)
    ensures ParamCount(DeleteQuery(placeholders)) == ParamCount(placeholders) + 1
  {
    HeadParams();
    QueryParams(DeleteHead, placeholders);
  }

  /** The delete statement built for `n` ids carries exactly `n` placeholders. */
  lemma PlaceholderCount(n: nat)
    requires n >= 1
    ensures ParamCount(DeleteQuery(Repeat(",?", n - 1))) == n
  {
    QueryCount(Repeat(",?", n - 1));
    RepeatParams(n - 1);
  }

  lemma NoneStored(keys: set<int>, ids: seq<int>)
    ensures (forall i :: 0 <= i < |ids| ==> ids[i] !in keys) <==> keys * Elements(ids) == {}
  {
    if forall i :: 0 <= i < |ids| ==> ids[i] !in keys {
      forall x | x in Elements(ids) ensures x !in keys {
        var i :| 0 <= i < |ids| && ids[i] == x;
      }
    } else {
      var i :| 0 <= i < |ids| && ids[i] in keys;
      assert ids[i] in keys * Elements(ids);
    }
  }

  /** The specification of `DeleteTODO`. */
  function DeleteSpec(t: Table, ids: seq<int>, eng: Engine): (out: (Table, Option<ErrorKind>))
    requires WellFormed(t)
    ensures WellFormed(out.0) && out.0.nextId == t.nextId
    // no ids: success, and nothing is touched
    ensures ids == [] ==> out == (t, None)
    ensures eng.execFails ==> out.0 == t
    ensures out.1 == Some(Storage) <==> ids != [] && eng.execFails
    // otherwise exactly the listed rows go, and every other row stays as it was
    ensures ids != [] && !eng.execFails ==>
              (forall id :: id in out.0.rows <==> id in t.rows && id !in ids) &&
              (forall id :: id in out.0.rows ==> out.0.rows[id] == t.rows[id])
    // NotFound exactly when none of the ids was stored
    ensures ids != [] && !eng.execFails ==>
              (out.1 == Some(NotFound) <==> forall i :: 0 <= i < |ids| ==> ids[i] !in t.rows)
    ensures out.1.Some? ==> out.1.value in {NotFound, Storage}
  {
    if |ids| == 0 then (t, None)
    else if eng.execFails then (t, Some(Storage))
    else
      var hit := t.rows.Keys * Elements(ids);
      NoneStored(t.rows.Keys, ids);
      (Table(t.rows - Elements(ids), t.nextId), if |hit| == 0 then Some(NotFound) else None)
  }

  /** A deleted row is never read again. */
  lemma DeletedNeverRead(t: Table, ids: seq<int>, eng: Engine, prevID: int, size: int, reng: Engine)
    requires WellFormed(t) && ids != [] && !eng.execFails && !reng.execFails
    ensures var t' := DeleteSpec(t, ids, eng).0;
            forall i, j :: 0 <= i < |ids| && 0 <= j < |ReadSpec(t', prevID, size, reng).value| ==>
              ReadSpec(t', prevID, size, reng).value[j].id != ids[i]
  {
  }

  // ---------------------------------------------------------------------
  // The service over the table

  /** `TODOService`: the table it reads and writes, and its CRUD operations. */
  class TODOService {
    var rows: map<int, Row>
    var nextId: int

    function State(): Table
      reads this
    {
      Table(rows, nextId)
    }

    ghost predicate Valid()
      reads this
    {
      WellFormed(State())
    }

    /** `NewTODOService`: the service over a table as the database holds it. */
    constructor (t: Table)
      requires WellFormed(t)
      ensures Valid() && State() == t
    {
      rows := t.rows;
      nextId := t.nextId;
    }

    // The statements sent to the storage engine.

    /** `INSERT INTO todos(subject, description) VALUES(?, ?)`, then `LastInsertId`. */
    method ExecInsert(subject: string, description: string, eng: Engine) returns (id: int, err: Option<ErrorKind>)
      requires Valid()
      modifies this
      ensures Valid()
      ensures eng.execFails ==> err == Some(Storage) && State() == old(State())
      ensures !eng.execFails ==>
                err == None && id == old(nextId) && id !in old(rows) && nextId == id + 1 &&
                rows == old(rows)[id := Row(subject, description, eng.now, eng.now)]
    {
      if eng.execFails {
        return 0, Some(Storage);
      }
      id := nextId;
      rows := rows[id := Row(subject, description, eng.now, eng.now)];
      nextId := nextId + 1;
      err := None;
    }

    /** `SELECT subject, description, created_at, updated_at FROM todos WHERE id = ?`, scanned into a row. */
    method QueryRow(id: int, eng: Engine) returns (r: Result<Row, ErrorKind>)
      ensures eng.confirmFails || id !in rows ==> r == Failure(Storage)
      ensures !eng.confirmFails && id in rows ==> r == Success(rows[id])
    {
      if eng.confirmFails || id !in rows {
        // a driver failure, or sql.ErrNoRows
        return Failure(Storage);
      }
      r := Success(rows[id]);
    }

    /** `UPDATE todos SET subject = ?, description = ? WHERE id = ?`, then `RowsAffected`. */
    method ExecUpdate(id: int, subject: string, description: string, eng: Engine)
      returns (affected: nat, err: Option<ErrorKind>)
      requires Valid()
      modifies this
      ensures Valid() && nextId == old(nextId)
      ensures eng.execFails ==> err == Some(Storage) && rows == old(rows)
      ensures !eng.execFails ==> err == None && (affected == 0 <==> id !in old(rows))
      ensures !eng.execFails && id !in old(rows) ==> rows == old(rows)
      ensures !eng.execFails && id in old(rows) ==>
                rows == old(rows)[id := Row(subject, description, old(rows)[id].createdAt, eng.now)]
    {
      if eng.execFails {
        return 0, Some(Storage);
      }
      err := None;
      if id in rows {
        rows := rows[id := Row(subject, description, rows[id].createdAt, eng.now)];
        affected := 1;
      } else {
        affected := 0;
      }
    }

    /**
     * Executes the `DELETE FROM todos WHERE id IN (...)` statement with its
     * bound arguments, then `RowsAffected`. The driver refuses a statement
     * whose placeholder count differs from the number of arguments.
     */
    method ExecDelete(query: string, args: seq<int>, eng: Engine) returns (affected: nat, err: Option<ErrorKind>)
      requires Valid()
      modifies this
      ensures Valid() && nextId == old(nextId)
      ensures eng.execFails || ParamCount(query) != |args| ==> err == Some(Storage) && rows == old(rows)
      ensures !eng.execFails && ParamCount(query) == |args| ==>
                err == None && rows == old(rows) - Elements(args) &&
                affected == |old(rows).Keys * Elements(args)|
    {
      if eng.execFails || ParamCount(query) != |args| {
        return 0, Some(Storage);
      }
      affected := |rows.Keys * Elements(args)|;
      rows := rows - Elements(args);
      err := None;
    }

    // The service operations.

    /** `CreateTODO`: inserts a row, then reads it back to return what was stored. */
    method CreateTODO(subject: string, description: string, eng: Engine) returns (r: Result<Todo, ErrorKind>)
      requires Valid()
      modifies this
      ensures Valid()
      ensures (State(), r) == CreateSpec(old(State()), subject, description, eng)
    {
      if subject == "" {
        return Failure(Constraint);
      }
      var id, err := ExecInsert(subject, description, eng);
      if err.Some? {
        return Failure(err.value);
      }
      var row := QueryRow(id, eng);
      if row.Failure? {
        return Failure(row.error);
      }
      r := Success(TodoOf(id, row.value));
    }

    /**
     * `ReadTODO`: runs the read query (with `id < prevID` when `prevID` is
     * not 0) and appends each row the cursor yields, newest first.
     */
    method ReadTODO(prevID: int, size: int, eng: Engine) returns (r: Result<seq<Todo>, ErrorKind>)
      requires Valid()
      ensures r == ReadSpec(State(), prevID, size, eng)
      ensures r.Success? ==> PartialPage(rows, prevID, size, r.value)
    {
      if eng.execFails {
        return Failure(Storage);
      }
      var below := Cursor(prevID, nextId);
      var todos: seq<Todo> := [];
      var id := below - 1;
      var remaining := size;
      // rows.Next(): the cursor steps to the next stored id below the current one,
      // or stops on an error, which ends the loop just as the end of the result does
      while id >= 1 && remaining != 0
        invariant id < below
        invariant todos + Scan(rows, id + 1, remaining) == Scan(rows, below, size)
        invariant eng.cursorStop.Some? ==> |todos| <= eng.cursorStop.value
        decreases id
      {
        if id in rows {
          if eng.cursorStop == Some(|todos|) {
            break;
          }
          todos := todos + [TodoOf(id, rows[id])];
          remaining := remaining - 1;
        }
        id := id - 1;
      }
      ghost var page := Scan(rows, below, size);
      if id >= 1 && remaining != 0 {
        // the loop was left because the cursor stopped: rows remained
        assert Scan(rows, id + 1, remaining) == [TodoOf(id, rows[id])] + Scan(rows, id, remaining - 1);
        assert |todos| < |page| && page[..|todos|] == todos;
      } else {
        assert Scan(rows, id + 1, remaining) == [];
        assert page == todos;
      }
      r := Success(todos);
    }

    /** `UpdateTODO`: updates the row, then reads it back to return what was stored. */
    method UpdateTODO(id: int, subject: string, description: string, eng: Engine)
      returns (r: Result<Todo, ErrorKind>)
      requires Valid()
      modifies this
      ensures Valid()
      ensures (State(), r) == UpdateSpec(old(State()), id, subject, description, eng)
    {
      if id == 0 {
        return Failure(NotFound);
      }
      if subject == "" {
        return Failure(Constraint);
      }
      var affected, err := ExecUpdate(id, subject, description, eng);
      if err.Some? {
        return Failure(err.value);
      }
      if affected == 0 {
        return Failure(NotFound);
      }
      var row := QueryRow(id, eng);
      if row.Failure? {
        return Failure(row.error);
      }
      r := Success(TodoOf(id, row.value));
    }

    /** `DeleteTODO`: deletes every listed id in one statement with one placeholder per id. */
    method DeleteTODO(ids: seq<int>, eng: Engine) returns (err: Option<ErrorKind>)
      requires Valid()
      modifies this
      ensures Valid()
      ensures (State(), err) == DeleteSpec(old(State()), ids, eng)
    {
      if |ids| == 0 {
        return None;
      }
      var placeholders := Repeat(",?", |ids| - 1);
      var query := DeleteQuery(placeholders);
      var args := new int[|ids|];
      for i := 0 to |ids|
        modifies args
        invariant forall j :: 0 <= j < i ==> args[j] == ids[j]
      {
        args[i] := ids[i];
      }
      assert args[..] == ids;
      PlaceholderCount(|ids|);
      var affected;
      affected, err := ExecDelete(query, args[..], eng);
      if err.Some? {
        return;
      }
      if affected == 0 {
        err := Some(NotFound);
      }
    }
  }
}
