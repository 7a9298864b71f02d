/**
 * The todo store of server/src/db.ts: CRUD over the single `todos` table.
 * The SQLite table is a map from row id to row; `nextId` is the next
 * auto-increment id and `clock` an abstract, monotone reading of
 * CURRENT_TIMESTAMP.
 */
module Store {
  import opened Wrappers

  /** A row of the `todos` table; timestamps are readings of the abstract clock. */
  datatype Todo = Todo(
    id: int,
    title: string,
    description: Option<string>,
    completed: bool,
    createdAt: nat,
    updatedAt: nat)

  /** What createTodo is given: a title and an optional description. */
  datatype CreateInput = CreateInput(title: string, description: Option<string>)

  /** What updateTodo is given: every field may be absent (`undefined`). */
  datatype UpdateInput = UpdateInput(title: Option<string>, description: Option<string>, completed: Option<bool>)

  predicate NoFields(input: UpdateInput) {
    input.title.None? && input.description.None? && input.completed.None?
  }

  /** The mutating store entry points, as a ghost record of who called what. */
  datatype StoreCall =
    | Created(request: CreateInput)
    | Updated(id: int, patch: UpdateInput)
    | Toggled(id: int)
    | Deleted(id: int)

  // ---------------------------------------------------------------------------
  // The sparse update

  /** One `column = ?` entry of the UPDATE statement's SET list. */
  datatype Assignment =
    | SetTitle(title: string)
    | SetDescription(description: string)
    | SetCompleted(completed: bool)

  function Assign(row: Todo, a: Assignment): Todo {
    match a
    case SetTitle(t) => row.(title := t)
    case SetDescription(d) => row.(description := Some(d))
    case SetCompleted(c) => row.(completed := c)
  }

  /** Executing a SET list on a row, left to right. */
  function AssignAll(row: Todo, xs: seq<Assignment>): Todo {
    if xs == [] then row else Assign(AssignAll(row, xs[..|xs| - 1]), xs[|xs| - 1])
  }

  lemma AssignAllSnoc(row: Todo, xs: seq<Assignment>, a: Assignment)
    ensures AssignAll(row, xs + [a]) == Assign(AssignAll(row, xs), a)
  {
    assert (xs + [a])[..|xs|] == xs;
  }

  /**
   * The SET list updateTodo assembles from the present fields, in the order
   * title, description, completed: it is empty exactly when no field is
   * present, and executing it on any row writes the present fields and
   * nothing else.
   */
  method SetList(input: UpdateInput) returns (updates: seq<Assignment>)
    ensures |updates| == 0 <==> NoFields(input)
    ensures forall row {:trigger AssignAll(row, updates)} :: AssignAll(row, updates) == Patched(row, input, row.updatedAt)
  {
    updates := [];
    if input.title.Some? {
      updates := updates + [SetTitle(input.title.value)];
    }
    if input.description.Some? {
      updates := updates + [SetDescription(input.description.value)];
    }
    if input.completed.Some? {
      updates := updates + [SetCompleted(input.completed.value)];
    }
    forall row ensures AssignAll(row, updates) == Patched(row, input, row.updatedAt) {
      ghost var xs: seq<Assignment> := [];
      ghost var partial := row;
      if input.title.Some? {
        AssignAllSnoc(row, xs, SetTitle(input.title.value));
        xs := xs + [SetTitle(input.title.value)];
        partial := partial.(title := input.title.value);
      }
      if input.description.Some? {
        AssignAllSnoc(row, xs, SetDescription(input.description.value));
        xs := xs + [SetDescription(input.description.value)];
        partial := partial.(description := Some(input.description.value));
      }
      if input.completed.Some? {
        AssignAllSnoc(row, xs, SetCompleted(input.completed.value));
        xs := xs + [SetCompleted(input.completed.value)];
        partial := partial.(completed := input.completed.value);
      }
      assert xs == updates;
      assert AssignAll(row, xs) == partial;
    }
  }

  /**
   * The row a sparse update is meant to leave: every present field takes the
   * given value, every absent one keeps its value, `id` and `createdAt` never
   * change, and `updatedAt` becomes `now`.
   */
  function Patched(t: Todo, input: UpdateInput, now: nat): Todo {
    Todo(
      t.id,
      if input.title.Some? then input.title.value else t.title,
      if input.description.Some? then Some(input.description.value) else t.description,
      if input.completed.Some? then input.completed.value else t.completed,
      t.createdAt,
      now)
  }

  /** The update toggleTodo sends: only `completed`, set to the negation of the stored value. */
  function ToggleInput(t: Todo): UpdateInput {
    UpdateInput(None, None, Some(!t.completed))
  }

  /** A toggle negates `completed` and changes nothing else but `updatedAt`. */
  lemma ToggleOnlyFlips(t: Todo, now: nat)
    ensures Patched(t, ToggleInput(t), now) == t.(completed := !t.completed, updatedAt := now)
  {
  }

  /** Toggling twice restores `completed`; only `updatedAt` may differ from the original. */
  lemma ToggleTwiceRestores(t: Todo, now1: nat, now2: nat)
    ensures var once := Patched(t, ToggleInput(t), now1);
      Patched(once, ToggleInput(once), now2) == t.(updatedAt := now2)
  {
  }

  // ---------------------------------------------------------------------------
  // The listing: a scan in id order, then a sort on createdAt, newest first

  predicate NewestFirst(s: seq<Todo>) {
    forall i, j :: 0 <= i < j < |s| ==> s[i].createdAt >= s[j].createdAt
  }

  predicate DistinctIds(s: seq<Todo>) {
    forall i, j :: 0 <= i < j < |s| ==> s[i].id != s[j].id
  }

  /** The ids present in `m` within [lo, hi), in increasing order (the table scan). */
  function IdsBetween(m: map<int, Todo>, lo: int, hi: int): (ids: seq<int>)
    decreases hi - lo
    ensures forall i :: 0 <= i < |ids| ==> ids[i] in m && lo <= ids[i] < hi
    ensures forall i, j :: 0 <= i < j < |ids| ==> ids[i] < ids[j]
    ensures forall k :: lo <= k < hi && k in m ==> k in ids
  {
    if lo >= hi then []
    else if lo in m then [lo] + IdsBetween(m, lo + 1, hi)
    else IdsBetween(m, lo + 1, hi)
  }

  function RowsOf(m: map<int, Todo>, ids: seq<int>): seq<Todo>
    requires forall i :: 0 <= i < |ids| ==> ids[i] in m
  {
    seq(|ids|, i requires 0 <= i < |ids| => m[ids[i]])
  }

  /** Inserts `t` in front of the first row that is not newer than it. */
  function InsertByCreated(t: Todo, s: seq<Todo>): (r: seq<Todo>)
    ensures multiset(r) == multiset(s) + multiset{t}
  {
    if s == [] || t.createdAt >= s[0].createdAt then [t] + s
    else
      assert s == [s[0]] + s[1..];
      [s[0]] + InsertByCreated(t, s[1..])
  }

  /** Inserting into a newest-first list keeps it newest first. */
  lemma {:induction false} InsertKeepsOrder(t: Todo, s: seq<Todo>)
    requires NewestFirst(s)
    ensures NewestFirst(InsertByCreated(t, s))
  {
    if s != [] && t.createdAt < s[0].createdAt {
      var rest := InsertByCreated(t, s[1..]);
      InsertKeepsOrder(t, s[1..]);
      forall x | x in rest ensures x.createdAt <= s[0].createdAt {
        assert x in multiset(rest);
        if x != t {
          assert x in s[1..];
        }
      }
    }
  }

  /** Inserting a row whose id is new keeps the ids distinct. */
  lemma {:induction false} InsertKeepsDistinct(t: Todo, s: seq<Todo>)
    requires DistinctIds(s)
    requires forall x | x in s :: x.id != t.id
    ensures DistinctIds(InsertByCreated(t, s))
  {
    if s != [] && t.createdAt < s[0].createdAt {
      var rest := InsertByCreated(t, s[1..]);
      InsertKeepsDistinct(t, s[1..]);
      forall x | x in rest ensures x.id != s[0].id {
        assert x in multiset(rest);
        if x != t {
          assert x in s[1..];
        }
      }
    }
  }

  /** `ORDER BY created_at DESC`: a permutation of `s`. */
  function SortNewestFirst(s: seq<Todo>): (r: seq<Todo>)
    ensures multiset(r) == multiset(s)
  {
    if s == [] then []
    else
      assert s == [s[0]] + s[1..];
      InsertByCreated(s[0], SortNewestFirst(s[1..]))
  }

  /** The sort's result is newest first, and it keeps distinct ids distinct. */
  lemma {:induction false} SortNewestFirstCorrect(s: seq<Todo>)
    ensures NewestFirst(SortNewestFirst(s))
    ensures DistinctIds(s) ==> DistinctIds(SortNewestFirst(s))
  {
    if s != [] {
      var rest := SortNewestFirst(s[1..]);
      SortNewestFirstCorrect(s[1..]);
      InsertKeepsOrder(s[0], rest);
      if DistinctIds(s) {
        assert DistinctIds(s[1..]);
        forall x | x in rest ensures x.id != s[0].id {
          assert x in multiset(rest);
          assert x in s[1..];
        }
        InsertKeepsDistinct(s[0], rest);
      }
    }
  }

  /** The store's invariant: rows sit under their own id, below `nextId`, with ordered timestamps. */
  ghost predicate WellFormed(m: map<int, Todo>, nextId: int, clock: nat) {
    1 <= nextId &&
    forall id :: id in m ==>
      1 <= id < nextId && m[id].id == id && m[id].createdAt <= m[id].updatedAt <= clock
  }

  /** A strictly increasing list of ids covering a key set has one entry per key. */
  lemma {:induction false} IncreasingIdsCount(ids: seq<int>, keys: set<int>)
    requires forall i, j :: 0 <= i < j < |ids| ==> ids[i] < ids[j]
    requires forall i :: 0 <= i < |ids| ==> ids[i] in keys
    requires forall k :: k in keys ==> k in ids
    ensures |ids| == |keys|
  {
    if ids == [] {
      assert forall k :: k !in keys;
      assert keys == {};
    } else {
      var rest := keys - {ids[0]};
      assert keys == rest + {ids[0]};
      forall k | k in rest ensures k in ids[1..] {
        var i :| 0 <= i < |ids| && ids[i] == k;
        assert i != 0;
        assert ids[1..][i - 1] == k;
      }
      forall i | 0 <= i < |ids[1..]| ensures ids[1..][i] in rest {
        assert ids[1..][i] == ids[i + 1];
      }
      IncreasingIdsCount(ids[1..], rest);
    }
  }

  /** The id-ordered scan of a well-formed table yields stored rows, each under its own id, no id twice. */
  lemma ScanRows(m: map<int, Todo>, nextId: int, clock: nat)
    requires WellFormed(m, nextId, clock)
    ensures var rows := RowsOf(m, IdsBetween(m, 1, nextId));
      && DistinctIds(rows)
      && (forall i :: 0 <= i < |rows| ==> rows[i].id in m && m[rows[i].id] == rows[i])
  {
    var ids := IdsBetween(m, 1, nextId);
    var rows := RowsOf(m, ids);
    assert forall i :: 0 <= i < |rows| ==> rows[i] == m[ids[i]] && rows[i].id == ids[i];
  }

  /** The id-ordered scan of a well-formed table yields every stored row, one entry per row. */
  lemma ScanComplete(m: map<int, Todo>, nextId: int, clock: nat)
    requires WellFormed(m, nextId, clock)
    ensures var rows := RowsOf(m, IdsBetween(m, 1, nextId));
      (forall id :: id in m ==> m[id] in rows) && |rows| == |m|
  {
    var ids := IdsBetween(m, 1, nextId);
    var rows := RowsOf(m, ids);
    forall id | id in m ensures m[id] in rows {
      var i :| 0 <= i < |ids| && ids[i] == id;
      assert rows[i] == m[id];
    }
    IncreasingIdsCount(ids, m.Keys);
  }

  /** Sorting neither adds nor drops rows. */
  lemma SortKeepsRows(s: seq<Todo>)
    ensures |SortNewestFirst(s)| == |s|
    ensures forall x :: x in SortNewestFirst(s) <==> x in s
  {
    var r := SortNewestFirst(s);
    assert |r| == |multiset(r)| == |multiset(s)| == |s|;
    forall x ensures x in r <==> x in s {
      assert x in r <==> x in multiset(r);
      assert x in s <==> x in multiset(s);
    }
  }

  /** The listing of a well-formed table is newest first and has no id twice. */
  lemma ListingNewestFirst(m: map<int, Todo>, nextId: int, clock: nat)
    requires WellFormed(m, nextId, clock)
    ensures var r := SortNewestFirst(RowsOf(m, IdsBetween(m, 1, nextId)));
      NewestFirst(r) && DistinctIds(r)
  {
    var rows := RowsOf(m, IdsBetween(m, 1, nextId));
    ScanRows(m, nextId, clock);
    SortNewestFirstCorrect(rows);
  }

  /** The listing of a well-formed table holds every stored row, and no more rows than the table. */
  lemma ListingComplete(m: map<int, Todo>, nextId: int, clock: nat)
    requires WellFormed(m, nextId, clock)
    ensures var r := SortNewestFirst(RowsOf(m, IdsBetween(m, 1, nextId)));
      (forall id :: id in m ==> m[id] in r) && |r| == |m|
  {
    var rows := RowsOf(m, IdsBetween(m, 1, nextId));
    ScanComplete(m, nextId, clock);
    SortKeepsRows(rows);
  }

  /** Every row of the listing of a well-formed table is the row stored under its id. */
  lemma ListingFromTable(m: map<int, Todo>, nextId: int, clock: nat)
    requires WellFormed(m, nextId, clock)
    ensures var r := SortNewestFirst(RowsOf(m, IdsBetween(m, 1, nextId)));
      forall i :: 0 <= i < |r| ==> r[i].id in m && m[r[i].id] == r[i]
  {
    var rows := RowsOf(m, IdsBetween(m, 1, nextId));
    ScanRows(m, nextId, clock);
    SortKeepsRows(rows);
    var r := SortNewestFirst(rows);
    forall i | 0 <= i < |r| ensures r[i].id in m && m[r[i].id] == r[i] {
      assert r[i] in rows;
    }
  }

  /** Writing a row back under its own id, with ordered timestamps, keeps the table well formed. */
  lemma WellFormedAfterWrite(m: map<int, Todo>, nextId: int, clock: nat, clock': nat, row: Todo)
    requires WellFormed(m, nextId, clock) && clock <= clock'
    requires 1 <= row.id < nextId && row.createdAt <= row.updatedAt <= clock'
    ensures WellFormed(m[row.id := row], nextId, clock')
  {
  }

  // ---------------------------------------------------------------------------
  // The store

  class TodoStore {
    var todos: map<int, Todo>
    var nextId: int
    var clock: nat
    ghost var log: seq<StoreCall>

    ghost predicate Valid()
      reads this
    {
      WellFormed(todos, nextId, clock)
    }

    /** An empty table whose clock reads `now`. */
    constructor (now: nat)
      ensures Valid()
      ensures todos == map[] && nextId == 1 && clock == now && log == []
    {
      todos := map[];
      nextId := 1;
      clock := now;
      log := [];
    }

    /**
     * getAllTodos: every stored row exactly once, newest first. Rows with the
     * same createdAt come in no promised order.
     */
    function GetAllTodos(): (r: seq<Todo>)
      reads this
      requires Valid()
      ensures NewestFirst(r)
      ensures forall i :: 0 <= i < |r| ==> r[i].id in todos && todos[r[i].id] == r[i]
      ensures forall id :: id in todos ==> todos[id] in r
      ensures DistinctIds(r)
      ensures |r| == |todos|
    {
      ListingNewestFirst(todos, nextId, clock);
      ListingComplete(todos, nextId, clock);
      ListingFromTable(todos, nextId, clock);
      SortNewestFirst(RowsOf(todos, IdsBetween(todos, 1, nextId)))
    }

    /** getTodoById: the row stored under `id`, if any. */
    function GetTodoById(id: int): (r: Option<Todo>)
      reads this
      requires Valid()
      ensures r.Some? <==> id in todos
      ensures r.Some? ==> r.value == todos[id] && r.value.id == id
    {
      if id in todos then Some(todos[id]) else None
    }

    /**
     * createTodo: inserts one row under a fresh id larger than every stored
     * one; an absent or empty description is stored as null (`|| null`).
     */
    method CreateTodo(input: CreateInput, elapsed: nat) returns (t: Todo)
      requires Valid()
      modifies this
      ensures Valid()
      ensures t.id !in old(todos) && forall k :: k in old(todos) ==> k < t.id
      ensures todos == old(todos)[t.id := t]
      ensures t.title == input.title && !t.completed
      ensures t.description.Some? <==> input.description.Some? && input.description.value != ""
      ensures t.description.Some? ==> t.description == input.description
      ensures clock == old(clock) + elapsed && t.createdAt == clock && t.updatedAt == clock
      ensures log == old(log) + [Created(input)]
    {
      clock := clock + elapsed;
      var id := nextId;
      nextId := nextId + 1;
      var description := if input.description == Some("") then None else input.description;
      todos := todos[id := Todo(id, input.title, description, false, clock, clock)];
      log := log + [Created(input)];
      t := todos[id];
    }

    /**
     * updateTodo: a missing id gives None and changes nothing; an input with
     * no field returns the stored row untouched; otherwise the present fields
     * are written and `updatedAt` is refreshed, in that row only.
     */
    method UpdateTodo(id: int, input: UpdateInput, elapsed: nat) returns (r: Option<Todo>)
      requires Valid()
      modifies this
      ensures Valid()
      ensures nextId == old(nextId) && log == old(log) + [Updated(id, input)]
      ensures r.None? <==> id !in old(todos)
      ensures r.Some? ==> id in todos && r == Some(todos[id])
      ensures var written := id in old(todos) && !NoFields(input);
        && clock == (if written then old(clock) + elapsed else old(clock))
        && todos == (if written then old(todos)[id := Patched(old(todos)[id], input, clock)] else old(todos))
    {
      var existing := GetTodoById(id);
      log := log + [Updated(id, input)];
      if existing.None? {
        return None;
      }
      var row := existing.value;
      var updates := SetList(input);
      if |updates| == 0 {
        return existing;
      }
      // the SET list of the present fields; the `updated_at = CURRENT_TIMESTAMP`
      // entry always closes it and is written here as a field update
      var now := clock + elapsed;
      var written := AssignAll(row, updates);
      assert written == Patched(row, input, row.updatedAt);
      written := written.(updatedAt := now);
      WellFormedAfterWrite(todos, nextId, clock, now, written);
      todos, clock := todos[id := written], now;
      r := Some(written);
    }

    /**
     * toggleTodo: a missing id gives None; otherwise the negation of the
     * stored `completed` goes through updateTodo, so `updatedAt` is refreshed.
     */
    method ToggleTodo(id: int, elapsed: nat) returns (r: Option<Todo>)
      requires Valid()
      modifies this
      ensures Valid() && nextId == old(nextId)
      ensures id !in old(todos) ==>
        r == None && todos == old(todos) && clock == old(clock) && log == old(log) + [Toggled(id)]
      ensures id in old(todos) ==>
        && log == old(log) + [Toggled(id), Updated(id, ToggleInput(old(todos)[id]))]
        && clock == old(clock) + elapsed
        && todos == old(todos)[id := old(todos)[id].(completed := !old(todos)[id].completed, updatedAt := clock)]
        && r == Some(todos[id])
    {
      log := log + [Toggled(id)];
      var todo := GetTodoById(id);
      if todo.None? {
        return None;
      }
      ToggleOnlyFlips(todo.value, clock + elapsed);
      r := UpdateTodo(id, ToggleInput(todo.value), elapsed);
    }

    /** deleteTodo: removes the row if present and reports whether one was removed. */
    method DeleteTodo(id: int) returns (deleted: bool)
      requires Valid()
      modifies this
      ensures Valid()
      ensures deleted <==> id in old(todos)
      ensures todos == old(todos) - {id}
      ensures nextId == old(nextId) && clock == old(clock) && log == old(log) + [Deleted(id)]
    {
      deleted := id in todos;
      todos := todos - {id};
      log := log + [Deleted(id)];
    }
  }
}
