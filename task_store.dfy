/**
 * The persistence layer of the domain tasks
 * (internal/infrastructure/persistence/task_repository.go): the `tasks`
 * table and the Redis list "task_queue" used as a FIFO queue.
 *
 * The list is held head first: LPUSH prepends, RPOP takes the last element,
 * LRANGE 0 -1 and LREM walk it from index 0. Each list element is either
 * the JSON encoding of a task (encoding is taken to be injective, so equal
 * elements are equal tasks) or text that does not decode to a task. Whether
 * the database or Redis can be reached is the `available` flag of each store.
 */
module TaskStore {
  import opened Common
  import opened TaskDomain

  /** One element of the Redis list. */
  datatype Entry = Encoded(task: Task) | Malformed(raw: string)

  /** Scan of one popped element into a task. */
  function Decode(e: Entry): (r: Result<Task, StoreError>)
    ensures r.Ok? <==> e.Encoded?
    ensures r.Ok? ==> e == Encoded(r.value)
    ensures r.Err? ==> r.error == DecodeFailed
  {
    match e
    case Encoded(t) => Ok(t)
    case Malformed(_) => Err(DecodeFailed)
  }

  // ---------------------------------------------------------------------------
  // LREM key count value (count >= 0)
  // ---------------------------------------------------------------------------

  /** The elements different from `v`, in list order. */
  function Others(s: seq<Entry>, v: Entry): (r: seq<Entry>)
    ensures forall e :: e in r <==> e in s && e != v
  {
    if s == [] then []
    else (if s[0] != v then [s[0]] else []) + Others(s[1..], v)
  }

  lemma OthersCons(e: Entry, s: seq<Entry>, v: Entry)
    ensures Others([e] + s, v) == (if e != v then [e] else []) + Others(s, v)
  {
    assert ([e] + s)[1..] == s;
  }

  /** A list without `v` is its own `Others`. */
  lemma {:induction false} OthersOfFree(s: seq<Entry>, v: Entry)
    requires v !in s
    ensures Others(s, v) == s
  {
    if s != [] {
      assert s == [s[0]] + s[1..];
      OthersOfFree(s[1..], v);
    }
  }

  /** Removes the first `n` elements equal to `v`, walking from the head. */
  function RemoveFirst(s: seq<Entry>, n: nat, v: Entry): (r: seq<Entry>)
    ensures Others(r, v) == Others(s, v)
    ensures multiset(r)[v] == if multiset(s)[v] <= n then 0 else multiset(s)[v] - n
  {
    if s == [] then []
    else
      assert s == [s[0]] + s[1..];
      if s[0] == v && n > 0 then RemoveFirst(s[1..], n - 1, v)
      else
        var tail := RemoveFirst(s[1..], n, v);
        OthersCons(s[0], tail, v);
        [s[0]] + tail
  }

  /**
   * LREM with a non-negative count: 0 removes every element equal to `v`,
   * n > 0 removes the first n of them. Elements different from `v` keep
   * their relative order.
   */
  function LRem(s: seq<Entry>, count: nat, v: Entry): (r: seq<Entry>)
    ensures Others(r, v) == Others(s, v)
    ensures count == 0 ==> v !in r
    ensures count > 0 ==> multiset(r)[v] == if multiset(s)[v] <= count then 0 else multiset(s)[v] - count
  {
    if count == 0 then
      var r := Others(s, v);
      OthersOfFree(r, v);
      r
    else RemoveFirst(s, count, v)
  }

  // ---------------------------------------------------------------------------
  // Remove by id
  // ---------------------------------------------------------------------------

  /** The element decodes to a task with this id. */
  predicate HasId(e: Entry, id: nat) {
    e.Encoded? && e.task.id == id
  }

  /** The index of the first element, from the head, that decodes to a task with this id. */
  function FirstWithId(s: seq<Entry>, id: nat): (r: Option<nat>)
    ensures r.Some? ==> r.value < |s| && HasId(s[r.value], id)
    ensures r.Some? ==> forall j :: 0 <= j < r.value ==> !HasId(s[j], id)
    ensures r.None? ==> forall j :: 0 <= j < |s| ==> !HasId(s[j], id)
  {
    if s == [] then None
    else if HasId(s[0], id) then Some(0)
    else
      match FirstWithId(s[1..], id)
      case None => None
      case Some(k) => Some(k + 1)
  }

  /** The list after Remove(id): LREM with the match's index as count, or unchanged. */
  function RemoveById(s: seq<Entry>, id: nat): seq<Entry> {
    match FirstWithId(s, id)
    case None => s
    case Some(i) => LRem(s, i, s[i])
  }

  /**
   * Remove acts on the first element carrying the id: every other content
   * keeps its order (so a later entry for the same id whose other fields
   * differ stays), and at least one copy of the matched element is gone; at
   * index 0 every copy is gone, at index i > 0 up to i copies.
   */
  lemma {:induction false} RemoveByIdEffect(s: seq<Entry>, id: nat)
    requires FirstWithId(s, id).Some?
    ensures var i := FirstWithId(s, id).value;
      && Others(RemoveById(s, id), s[i]) == Others(s, s[i])
      && multiset(RemoveById(s, id))[s[i]] < multiset(s)[s[i]]
      && (i == 0 ==> s[i] !in RemoveById(s, id))
      && (i > 0 ==> multiset(RemoveById(s, id))[s[i]] == if multiset(s)[s[i]] <= i then 0 else multiset(s)[s[i]] - i)
  {
    var i := FirstWithId(s, id).value;
    assert s[i] in multiset(s);
  }

  /** Remove of an id that no element carries leaves the list as it is. */
  lemma RemoveAbsentId(s: seq<Entry>, id: nat)
    requires forall e :: e in s ==> !HasId(e, id)
    ensures RemoveById(s, id) == s
  {
  }

  // ---------------------------------------------------------------------------
  // FIFO order
  // ---------------------------------------------------------------------------

  /** The order in which successive RPOPs return the elements: tail first. */
  function Drain(s: seq<Entry>): (r: seq<Entry>)
    ensures |r| == |s|
  {
    if s == [] then [] else [s[|s| - 1]] + Drain(s[..|s| - 1])
  }

  /** An LPUSHed element is popped after everything already in the list. */
  lemma {:induction false} DrainPush(e: Entry, s: seq<Entry>)
    ensures Drain([e] + s) == Drain(s) + [e]
  {
    var l := [e] + s;
    if s == [] {
    } else {
      assert l[..|l| - 1] == [e] + s[..|s| - 1];
      DrainPush(e, s[..|s| - 1]);
    }
  }

  /** LPUSH of the tasks one after the other. */
  function PushAll(s: seq<Entry>, ts: seq<Task>): (r: seq<Entry>)
    ensures |r| == |s| + |ts|
    decreases ts
  {
    if ts == [] then s else PushAll([Encoded(ts[0])] + s, ts[1..])
  }

  function EncodeAll(ts: seq<Task>): (r: seq<Entry>)
    ensures |r| == |ts| && forall k :: 0 <= k < |ts| ==> r[k] == Encoded(ts[k])
  {
    if ts == [] then [] else [Encoded(ts[0])] + EncodeAll(ts[1..])
  }

  /** Tasks leave the queue in the order they were pushed, after what was already queued. */
  lemma {:induction false} PushedTasksLeaveInOrder(s: seq<Entry>, ts: seq<Task>)
    ensures Drain(PushAll(s, ts)) == Drain(s) + EncodeAll(ts)
    decreases ts
  {
    if ts != [] {
      PushedTasksLeaveInOrder([Encoded(ts[0])] + s, ts[1..]);
      DrainPush(Encoded(ts[0]), s);
      assert EncodeAll(ts) == [Encoded(ts[0])] + EncodeAll(ts[1..]);
    }
  }

  // ---------------------------------------------------------------------------
  // The queue
  // ---------------------------------------------------------------------------

  class TaskQueue {
    var entries: seq<Entry>
    var available: bool

    constructor ()
      ensures entries == [] && available
    {
      entries, available := [], true;
    }

    /** Push: LPUSH of the encoded task. */
    method Push(t: Task) returns (res: Outcome<StoreError>)
      modifies this
      ensures available == old(available)
      ensures !available ==> res == Fail(Unavailable) && entries == old(entries)
      ensures available ==> res == Pass && entries == [Encoded(t)] + old(entries)
      ensures available ==> Drain(entries) == Drain(old(entries)) + [Encoded(t)]
    {
      if !available {
        return Fail(Unavailable);
      }
      DrainPush(Encoded(t), entries);
      entries := [Encoded(t)] + entries;
      return Pass;
    }

    /** Pop: RPOP and decode; an undecodable element is still taken off the list. */
    method Pop() returns (res: Result<Task, StoreError>)
      modifies this
      ensures available == old(available)
      ensures !available ==> res == Err(Unavailable) && entries == old(entries)
      ensures available && old(entries) == [] ==> res == Err(QueueEmpty) && entries == []
      ensures available && old(entries) != [] ==>
        && Drain(old(entries)) == [old(entries)[|old(entries)| - 1]] + Drain(entries)
        && res == Decode(old(entries)[|old(entries)| - 1])
    {
      if !available {
        return Err(Unavailable);
      }
      if entries == [] {
        return Err(QueueEmpty);
      }
      var last := entries[|entries| - 1];
      entries := entries[..|entries| - 1];
      res := Decode(last);
    }

    /**
     * Remove: walks the list from the head, skips elements that do not
     * decode, and at the first task with the id issues LREM with the
     * element's index as count; an absent id changes nothing.
     */
    method Remove(id: nat) returns (res: Outcome<StoreError>)
      modifies this
      ensures available == old(available)
      ensures !available ==> res == Fail(Unavailable) && entries == old(entries)
      ensures available ==> res == Pass && entries == RemoveById(old(entries), id)
    {
      if !available {
        return Fail(Unavailable);
      }
      var list := entries;
      for i := 0 to |list|
        invariant entries == list
        invariant forall j :: 0 <= j < i ==> !HasId(list[j], id)
      {
        if list[i].Malformed? {
          continue;
        }
        if list[i].task.id == id {
          entries := LRem(list, i, list[i]);
          return Pass;
        }
      }
      return Pass;
    }

    /** GetLength: LLEN. */
    method GetLength() returns (r: Result<nat, StoreError>)
      ensures !available ==> r == Err(Unavailable)
      ensures available ==> r == Ok(|entries|)
    {
      if !available {
        return Err(Unavailable);
      }
      return Ok(|entries|);
    }

    /** Clear: DEL of the list. */
    method Clear() returns (res: Outcome<StoreError>)
      modifies this
      ensures available == old(available)
      ensures !available ==> res == Fail(Unavailable) && entries == old(entries)
      ensures available ==> res == Pass && entries == []
    {
      if !available {
        return Fail(Unavailable);
      }
      entries := [];
      return Pass;
    }
  }

  // ---------------------------------------------------------------------------
  // The table
  // ---------------------------------------------------------------------------

  /** The column a lookup filters on. */
  datatype Column = TypeIs(taskType: int) | StatusIs(status: int)

  predicate Where(c: Column, t: Task) {
    match c
    case TypeIs(ty) => t.taskType == ty
    case StatusIs(st) => t.status == st
  }

  /** No two tasks in the list share an id. */
  predicate DistinctTaskIds(r: seq<Task>) {
    forall i, j :: 0 <= i < j < |r| ==> r[i].id != r[j].id
  }

  class TaskTable {
    var rows: map<nat, Task>
    var available: bool

    /** Every row is stored under its own id. */
    ghost predicate Valid()
      reads this
    {
      forall id :: id in rows ==> rows[id].id == id
    }

    constructor ()
      ensures Valid()
      ensures rows == map[] && available
    {
      rows, available := map[], true;
    }

    /** FindByID: the row with this id, or no-rows. */
    function FindByID(id: nat): (r: Result<Task, StoreError>)
      reads this
      ensures !available ==> r == Err(Unavailable)
      ensures available ==> (r.Ok? <==> id in rows)
      ensures available && id !in rows ==> r == Err(NoRows)
      ensures r.Ok? ==> id in rows && r.value == rows[id]
    {
      if !available then Err(Unavailable)
      else if id in rows then Ok(rows[id])
      else Err(NoRows)
    }

    /** SELECT * FROM tasks WHERE <column> = <value>, in no particular order. */
    method FindWhere(c: Column) returns (r: Result<seq<Task>, StoreError>)
      requires Valid()
      ensures !available ==> r == Err(Unavailable)
      ensures available ==> r.Ok?
      ensures r.Ok? ==> forall t :: t in r.value <==> t in rows.Values && Where(c, t)
      ensures r.Ok? ==> DistinctTaskIds(r.value)
    {
      if !available {
        return Err(Unavailable);
      }
      var found: seq<Task> := [];
      var rest := rows.Keys;
      while rest != {}
        invariant rest <= rows.Keys
        invariant forall t :: t in found <==> t in rows.Values && Where(c, t) && t.id !in rest
        invariant DistinctTaskIds(found)
        decreases rest
      {
        var id :| id in rest;
        rest := rest - {id};
        var t := rows[id];
        if Where(c, t) {
          found := found + [t];
        }
      }
      return Ok(found);
    }

    /** FindByType: the tasks of one type. */
    method FindByType(taskType: int) returns (r: Result<seq<Task>, StoreError>)
      requires Valid()
      ensures !available ==> r == Err(Unavailable)
      ensures available ==> r.Ok?
      ensures r.Ok? ==> forall t :: t in r.value <==> t in rows.Values && t.taskType == taskType
      ensures r.Ok? ==> DistinctTaskIds(r.value)
    {
      r := FindWhere(TypeIs(taskType));
    }

    /** FindByStatus: the tasks in one status. */
    method FindByStatus(status: int) returns (r: Result<seq<Task>, StoreError>)
      requires Valid()
      ensures !available ==> r == Err(Unavailable)
      ensures available ==> r.Ok?
      ensures r.Ok? ==> forall t :: t in r.value <==> t in rows.Values && t.status == status
      ensures r.Ok? ==> DistinctTaskIds(r.value)
    {
      r := FindWhere(StatusIs(status));
    }

    /** Save: INSERT; an existing id is a duplicate-key error. */
    method Save(t: Task) returns (res: Outcome<StoreError>)
      requires Valid()
      modifies this
      ensures Valid() && available == old(available)
      ensures !available ==> res == Fail(Unavailable) && rows == old(rows)
      ensures available && t.id in old(rows) ==> res == Fail(DuplicateKey) && rows == old(rows)
      ensures available && t.id !in old(rows) ==> res == Pass && rows == old(rows)[t.id := t]
    {
      if !available {
        return Fail(Unavailable);
      }
      if t.id in rows {
        return Fail(DuplicateKey);
      }
      rows := rows[t.id := t];
      return Pass;
    }

    /** Update: UPDATE ... WHERE id = t.id; no matching row is not an error. */
    method Update(t: Task) returns (res: Outcome<StoreError>)
      requires Valid()
      modifies this
      ensures Valid() && available == old(available)
      ensures !available ==> res == Fail(Unavailable) && rows == old(rows)
      ensures available ==> res == Pass
      ensures available && t.id in old(rows) ==> rows == old(rows)[t.id := t]
      ensures available && t.id !in old(rows) ==> rows == old(rows)
    {
      if !available {
        return Fail(Unavailable);
      }
      if t.id in rows {
        rows := rows[t.id := t];
      }
      return Pass;
    }

    /** Delete: DELETE ... WHERE id = id; no matching row is not an error. */
    method Delete(id: nat) returns (res: Outcome<StoreError>)
      requires Valid()
      modifies this
      ensures Valid() && available == old(available)
      ensures !available ==> res == Fail(Unavailable) && rows == old(rows)
      ensures available ==> res == Pass && rows == old(rows) - {id}
    {
      if !available {
        return Fail(Unavailable);
      }
      rows := rows - {id};
      return Pass;
    }
  }
}
