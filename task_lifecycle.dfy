/**
 * The application-layer task service (internal/application/task_service.go):
 * create, delete, pause, resume and retry over the task table and the task
 * queue. The clock reading written to `updatedAt` is a parameter, and so
 * is whether the database rejects an UPDATE that follows a successful
 * lookup (a dropped connection or a timeout between the two statements):
 * `updateFails`.
 */
module TaskLifecycle {
  import opened Common
  import opened Constants
  import opened TaskDomain
  import opened TaskStore

  datatype ServiceError = Store(cause: StoreError) | RetryLimitReached

  /** The stored task as RetryTask rewrites it: one more retry, waiting again. */
  function Retried(t: Task, now: int): (r: Task)
    ensures r.retryCount == t.retryCount + 1 && r.status == TaskStatusWaiting && r.updatedAt == now
    ensures r.(retryCount := t.retryCount, status := t.status, updatedAt := t.updatedAt) == t
  {
    t.(retryCount := t.retryCount + 1, status := TaskStatusWaiting, updatedAt := now)
  }

  /**
   * `n` successive RetryTask calls on one stored task with nothing else
   * touching it: the task afterwards and how many calls succeeded.
   */
  function RetryRun(t: Task, n: nat, now: int): (Task, nat)
    decreases n
  {
    if n == 0 || t.retryCount >= t.maxRetry then (t, 0)
    else
      var (u, k) := RetryRun(Retried(t, now), n - 1, now);
      (u, k + 1)
  }

  /**
   * The retry counter bounds the retries: of `n` calls exactly
   * min(n, maxRetry - retryCount) succeed (none once the limit is reached),
   * and the counter never passes maxRetry unless it started above it.
   */
  lemma {:induction false} RetriesAreBounded(t: Task, n: nat, now: int)
    ensures var (u, k) := RetryRun(t, n, now);
      && k == (if t.retryCount >= t.maxRetry then 0
               else if n <= t.maxRetry - t.retryCount then n
               else t.maxRetry - t.retryCount)
      && u.retryCount == t.retryCount + k
      && (t.retryCount <= t.maxRetry ==> u.retryCount <= t.maxRetry)
      && u.maxRetry == t.maxRetry
    decreases n
  {
    if n > 0 && t.retryCount < t.maxRetry {
      RetriesAreBounded(Retried(t, now), n - 1, now);
    }
  }

  class TaskService {
    const table: TaskTable
    const queue: TaskQueue

    constructor (table: TaskTable, queue: TaskQueue)
      ensures this.table == table && this.queue == queue
    {
      this.table := table;
      this.queue := queue;
    }

    /** CreateTask: insert the row, and push the task only when the insert succeeded. */
    method CreateTask(t: Task) returns (res: Outcome<ServiceError>)
      requires table.Valid()
      modifies table, queue
      ensures table.Valid()
      ensures table.available == old(table.available) && queue.available == old(queue.available)
      ensures !table.available ==>
        res == Fail(Store(Unavailable)) && table.rows == old(table.rows) && queue.entries == old(queue.entries)
      ensures table.available && t.id in old(table.rows) ==>
        res == Fail(Store(DuplicateKey)) && table.rows == old(table.rows) && queue.entries == old(queue.entries)
      ensures table.available && t.id !in old(table.rows) ==>
        && table.rows == old(table.rows)[t.id := t]
        && (queue.available ==> res == Pass && queue.entries == [Encoded(t)] + old(queue.entries))
        && (!queue.available ==> res == Fail(Store(Unavailable)) && queue.entries == old(queue.entries))
    {
      var saved := table.Save(t);
      if saved.Fail? {
        return Fail(Store(saved.error));
      }
      var pushed := queue.Push(t);
      if pushed.Fail? {
        return Fail(Store(pushed.error));
      }
      return Pass;
    }

    /** DeleteTask: take the task off the queue first; the row is deleted only if that worked. */
    method DeleteTask(id: nat) returns (res: Outcome<ServiceError>)
      requires table.Valid()
      modifies table, queue
      ensures table.Valid()
      ensures table.available == old(table.available) && queue.available == old(queue.available)
      ensures !queue.available ==>
        res == Fail(Store(Unavailable)) && table.rows == old(table.rows) && queue.entries == old(queue.entries)
      ensures queue.available ==> queue.entries == RemoveById(old(queue.entries), id)
      ensures queue.available && table.available ==> res == Pass && table.rows == old(table.rows) - {id}
      ensures queue.available && !table.available ==> res == Fail(Store(Unavailable)) && table.rows == old(table.rows)
    {
      var removed := queue.Remove(id);
      if removed.Fail? {
        return Fail(Store(removed.error));
      }
      var deleted := table.Delete(id);
      if deleted.Fail? {
        return Fail(Store(deleted.error));
      }
      return Pass;
    }

    /**
     * PauseTask: look the task up, take it off the queue, then store it
     * with status paused. A failed lookup or removal changes nothing; a
     * failed update leaves the task off the queue but not paused.
     */
    method PauseTask(id: nat, now: int, updateFails: bool) returns (res: Outcome<ServiceError>)
      requires table.Valid()
      modifies table, queue
      ensures table.Valid()
      ensures table.available == old(table.available) && queue.available == old(queue.available)
      ensures old(table.FindByID(id)).Err? ==>
        && res == Fail(Store(old(table.FindByID(id)).error))
        && table.rows == old(table.rows) && queue.entries == old(queue.entries)
      ensures old(table.FindByID(id)).Ok? && !queue.available ==>
        res == Fail(Store(Unavailable)) && table.rows == old(table.rows) && queue.entries == old(queue.entries)
      ensures old(table.FindByID(id)).Ok? && queue.available ==> queue.entries == RemoveById(old(queue.entries), id)
      ensures old(table.FindByID(id)).Ok? && queue.available && updateFails ==>
        res == Fail(Store(Unavailable)) && table.rows == old(table.rows)
      ensures old(table.FindByID(id)).Ok? && queue.available && !updateFails ==>
        && res == Pass
        && table.rows == old(table.rows)[id := old(table.rows)[id].(status := TaskStatusPaused, updatedAt := now)]
    {
      var found := table.FindByID(id);
      if found.Err? {
        return Fail(Store(found.error));
      }
      var removed := queue.Remove(id);
      if removed.Fail? {
        return Fail(Store(removed.error));
      }
      var t := found.value.(status := TaskStatusPaused, updatedAt := now);
      var updated: Outcome<StoreError> := Fail(Unavailable);
      if !updateFails {
        updated := table.Update(t);
      }
      if updated.Fail? {
        return Fail(Store(updated.error));
      }
      return Pass;
    }

    /**
     * ResumeTask: look the task up, store it as waiting whatever its status
     * was, then push it. A failed update returns before the push; a failed
     * push leaves the status written.
     */
    method ResumeTask(id: nat, now: int, updateFails: bool) returns (res: Outcome<ServiceError>)
      requires table.Valid()
      modifies table, queue
      ensures table.Valid()
      ensures table.available == old(table.available) && queue.available == old(queue.available)
      ensures old(table.FindByID(id)).Err? ==>
        && res == Fail(Store(old(table.FindByID(id)).error))
        && table.rows == old(table.rows) && queue.entries == old(queue.entries)
      ensures old(table.FindByID(id)).Ok? && updateFails ==>
        res == Fail(Store(Unavailable)) && table.rows == old(table.rows) && queue.entries == old(queue.entries)
      ensures old(table.FindByID(id)).Ok? && !updateFails ==>
        var t := old(table.rows)[id].(status := TaskStatusWaiting, updatedAt := now);
        && table.rows == old(table.rows)[id := t]
        && (queue.available ==> res == Pass && queue.entries == [Encoded(t)] + old(queue.entries))
        && (!queue.available ==> res == Fail(Store(Unavailable)) && queue.entries == old(queue.entries))
    {
      var found := table.FindByID(id);
      if found.Err? {
        return Fail(Store(found.error));
      }
      var t := found.value.(status := TaskStatusWaiting, updatedAt := now);
      var updated: Outcome<StoreError> := Fail(Unavailable);
      if !updateFails {
        updated := table.Update(t);
      }
      if updated.Fail? {
        return Fail(Store(updated.error));
      }
      var pushed := queue.Push(t);
      if pushed.Fail? {
        return Fail(Store(pushed.error));
      }
      return Pass;
    }

    /**
     * RetryTask: look the task up; with no retries left fail and change
     * nothing; otherwise store it with one more retry and status waiting,
     * then push it. A failed update returns before the push.
     */
    method RetryTask(id: nat, now: int, updateFails: bool) returns (res: Outcome<ServiceError>)
      requires table.Valid()
      modifies table, queue
      ensures table.Valid()
      ensures table.available == old(table.available) && queue.available == old(queue.available)
      ensures old(table.FindByID(id)).Err? ==>
        && res == Fail(Store(old(table.FindByID(id)).error))
        && table.rows == old(table.rows) && queue.entries == old(queue.entries)
      ensures old(table.FindByID(id)).Ok? && old(table.rows)[id].retryCount >= old(table.rows)[id].maxRetry ==>
        res == Fail(RetryLimitReached) && table.rows == old(table.rows) && queue.entries == old(queue.entries)
      ensures old(table.FindByID(id)).Ok? && old(table.rows)[id].retryCount < old(table.rows)[id].maxRetry && updateFails ==>
        res == Fail(Store(Unavailable)) && table.rows == old(table.rows) && queue.entries == old(queue.entries)
      ensures old(table.FindByID(id)).Ok? && old(table.rows)[id].retryCount < old(table.rows)[id].maxRetry && !updateFails ==>
        var t := Retried(old(table.rows)[id], now);
        && table.rows == old(table.rows)[id := t]
        && t.retryCount <= t.maxRetry
        && (queue.available ==> res == Pass && queue.entries == [Encoded(t)] + old(queue.entries))
        && (!queue.available ==> res == Fail(Store(Unavailable)) && queue.entries == old(queue.entries))
    {
      var found := table.FindByID(id);
      if found.Err? {
        return Fail(Store(found.error));
      }
      var t := found.value;
      if t.retryCount >= t.maxRetry {
        return Fail(RetryLimitReached);
      }
      t := t.(retryCount := t.retryCount + 1, status := TaskStatusWaiting, updatedAt := now);
      var updated: Outcome<StoreError> := Fail(Unavailable);
      if !updateFails {
        updated := table.Update(t);
      }
      if updated.Fail? {
        return Fail(Store(updated.error));
      }
      var pushed := queue.Push(t);
      if pushed.Fail? {
        return Fail(Store(pushed.error));
      }
      return Pass;
    }
  }
}
