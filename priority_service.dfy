/**
 * The task service's priority operations (internal/service/task_service.go):
 * adjustTaskPriority, which applies the first applicable rule whose priority
 * differs from the task's and logs the change, and the three delegating
 * priority updates.
 *
 * A database failure of one of the repository calls is given as a `Fault`
 * parameter; the failing call then changes nothing and the service returns
 * the corresponding error. The log id (a fresh UUID) and the clock reading
 * are parameters as well.
 */
module PriorityService {
  import opened Common
  import opened TaskModel
  import opened RuleRepository

  /** Which repository call of adjustTaskPriority fails, if any. */
  datatype Fault = NoFault | FetchFails | UpdateFails | LogFails

  /** The errors adjustTaskPriority returns (rule evaluation never fails). */
  datatype ServiceError = FetchRulesFailed | UpdateFailed | LogFailed

  /** A rule that adjustTaskPriority would act on: it matches and would change the priority. */
  predicate Applies(rule: Rule, task: Task) {
    EvaluateRule(rule, task) && rule.priority != task.priority
  }

  /**
   * The position of the first rule that applies. Every rule before it either
   * does not match or already carries the task's priority.
   */
  function FirstDiffering(rules: seq<Rule>, task: Task): (r: Option<nat>)
    ensures r.Some? ==> r.value < |rules| && Applies(rules[r.value], task)
    ensures r.Some? ==> forall j :: 0 <= j < r.value ==> !Applies(rules[j], task)
    ensures r.None? ==> forall j :: 0 <= j < |rules| ==> !Applies(rules[j], task)
  {
    if rules == [] then None
    else if Applies(rules[0], task) then Some(0)
    else
      match FirstDiffering(rules[1..], task)
      case None => None
      case Some(k) => Some(k + 1)
  }

  /** The first applicable rule is at `i` exactly when it applies and none before it does. */
  lemma FirstDifferingAt(rules: seq<Rule>, task: Task, i: nat)
    ensures FirstDiffering(rules, task) == Some(i) <==>
      i < |rules| && Applies(rules[i], task) && forall j :: 0 <= j < i ==> !Applies(rules[j], task)
  {
  }

  /** No rule is applied exactly when none applies. */
  lemma FirstDifferingNone(rules: seq<Rule>, task: Task)
    ensures FirstDiffering(rules, task) == None <==> forall j :: 0 <= j < |rules| ==> !Applies(rules[j], task)
  {
  }

  /** The log entry written when `rule` moves `task` to the rule's priority. */
  function AdjustLog(task: Task, rule: Rule, logId: string, now: int): (e: PriorityLog)
    ensures e.taskId == task.id && e.ruleId == rule.id && e.id == logId && e.createdAt == now
    ensures e.oldPriority == task.priority && e.newPriority == rule.priority
    ensures e.reason == rule.description
  {
    PriorityLog(logId, task.id, rule.id, task.priority, rule.priority, rule.description, now)
  }

  /** The task table, the log and the result after one adjustTaskPriority run. */
  datatype Effect = Effect(tasks: map<string, Task>, logs: seq<PriorityLog>, outcome: Outcome<ServiceError>)

  /**
   * What adjustTaskPriority does to the tables given the applicable rules:
   * at most one priority write, to the task's own row, and at most one log
   * entry, recording a real change; the write comes first, so a failing log
   * append leaves the new priority in place; a failing fetch or update
   * changes nothing.
   */
  function Adjust(tasks: map<string, Task>, logs: seq<PriorityLog>, rules: seq<Rule>,
                  task: Task, logId: string, now: int, fault: Fault): (e: Effect)
    ensures e.tasks.Keys == tasks.Keys
    ensures forall id :: id in tasks && tasks[id].id != task.id ==> e.tasks[id] == tasks[id]
    ensures e.logs == logs || (|e.logs| == |logs| + 1 && e.logs[..|logs|] == logs)
    ensures |e.logs| == |logs| + 1 ==> e.logs[|logs|].oldPriority != e.logs[|logs|].newPriority
    ensures e.outcome == Pass && e.tasks != tasks ==> |e.logs| == |logs| + 1
    ensures fault == FetchFails ==> e == Effect(tasks, logs, Fail(FetchRulesFailed))
  {
    if fault == FetchFails then Effect(tasks, logs, Fail(FetchRulesFailed))
    else
      match FirstDiffering(rules, task)
      case None => Effect(tasks, logs, Pass)
      case Some(i) =>
        var rule := rules[i];
        if fault == UpdateFails then Effect(tasks, logs, Fail(UpdateFailed))
        else
          var updated := SetPriorityWhere(tasks, ById(task.id), rule.priority, now);
          if fault == LogFails then Effect(updated, logs, Fail(LogFailed))
          else Effect(updated, logs + [AdjustLog(task, rule, logId, now)], Pass)
  }

  class TaskService {
    const repo: TaskRepository

    constructor (repo: TaskRepository)
      ensures this.repo == repo
    {
      this.repo := repo;
    }

    /**
     * adjustTaskPriority: fetches the applicable rules, then applies the
     * first one that changes the task's priority.
     */
    method AdjustTaskPriority(task: Task, logId: string, now: int, fault: Fault) returns (res: Outcome<ServiceError>)
      requires repo.Valid()
      modifies repo
      ensures repo.Valid()
      ensures repo.rules == old(repo.rules) && repo.groups == old(repo.groups)
      ensures Effect(repo.tasks, repo.logs, res)
        == Adjust(old(repo.tasks), old(repo.logs), old(repo.GetApplicableRules(task)), task, logId, now, fault)
    {
      if fault == FetchFails {
        return Fail(FetchRulesFailed);
      }
      var rules := repo.GetApplicableRules(task);
      res := ApplyFirstDiffering(rules, task, logId, now, fault);
    }

    /**
     * The scan of adjustTaskPriority over the fetched rules: skip the rules
     * that do not match or already carry the task's priority, and apply the
     * first remaining one (priority write, then log append).
     */
    method ApplyFirstDiffering(rules: seq<Rule>, task: Task, logId: string, now: int, fault: Fault)
      returns (res: Outcome<ServiceError>)
      requires repo.Valid() && fault != FetchFails
      modifies repo
      ensures repo.Valid()
      ensures repo.rules == old(repo.rules) && repo.groups == old(repo.groups)
      ensures Effect(repo.tasks, repo.logs, res) == Adjust(old(repo.tasks), old(repo.logs), rules, task, logId, now, fault)
    {
      for i := 0 to |rules|
        invariant repo.Valid()
        invariant repo.tasks == old(repo.tasks) && repo.logs == old(repo.logs)
        invariant repo.rules == old(repo.rules) && repo.groups == old(repo.groups)
        invariant forall j :: 0 <= j < i ==> !Applies(rules[j], task)
      {
        var rule := rules[i];
        var matched := EvaluateRule(rule, task);
        if !matched {
          continue;
        }
        if rule.priority == task.priority {
          continue;
        }
        var oldPriority := task.priority;
        FirstDifferingAt(rules, task, i);
        if fault == UpdateFails {
          return Fail(UpdateFailed);
        }
        repo.UpdatePriority(task.id, rule.priority, now);
        if fault == LogFails {
          return Fail(LogFailed);
        }
        repo.CreatePriorityLog(PriorityLog(logId, task.id, rule.id, oldPriority, rule.priority, rule.description, now));
        return Pass;
      }
      FirstDifferingNone(rules, task);
      return Pass;
    }

    /** UpdateTaskPriority: the repository's single-task update; no log entry. */
    method UpdateTaskPriority(taskId: string, p: int, now: int)
      requires repo.Valid() && ValidPriority(p)
      modifies repo
      ensures repo.Valid()
      ensures repo.rules == old(repo.rules) && repo.groups == old(repo.groups) && repo.logs == old(repo.logs)
      ensures repo.tasks == SetPriorityWhere(old(repo.tasks), ById(taskId), p, now)
    {
      repo.UpdatePriority(taskId, p, now);
    }

    /** BatchUpdateTaskPriority: the repository's update by id list; no log entry. */
    method BatchUpdateTaskPriority(taskIds: seq<string>, p: int, now: int)
      requires repo.Valid() && ValidPriority(p)
      modifies repo
      ensures repo.Valid()
      ensures repo.rules == old(repo.rules) && repo.groups == old(repo.groups) && repo.logs == old(repo.logs)
      ensures repo.tasks == SetPriorityWhere(old(repo.tasks), ByIds(taskIds), p, now)
    {
      repo.BatchUpdatePriority(taskIds, p, now);
    }

    /**
     * UpdateTaskPriorityByCondition: the repository's filtered update, its
     * error passed on; no log entry.
     */
    method UpdateTaskPriorityByCondition(workId: string, batchId: string, taskType: string, status: string, p: int, now: int)
      returns (res: Outcome<RepoError>)
      requires repo.Valid() && ValidPriority(p)
      modifies repo
      ensures repo.Valid()
      ensures repo.rules == old(repo.rules) && repo.groups == old(repo.groups) && repo.logs == old(repo.logs)
      ensures NoFilter(workId, batchId, taskType, status) ==> res == Fail(MissingWhereClause) && repo.tasks == old(repo.tasks)
      ensures !NoFilter(workId, batchId, taskType, status) ==>
        res == Pass && repo.tasks == SetPriorityWhere(old(repo.tasks), ByFilters(workId, batchId, taskType, status), p, now)
    {
      res := repo.UpdatePriorityByCondition(workId, batchId, taskType, status, p, now);
    }
  }

  // ---------------------------------------------------------------------------
  // Properties of the adjustment
  // ---------------------------------------------------------------------------

  /**
   * A successful run that finds an applicable rule moves exactly the task's
   * row to that rule's priority, stamped with the time of the run, and logs
   * the move with the rule's id and description; other columns of the row
   * stay.
   */
  lemma AdjustAppliesFirstDiffering(tasks: map<string, Task>, logs: seq<PriorityLog>, rules: seq<Rule>,
                                    task: Task, logId: string, now: int, i: nat)
    requires i < |rules| && Applies(rules[i], task)
    requires forall j :: 0 <= j < i ==> !Applies(rules[j], task)
    requires task.id in tasks && tasks[task.id].id == task.id
    ensures var e := Adjust(tasks, logs, rules, task, logId, now, NoFault);
      && e.outcome == Pass
      && e.tasks[task.id] == tasks[task.id].(priority := rules[i].priority, updatedAt := now)
      && e.logs == logs + [AdjustLog(task, rules[i], logId, now)]
  {
  }

  /**
   * The failure outcomes: a failed priority write changes neither table; a
   * failed log append returns an error with the first applicable rule's
   * priority already written and no log entry.
   */
  lemma AdjustFailureOutcomes(tasks: map<string, Task>, logs: seq<PriorityLog>, rules: seq<Rule>,
                              task: Task, logId: string, now: int)
    ensures var e := Adjust(tasks, logs, rules, task, logId, now, UpdateFails);
      e.tasks == tasks && e.logs == logs
      && (FirstDiffering(rules, task).Some? ==> e.outcome == Fail(UpdateFailed))
    ensures FirstDiffering(rules, task).Some? ==>
      var rule := rules[FirstDiffering(rules, task).value];
      Adjust(tasks, logs, rules, task, logId, now, LogFails)
        == Effect(SetPriorityWhere(tasks, ById(task.id), rule.priority, now), logs, Fail(LogFailed))
  {
  }

  /** When no rule applies, the tables do not change and the run succeeds. */
  lemma AdjustWithoutApplicableRule(tasks: map<string, Task>, logs: seq<PriorityLog>, rules: seq<Rule>,
                                    task: Task, logId: string, now: int, fault: Fault)
    requires fault != FetchFails
    requires forall j :: 0 <= j < |rules| ==> !Applies(rules[j], task)
    ensures Adjust(tasks, logs, rules, task, logId, now, fault) == Effect(tasks, logs, Pass)
  {
  }

  /**
   * A matching rule that already carries the task's priority is skipped and
   * the scan goes on with the next rules.
   */
  lemma EqualPriorityRuleSkipped(rule: Rule, rest: seq<Rule>, task: Task)
    requires EvaluateRule(rule, task) && rule.priority == task.priority
    ensures FirstDiffering([rule] + rest, task) ==
      match FirstDiffering(rest, task)
      case None => None
      case Some(k) => Some(k + 1)
  {
    assert ([rule] + rest)[1..] == rest;
  }

  /**
   * Because the applicable rules come highest priority first, the rule that
   * is applied has the largest priority among the rules that apply.
   */
  lemma {:induction false} FirstDifferingIsHighest(rules: seq<Rule>, task: Task)
    requires SortedByPriorityDesc(rules)
    requires FirstDiffering(rules, task).Some?
    ensures forall x :: x in rules && Applies(x, task) ==>
      x.priority <= rules[FirstDiffering(rules, task).value].priority
  {
    var i := FirstDiffering(rules, task).value;
    forall x | x in rules && Applies(x, task)
      ensures x.priority <= rules[i].priority
    {
      var k :| 0 <= k < |rules| && rules[k] == x;
    }
  }

  /** Every log entry records a real change of priority. */
  predicate LogsRecordChanges(logs: seq<PriorityLog>) {
    forall k :: 0 <= k < |logs| ==> logs[k].oldPriority != logs[k].newPriority
  }

  /** adjustTaskPriority keeps the log free of entries whose old and new priority agree. */
  lemma AdjustPreservesLogChanges(tasks: map<string, Task>, logs: seq<PriorityLog>, rules: seq<Rule>,
                                  task: Task, logId: string, now: int, fault: Fault)
    requires LogsRecordChanges(logs)
    ensures LogsRecordChanges(Adjust(tasks, logs, rules, task, logId, now, fault).logs)
  {
    var e := Adjust(tasks, logs, rules, task, logId, now, fault);
    if e.logs != logs {
      forall k | 0 <= k < |e.logs|
        ensures e.logs[k].oldPriority != e.logs[k].newPriority
      {
        if k < |logs| {
          assert e.logs[k] == e.logs[..|logs|][k];
        }
      }
    }
  }

  /** Every task priority lies in 0..3. */
  predicate PrioritiesInRange(tasks: map<string, Task>) {
    forall id :: id in tasks ==> ValidPriority(tasks[id].priority)
  }

  /**
   * The engine does not clamp: priorities stay within 0..3 exactly when the
   * rules it applies carry priorities within 0..3.
   */
  lemma AdjustPreservesRange(tasks: map<string, Task>, logs: seq<PriorityLog>, rules: seq<Rule>,
                             task: Task, logId: string, now: int, fault: Fault)
    requires PrioritiesInRange(tasks)
    requires forall x :: x in rules ==> ValidPriority(x.priority)
    ensures PrioritiesInRange(Adjust(tasks, logs, rules, task, logId, now, fault).tasks)
  {
    var f := FirstDiffering(rules, task);
    if fault != FetchFails && f.Some? {
      assert rules[f.value] in rules;
    }
  }

  /** The delegating updates keep priorities within 0..3, given a priority in 0..3. */
  lemma SetPriorityPreservesRange(tasks: map<string, Task>, sel: Selector, p: int, now: int)
    requires PrioritiesInRange(tasks) && ValidPriority(p)
    ensures PrioritiesInRange(SetPriorityWhere(tasks, sel, p, now))
  {
    var r := SetPriorityWhere(tasks, sel, p, now);
    forall id | id in r ensures ValidPriority(r[id].priority) {
      assert id in tasks;
    }
  }

  /**
   * adjustTaskPriority is not idempotent: with a first rule at the task's
   * own priority and a second one at another, two successive runs move the
   * task to the second rule's priority and then back to the first's.
   */
  lemma {:induction false} RepeatedAdjustmentAlternates(a: Rule, b: Rule, task: Task)
    requires EvaluateRule(a, task) && EvaluateRule(b, task)
    requires a.priority == task.priority && b.priority != task.priority
    ensures FirstDiffering([a, b], task) == Some(1)
    ensures FirstDiffering([a, b], task.(priority := b.priority)) == Some(0)
  {
    var moved := task.(priority := b.priority);
    assert EvaluateRule(a, moved) by {
      assert TaskKeys(moved) == TaskKeys(task);
    }
    assert [a, b][1..] == [b];
  }
}
