/**
 * The task repository of the priority-rule engine
 * (internal/repository/task_repository.go), with the database replaced by
 * in-memory tables: a task map keyed by id, the rule table in row order, a
 * rule-group map keyed by id, and the append-only priority log.
 */
module RuleRepository {
  import opened Common
  import opened TaskModel

  // ---------------------------------------------------------------------------
  // Rule matching
  // ---------------------------------------------------------------------------

  /** The four filter columns of a rule, in the order EvaluateRule checks them. */
  function RuleFilters(rule: Rule): seq<string> {
    [rule.workId, rule.batchId, rule.taskType, rule.status]
  }

  /** The task columns the four filters are compared with. */
  function TaskKeys(task: Task): seq<string> {
    [task.workId, task.batchId, task.taskType, task.status]
  }

  /**
   * The WHERE clause GetApplicableRules sends to the database: enabled, and
   * each filter column equal to the task's value or empty.
   */
  predicate SelectedByQuery(rule: Rule, task: Task) {
    && rule.enabled
    && (rule.workId == task.workId || rule.workId == "")
    && (rule.batchId == task.batchId || rule.batchId == "")
    && (rule.taskType == task.taskType || rule.taskType == "")
    && (rule.status == task.status || rule.status == "")
  }

  /**
   * EvaluateRule: rejects at the first filter that is set and differs from
   * the task. It has no error path. The in-process check agrees with the
   * database query apart from the `enabled` column, which it ignores.
   */
  function EvaluateRule(rule: Rule, task: Task): (matched: bool)
    ensures matched <==> forall i :: 0 <= i < 4 ==> RuleFilters(rule)[i] == "" || RuleFilters(rule)[i] == TaskKeys(task)[i]
    ensures matched <==> SelectedByQuery(rule.(enabled := true), task)
  {
    assert RuleFilters(rule)[0] == rule.workId && TaskKeys(task)[0] == task.workId;
    assert RuleFilters(rule)[1] == rule.batchId && TaskKeys(task)[1] == task.batchId;
    assert RuleFilters(rule)[2] == rule.taskType && TaskKeys(task)[2] == task.taskType;
    assert RuleFilters(rule)[3] == rule.status && TaskKeys(task)[3] == task.status;
    if rule.workId != "" && rule.workId != task.workId then false
    else if rule.batchId != "" && rule.batchId != task.batchId then false
    else if rule.taskType != "" && rule.taskType != task.taskType then false
    else if rule.status != "" && rule.status != task.status then false
    else true
  }

  /** The rows of `rules` that the GetApplicableRules query selects, in row order. */
  function QueryMatches(rules: seq<Rule>, task: Task): (r: seq<Rule>)
    ensures multiset(r) <= multiset(rules)
    ensures forall x :: x in r <==> x in rules && SelectedByQuery(x, task)
  {
    if rules == [] then []
    else
      assert rules == [rules[0]] + rules[1..];
      (if SelectedByQuery(rules[0], task) then [rules[0]] else []) + QueryMatches(rules[1..], task)
  }

  /** The rules of `rules` that EvaluateRule accepts, in order. */
  function Matching(rules: seq<Rule>, task: Task): (r: seq<Rule>)
    ensures |r| <= |rules|
  {
    if rules == [] then []
    else
      var last := rules[|rules| - 1];
      Matching(rules[..|rules| - 1], task) + (if EvaluateRule(last, task) then [last] else [])
  }

  /** Matching keeps exactly the rules EvaluateRule accepts. */
  lemma {:induction false} MatchingMembers(rules: seq<Rule>, task: Task)
    ensures forall x :: x in Matching(rules, task) <==> x in rules && EvaluateRule(x, task)
  {
    if rules != [] {
      var init := rules[..|rules| - 1];
      MatchingMembers(init, task);
      assert rules == init + [rules[|rules| - 1]];
    }
  }

  /** One rule appended: it is kept at the end exactly when EvaluateRule accepts it. */
  lemma MatchingSnoc(s: seq<Rule>, x: Rule, task: Task)
    ensures Matching(s + [x], task) == Matching(s, task) + (if EvaluateRule(x, task) then [x] else [])
  {
    assert (s + [x])[..|s|] == s;
  }

  /** The loop of EvaluateRuleGroup: each rule in turn, appended when EvaluateRule accepts it. */
  method KeepMatching(rules: seq<Rule>, task: Task) returns (matched: seq<Rule>)
    ensures matched == Matching(rules, task)
  {
    matched := [];
    for i := 0 to |rules|
      invariant matched == Matching(rules[..i], task)
    {
      assert rules[..i + 1] == rules[..i] + [rules[i]];
      MatchingSnoc(rules[..i], rules[i], task);
      if EvaluateRule(rules[i], task) {
        matched := matched + [rules[i]];
      }
    }
    assert rules[..|rules|] == rules;
  }

  /** A single rule is kept exactly when EvaluateRule accepts it. */
  lemma MatchingSingleton(x: Rule, task: Task)
    ensures Matching([x], task) == if EvaluateRule(x, task) then [x] else []
  {
    assert [x][..0] == [];
  }

  /**
   * Matching distributes over concatenation; with MatchingSingleton this
   * fixes the result element by element: the accepted rules, in their order.
   */
  lemma {:induction false} MatchingAppend(a: seq<Rule>, b: seq<Rule>, task: Task)
    ensures Matching(a + b, task) == Matching(a, task) + Matching(b, task)
    decreases |b|
  {
    if b == [] {
      assert a + b == a;
    } else {
      var init, last := b[..|b| - 1], b[|b| - 1];
      var kept := if EvaluateRule(last, task) then [last] else [];
      assert a + b == (a + init) + [last];
      assert b == init + [last];
      calc {
        Matching(a + b, task);
      == { MatchingSnoc(a + init, last, task); }
        Matching(a + init, task) + kept;
      == { MatchingAppend(a, init, task); }
        (Matching(a, task) + Matching(init, task)) + kept;
      ==
        Matching(a, task) + (Matching(init, task) + kept);
      == { MatchingSnoc(init, last, task); }
        Matching(a, task) + Matching(b, task);
      }
    }
  }

  // ---------------------------------------------------------------------------
  // ORDER BY priority DESC
  // ---------------------------------------------------------------------------

  predicate SortedByPriorityDesc(s: seq<Rule>) {
    forall i, j :: 0 <= i < j < |s| ==> s[i].priority >= s[j].priority
  }

  /** Inserts `x` in front of the first rule whose priority is not above its own. */
  function InsertByPriority(x: Rule, s: seq<Rule>): (r: seq<Rule>)
    requires SortedByPriorityDesc(s)
    ensures |r| == |s| + 1 && (r[0] == x || (s != [] && r[0] == s[0]))
    ensures SortedByPriorityDesc(r)
    ensures multiset(r) == multiset(s) + multiset{x}
  {
    if s == [] || s[0].priority <= x.priority then [x] + s
    else
      assert s == [s[0]] + s[1..];
      [s[0]] + InsertByPriority(x, s[1..])
  }

  /**
   * The database's ORDER BY priority DESC. The order of rules with equal
   * priority is left to the database; the model keeps row order (a stable
   * insertion sort).
   */
  function SortByPriorityDesc(s: seq<Rule>): (r: seq<Rule>)
    ensures SortedByPriorityDesc(r)
    ensures multiset(r) == multiset(s)
  {
    if s == [] then []
    else
      assert s == [s[0]] + s[1..];
      InsertByPriority(s[0], SortByPriorityDesc(s[1..]))
  }

  // ---------------------------------------------------------------------------
  // Group membership lists
  // ---------------------------------------------------------------------------

  predicate NoDuplicates(s: seq<string>) {
    forall i, j :: 0 <= i < j < |s| ==> s[i] != s[j]
  }

  /** The group list after AddRuleToGroup: unchanged if `x` is present, else `x` appended. */
  function AddOnce(s: seq<string>, x: string): (r: seq<string>)
    ensures x in r
    ensures forall y :: y in r <==> y in s || y == x
    ensures |s| <= |r| && r[..|s|] == s
    ensures NoDuplicates(s) ==> NoDuplicates(r)
  {
    if x in s then s else s + [x]
  }

  /** The group list after RemoveRuleFromGroup: every `x` dropped, the rest in order. */
  function Without(s: seq<string>, x: string): (r: seq<string>)
    ensures |r| <= |s|
    ensures x !in r
  {
    if s == [] then []
    else
      var last := s[|s| - 1];
      Without(s[..|s| - 1], x) + (if last == x then [] else [last])
  }

  /** Every id other than `x` keeps its number of occurrences. */
  lemma {:induction false} WithoutCounts(s: seq<string>, x: string)
    ensures forall y :: y != x ==> multiset(Without(s, x))[y] == multiset(s)[y]
  {
    if s != [] {
      var init := s[..|s| - 1];
      WithoutCounts(init, x);
      assert s == init + [s[|s| - 1]];
    }
  }

  /** One id appended: it is kept at the end exactly when it is not `x`. */
  lemma WithoutSnoc(s: seq<string>, y: string, x: string)
    ensures Without(s + [y], x) == Without(s, x) + (if y == x then [] else [y])
  {
    assert (s + [y])[..|s|] == s;
  }

  /** A single id is dropped exactly when it is `x`. */
  lemma WithoutSingleton(y: string, x: string)
    ensures Without([y], x) == if y == x then [] else [y]
  {
    assert [y][..0] == [];
  }

  /**
   * Without distributes over concatenation; with WithoutSingleton this fixes
   * the result element by element: the ids other than `x`, in their order.
   */
  lemma {:induction false} WithoutAppend(a: seq<string>, b: seq<string>, x: string)
    ensures Without(a + b, x) == Without(a, x) + Without(b, x)
    decreases |b|
  {
    if b == [] {
      assert a + b == a;
    } else {
      var init, last := b[..|b| - 1], b[|b| - 1];
      var kept := if last == x then [] else [last];
      assert a + b == (a + init) + [last];
      assert b == init + [last];
      calc {
        Without(a + b, x);
      == { WithoutSnoc(a + init, last, x); }
        Without(a + init, x) + kept;
      == { WithoutAppend(a, init, x); }
        (Without(a, x) + Without(init, x)) + kept;
      ==
        Without(a, x) + (Without(init, x) + kept);
      == { WithoutSnoc(init, last, x); }
        Without(a, x) + Without(b, x);
      }
    }
  }

  /** Removing twice leaves the same list as removing once. */
  lemma {:induction false} WithoutIdempotent(s: seq<string>, x: string)
    ensures Without(Without(s, x), x) == Without(s, x)
  {
    if s != [] {
      var init, last := s[..|s| - 1], s[|s| - 1];
      WithoutIdempotent(init, x);
      var w := Without(init, x);
      if last != x {
        assert Without(s, x) == w + [last];
        var wl := w + [last];
        assert wl[..|wl| - 1] == w;
        assert Without(wl, x) == Without(w, x) + [last];
      } else {
        assert Without(s, x) == w;
      }
    }
  }

  /** Removing keeps the list free of duplicates. */
  lemma {:induction false} WithoutNoDuplicates(s: seq<string>, x: string)
    requires NoDuplicates(s)
    ensures NoDuplicates(Without(s, x))
  {
    if s != [] {
      var init := s[..|s| - 1];
      WithoutNoDuplicates(init, x);
      var last := s[|s| - 1];
      if last != x {
        assert last !in init;
        assert multiset(init)[last] == 0;
        WithoutCounts(init, x);
        assert last !in Without(init, x) by {
          assert multiset(Without(init, x))[last] == 0;
        }
      }
    }
  }

  /** Adding after removing puts the id back exactly once, at the end. */
  lemma AddAfterRemove(s: seq<string>, x: string)
    ensures AddOnce(Without(s, x), x) == Without(s, x) + [x]
  {
  }

  /** The rows of `rules` whose id is listed in `ids`, in row order (WHERE id IN ids). */
  function RulesWithIds(rules: seq<Rule>, ids: seq<string>): (r: seq<Rule>)
    ensures multiset(r) <= multiset(rules)
    ensures forall x :: x in r <==> x in rules && x.id in ids
  {
    if rules == [] then []
    else
      assert rules == [rules[0]] + rules[1..];
      (if rules[0].id in ids then [rules[0]] else []) + RulesWithIds(rules[1..], ids)
  }

  // ---------------------------------------------------------------------------
  // Rule rows
  // ---------------------------------------------------------------------------

  predicate DistinctIds(rules: seq<Rule>) {
    forall i, j :: 0 <= i < j < |rules| ==> rules[i].id != rules[j].id
  }

  /** The rule table after DELETE ... WHERE id = id. */
  function RemoveRuleRows(rules: seq<Rule>, id: string): (r: seq<Rule>)
    ensures multiset(r) <= multiset(rules)
    ensures forall x :: x in r <==> x in rules && x.id != id
  {
    if rules == [] then []
    else
      assert rules == [rules[0]] + rules[1..];
      (if rules[0].id != id then [rules[0]] else []) + RemoveRuleRows(rules[1..], id)
  }

  /** Dropping the first row keeps the ids distinct, and none of the others has its id. */
  lemma DistinctTail(rules: seq<Rule>)
    requires rules != [] && DistinctIds(rules)
    ensures DistinctIds(rules[1..])
    ensures forall x :: x in rules[1..] ==> x.id != rules[0].id
  {
    var rest := rules[1..];
    forall i, j | 0 <= i < j < |rest| ensures rest[i].id != rest[j].id {
      assert rest[i] == rules[i + 1] && rest[j] == rules[j + 1];
    }
    forall x | x in rest ensures x.id != rules[0].id {
      var k :| 0 <= k < |rest| && rest[k] == x;
      assert rules[k + 1] == x;
    }
  }

  /** A row whose id no other row has can be put in front. */
  lemma DistinctCons(h: Rule, t: seq<Rule>)
    requires DistinctIds(t) && forall x :: x in t ==> x.id != h.id
    ensures DistinctIds([h] + t)
  {
    var r := [h] + t;
    forall i, j | 0 <= i < j < |r| ensures r[i].id != r[j].id {
      assert r[j] == t[j - 1];
      if i > 0 {
        assert r[i] == t[i - 1];
      }
    }
  }

  /** Deleting rows keeps the remaining ids distinct. */
  lemma {:induction false} RemoveRuleRowsDistinct(rules: seq<Rule>, id: string)
    requires DistinctIds(rules)
    ensures DistinctIds(RemoveRuleRows(rules, id))
  {
    if rules != [] {
      DistinctTail(rules);
      RemoveRuleRowsDistinct(rules[1..], id);
      if rules[0].id != id {
        DistinctCons(rules[0], RemoveRuleRows(rules[1..], id));
      }
    }
  }

  /** The index of the row with key `id`, if any. */
  function FindRule(rules: seq<Rule>, id: string): (r: Option<nat>)
    ensures r.Some? ==> r.value < |rules| && rules[r.value].id == id
    ensures r.None? ==> forall x :: x in rules ==> x.id != id
  {
    if rules == [] then None
    else if rules[0].id == id then Some(0)
    else match FindRule(rules[1..], id)
      case None => None
      case Some(i) => Some(i + 1)
  }

  /**
   * The rule table after gorm's Save: the row with the same key is replaced,
   * or the rule is inserted when no row has its key.
   */
  function UpsertRule(rules: seq<Rule>, rule: Rule): (r: seq<Rule>)
    ensures rule in r
    ensures forall x: Rule :: x.id != rule.id ==> (x in r <==> x in rules)
    ensures DistinctIds(rules) ==> DistinctIds(r) && forall x :: x in r && x.id == rule.id ==> x == rule
  {
    match FindRule(rules, rule.id)
    case Some(i) =>
      var r := rules[i := rule];
      assert r[i] == rule;
      assert forall x: Rule :: x.id != rule.id ==> (x in r <==> x in rules) by {
        forall x: Rule | x.id != rule.id ensures x in r <==> x in rules {
          if x in rules {
            var k :| 0 <= k < |rules| && rules[k] == x;
            assert r[k] == x;
          }
        }
      }
      r
    case None => rules + [rule]
  }

  // ---------------------------------------------------------------------------
  // Priority updates on the task table
  // ---------------------------------------------------------------------------

  /** The WHERE clauses of the three priority updates. */
  datatype Selector =
    | ById(id: string)
    | ByIds(ids: seq<string>)
    | ByFilters(workId: string, batchId: string, taskType: string, status: string)

  predicate Selects(sel: Selector, t: Task) {
    match sel
    case ById(id) => t.id == id
    case ByIds(ids) => t.id in ids
    case ByFilters(w, b, ty, s) =>
      && (w == "" || t.workId == w)
      && (b == "" || t.batchId == b)
      && (ty == "" || t.taskType == ty)
      && (s == "" || t.status == s)
  }

  /**
   * The task table after gorm's Update("priority", p) WHERE sel: the same
   * keys; the selected rows carry `p` and, as gorm also writes the
   * updated_at column, the time `now`; no other column of a selected row
   * and nothing of an unselected row changes.
   */
  function SetPriorityWhere(tasks: map<string, Task>, sel: Selector, p: int, now: int): (r: map<string, Task>)
    ensures r.Keys == tasks.Keys
    ensures forall id :: id in r ==> r[id].(priority := tasks[id].priority, updatedAt := tasks[id].updatedAt) == tasks[id]
    ensures forall id :: id in r && Selects(sel, tasks[id]) ==> r[id].priority == p && r[id].updatedAt == now
    ensures forall id :: id in r && !Selects(sel, tasks[id]) ==> r[id] == tasks[id]
  {
    map id | id in tasks :: if Selects(sel, tasks[id]) then tasks[id].(priority := p, updatedAt := now) else tasks[id]
  }

  /** A filter update with all four filters empty has no WHERE clause at all. */
  predicate NoFilter(workId: string, batchId: string, taskType: string, status: string) {
    workId == "" && batchId == "" && taskType == "" && status == ""
  }

  /**
   * UpdatePriorityByCondition selects exactly the tasks that a rule with the
   * same four filters would match in EvaluateRule.
   */
  lemma ConditionIsRuleFilter(w: string, b: string, ty: string, s: string, rule: Rule, t: Task)
    requires rule.workId == w && rule.batchId == b && rule.taskType == ty && rule.status == s
    ensures Selects(ByFilters(w, b, ty, s), t) <==> EvaluateRule(rule, t)
  {
  }

  // ---------------------------------------------------------------------------
  // GetPendingTasks: WHERE status = pending AND retry_count < max_retries
  //                  ORDER BY priority DESC, created_at ASC LIMIT n
  // ---------------------------------------------------------------------------

  predicate IsPending(t: Task) {
    t.status == StatusPending && t.retryCount < t.maxRetries
  }

  /** `a` may be listed before `b`: higher priority, or equal priority and created no later. */
  predicate PendingOrder(a: Task, b: Task) {
    a.priority > b.priority || (a.priority == b.priority && a.createdAt <= b.createdAt)
  }

  predicate SortedPending(s: seq<Task>) {
    forall i, j :: 0 <= i < j < |s| ==> PendingOrder(s[i], s[j])
  }

  function InsertPending(x: Task, s: seq<Task>): (r: seq<Task>)
    requires SortedPending(s)
    ensures |r| == |s| + 1 && (r[0] == x || (s != [] && r[0] == s[0]))
    ensures SortedPending(r)
    ensures multiset(r) == multiset(s) + multiset{x}
  {
    if s == [] || PendingOrder(x, s[0]) then [x] + s
    else
      assert s == [s[0]] + s[1..];
      [s[0]] + InsertPending(x, s[1..])
  }

  /** No task occurs twice. */
  ghost predicate Unique(s: seq<Task>) {
    forall t :: multiset(s)[t] <= 1
  }

  lemma InsertPendingUnique(x: Task, s: seq<Task>)
    requires SortedPending(s) && Unique(s) && x !in s
    ensures Unique(InsertPending(x, s))
    ensures forall y :: y in InsertPending(x, s) <==> y in s || y == x
  {
    var r := InsertPending(x, s);
    forall y ensures y in r <==> y in s || y == x {
      assert y in r <==> y in multiset(r);
      assert y in s <==> y in multiset(s);
    }
  }

  /** The first `n` elements of `s` (all of it when it is shorter): SQL LIMIT n. */
  function Take(s: seq<Task>, n: nat): (r: seq<Task>)
    ensures |r| <= n && |r| <= |s| && r == s[..|r|]
    ensures |r| < n ==> r == s
  {
    if |s| <= n then s else s[..n]
  }

  /** LIMIT keeps the head of the ordering: whatever it drops comes after all it keeps. */
  lemma TakeTopK(s: seq<Task>, n: nat)
    requires SortedPending(s) && Unique(s)
    ensures SortedPending(Take(s, n)) && Unique(Take(s, n))
    ensures forall x :: x in Take(s, n) ==> x in s
    ensures forall t :: t in s && t !in Take(s, n) ==>
      |Take(s, n)| == n && forall x :: x in Take(s, n) ==> PendingOrder(x, t)
  {
    var r := Take(s, n);
    if |s| > n {
      assert s == r + s[n..];
      assert multiset(s) == multiset(r) + multiset(s[n..]);
      forall t ensures multiset(r)[t] <= 1 {
        assert multiset(r)[t] <= multiset(s)[t];
      }
      forall x | x in r ensures x in s {
        assert x in multiset(r);
      }
      forall t | t in s && t !in r
        ensures forall x :: x in r ==> PendingOrder(x, t)
      {
        var k :| 0 <= k < |s| && s[k] == t;
        forall x | x in r ensures PendingOrder(x, t) {
          var i :| 0 <= i < |r| && r[i] == x;
          assert s[i] == x;
        }
      }
    }
  }

  // ---------------------------------------------------------------------------
  // The tables
  // ---------------------------------------------------------------------------

  class TaskRepository {
    var tasks: map<string, Task>
    var rules: seq<Rule>
    var groups: map<string, RuleGroup>
    var logs: seq<PriorityLog>

    /** Keys agree with the rows' ids, and rule ids are unique (the primary keys). */
    ghost predicate Valid()
      reads this
    {
      && (forall id :: id in tasks ==> tasks[id].id == id)
      && (forall id :: id in groups ==> groups[id].id == id)
      && DistinctIds(rules)
    }

    constructor ()
      ensures Valid()
      ensures tasks == map[] && rules == [] && groups == map[] && logs == []
    {
      tasks, rules, groups, logs := map[], [], map[], [];
    }

    /** GetRuleGroup: the group, or record-not-found. */
    function GetRuleGroup(id: string): (r: Result<RuleGroup, RepoError>)
      reads this
      ensures r.Ok? <==> id in groups
      ensures r.Ok? ==> r.value == groups[id]
      ensures r.Err? ==> r.error == RecordNotFound
    {
      if id in groups then Ok(groups[id]) else Err(RecordNotFound)
    }

    /**
     * GetApplicableRules: exactly the enabled rules that EvaluateRule accepts,
     * each as often as in the table, highest priority first.
     */
    function GetApplicableRules(task: Task): (r: seq<Rule>)
      reads this
      ensures SortedByPriorityDesc(r)
      ensures multiset(r) == multiset(QueryMatches(rules, task))
      ensures forall x :: x in r <==> x in rules && x.enabled && EvaluateRule(x, task)
    {
      var sorted := SortByPriorityDesc(QueryMatches(rules, task));
      assert forall x :: x in sorted <==> x in QueryMatches(rules, task) by {
        forall x ensures x in sorted <==> x in QueryMatches(rules, task) {
          assert x in sorted <==> x in multiset(sorted);
        }
      }
      sorted
    }

    /**
     * GetGroupRules: the existing rules whose id is in the group's list, in
     * row order. Ids of deleted rules are silently skipped.
     */
    function GetGroupRules(groupId: string): (r: Result<seq<Rule>, RepoError>)
      reads this
      ensures r.Err? <==> groupId !in groups
      ensures r.Err? ==> r.error == RecordNotFound
      ensures r.Ok? ==> forall x :: x in r.value <==> x in rules && x.id in groups[groupId].rules
    {
      match GetRuleGroup(groupId)
      case Err(e) => Err(e)
      case Ok(group) => Ok(RulesWithIds(rules, group.rules))
    }

    /**
     * EvaluateRuleGroup: the group's rules that EvaluateRule accepts, in the
     * order GetGroupRules returns them. Neither the group's nor the rules'
     * `enabled` flag is consulted.
     */
    method EvaluateRuleGroup(groupId: string, task: Task) returns (r: Result<seq<Rule>, RepoError>)
      ensures r.Err? <==> groupId !in groups
      ensures r.Err? ==> r.error == RecordNotFound
      ensures r.Ok? ==> r.value == Matching(GetGroupRules(groupId).value, task)
    {
      var fetched := GetGroupRules(groupId);
      if fetched.Err? {
        return Err(fetched.error);
      }
      var matched := KeepMatching(fetched.value, task);
      return Ok(matched);
    }

    /**
     * AddRuleToGroup: an unknown group is an error; a rule id already in the
     * list changes nothing; otherwise the id is appended. Nothing else changes.
     */
    method AddRuleToGroup(groupId: string, ruleId: string) returns (res: Outcome<RepoError>)
      requires Valid()
      modifies this
      ensures Valid()
      ensures tasks == old(tasks) && rules == old(rules) && logs == old(logs)
      ensures groupId !in old(groups) ==> res == Fail(RecordNotFound) && groups == old(groups)
      ensures groupId in old(groups) ==>
        && res == Pass
        && groups == old(groups)[groupId := old(groups)[groupId].(rules := AddOnce(old(groups)[groupId].rules, ruleId))]
    {
      var fetched := GetRuleGroup(groupId);
      if fetched.Err? {
        return Fail(fetched.error);
      }
      var group := fetched.value;
      var i := 0;
      while i < |group.rules|
        invariant 0 <= i <= |group.rules|
        invariant ruleId !in group.rules[..i]
      {
        if group.rules[i] == ruleId {
          assert groups == groups[groupId := group];
          return Pass;
        }
        assert group.rules[..i + 1] == group.rules[..i] + [group.rules[i]];
        i := i + 1;
      }
      assert group.rules[..i] == group.rules;
      groups := groups[groupId := group.(rules := group.rules + [ruleId])];
      return Pass;
    }

    /**
     * RemoveRuleFromGroup: an unknown group is an error; otherwise every
     * occurrence of the rule id is dropped and the other ids keep their order.
     */
    method RemoveRuleFromGroup(groupId: string, ruleId: string) returns (res: Outcome<RepoError>)
      requires Valid()
      modifies this
      ensures Valid()
      ensures tasks == old(tasks) && rules == old(rules) && logs == old(logs)
      ensures groupId !in old(groups) ==> res == Fail(RecordNotFound) && groups == old(groups)
      ensures groupId in old(groups) ==>
        && res == Pass
        && groups == old(groups)[groupId := old(groups)[groupId].(rules := Without(old(groups)[groupId].rules, ruleId))]
    {
      var fetched := GetRuleGroup(groupId);
      if fetched.Err? {
        return Fail(fetched.error);
      }
      var group := fetched.value;
      var newRules: seq<string> := [];
      var i := 0;
      while i < |group.rules|
        invariant 0 <= i <= |group.rules|
        invariant newRules == Without(group.rules[..i], ruleId)
      {
        assert group.rules[..i + 1][..i] == group.rules[..i];
        if group.rules[i] != ruleId {
          newRules := newRules + [group.rules[i]];
        }
        i := i + 1;
      }
      assert group.rules[..i] == group.rules;
      groups := groups[groupId := group.(rules := newRules)];
      return Pass;
    }

    /** CreatePriorityRule: inserts the rule; a rule with the same key is a duplicate-key error. */
    method CreatePriorityRule(rule: Rule) returns (res: Outcome<RepoError>)
      requires Valid()
      modifies this
      ensures Valid()
      ensures tasks == old(tasks) && groups == old(groups) && logs == old(logs)
      ensures (exists x :: x in old(rules) && x.id == rule.id) ==> res == Fail(DuplicateKey) && rules == old(rules)
      ensures (forall x :: x in old(rules) ==> x.id != rule.id) ==> res == Pass && rules == old(rules) + [rule]
    {
      if FindRule(rules, rule.id).Some? {
        return Fail(DuplicateKey);
      }
      rules := rules + [rule];
      return Pass;
    }

    /** UpdatePriorityRule (gorm Save): replaces the row with the rule's key, or inserts it. */
    method UpdatePriorityRule(rule: Rule)
      requires Valid()
      modifies this
      ensures Valid()
      ensures tasks == old(tasks) && groups == old(groups) && logs == old(logs)
      ensures rules == UpsertRule(old(rules), rule)
    {
      rules := UpsertRule(rules, rule);
    }

    /**
     * DeletePriorityRule: removes the rule row only. Groups keep the id,
     * which GetGroupRules then skips.
     */
    method DeletePriorityRule(id: string)
      requires Valid()
      modifies this
      ensures Valid()
      ensures tasks == old(tasks) && groups == old(groups) && logs == old(logs)
      ensures rules == RemoveRuleRows(old(rules), id)
    {
      RemoveRuleRowsDistinct(rules, id);
      rules := RemoveRuleRows(rules, id);
    }

    /** UpdatePriority: sets the priority of the task with that id, if there is one. */
    method UpdatePriority(id: string, p: int, now: int)
      requires Valid()
      modifies this
      ensures Valid()
      ensures rules == old(rules) && groups == old(groups) && logs == old(logs)
      ensures tasks == SetPriorityWhere(old(tasks), ById(id), p, now)
    {
      tasks := SetPriorityWhere(tasks, ById(id), p, now);
    }

    /** BatchUpdatePriority: sets the priority of exactly the listed tasks; writes no log. */
    method BatchUpdatePriority(ids: seq<string>, p: int, now: int)
      requires Valid()
      modifies this
      ensures Valid()
      ensures rules == old(rules) && groups == old(groups) && logs == old(logs)
      ensures tasks == SetPriorityWhere(old(tasks), ByIds(ids), p, now)
    {
      tasks := SetPriorityWhere(tasks, ByIds(ids), p, now);
    }

    /**
     * UpdatePriorityByCondition: sets the priority of the tasks matching all
     * non-empty filters; writes no log. With all four filters empty the
     * query has no WHERE clause, which gorm refuses without touching a row.
     */
    method UpdatePriorityByCondition(workId: string, batchId: string, taskType: string, status: string, p: int, now: int)
      returns (res: Outcome<RepoError>)
      requires Valid()
      modifies this
      ensures Valid()
      ensures rules == old(rules) && groups == old(groups) && logs == old(logs)
      ensures NoFilter(workId, batchId, taskType, status) ==> res == Fail(MissingWhereClause) && tasks == old(tasks)
      ensures !NoFilter(workId, batchId, taskType, status) ==>
        res == Pass && tasks == SetPriorityWhere(old(tasks), ByFilters(workId, batchId, taskType, status), p, now)
    {
      if NoFilter(workId, batchId, taskType, status) {
        return Fail(MissingWhereClause);
      }
      tasks := SetPriorityWhere(tasks, ByFilters(workId, batchId, taskType, status), p, now);
      return Pass;
    }

    /** CreatePriorityLog: appends one entry to the log. */
    method CreatePriorityLog(entry: PriorityLog)
      requires Valid()
      modifies this
      ensures Valid()
      ensures tasks == old(tasks) && rules == old(rules) && groups == old(groups)
      ensures logs == old(logs) + [entry]
    {
      logs := logs + [entry];
    }

    /**
     * GetPendingTasks: at most `limit` distinct pending tasks with retries
     * left, highest priority then oldest first; a qualifying task is left
     * out only when the limit is reached by tasks that may precede it.
     */
    method GetPendingTasks(limit: nat) returns (r: seq<Task>)
      requires Valid()
      ensures |r| <= limit
      ensures SortedPending(r)
      ensures forall t :: t in r ==> t in tasks.Values && IsPending(t)
      ensures Unique(r)
      ensures forall t :: t in tasks.Values && IsPending(t) && t !in r ==>
        |r| == limit && forall x :: x in r ==> PendingOrder(x, t)
    {
      var sorted: seq<Task> := [];
      var rest := tasks.Keys;
      while rest != {}
        invariant rest <= tasks.Keys
        invariant SortedPending(sorted) && Unique(sorted)
        invariant forall t :: t in sorted <==> t in tasks.Values && IsPending(t) && t.id !in rest
        decreases rest
      {
        var id :| id in rest;
        rest := rest - {id};
        var t := tasks[id];
        if IsPending(t) {
          InsertPendingUnique(t, sorted);
          sorted := InsertPending(t, sorted);
        }
      }
      TakeTopK(sorted, limit);
      r := Take(sorted, limit);
    }
  }
}
