/** The search and filter step of `refresh_tasks`: the stored tasks narrowed by
    a keyword, a priority and a completion status, combined with AND. */
module Filter {
  import opened Tasks
  import opened Text

  /** The first item of the priority drop-down, which disables that filter. */
  const AllPriorities := "All Priorities"
  /** The items of the status drop-down. */
  const StatusAll := "All"
  const StatusCompleted := "Completed"
  const StatusIncomplete := "Incomplete"

  /** What the search bar and the two drop-downs show. */
  datatype Criteria = Criteria(search: string, priority: string, status: string)

  /** The widgets' initial state: empty search text and the first item of
      each drop-down. */
  const NoCriteria := Criteria("", AllPriorities, StatusAll)

  /** A Python list comprehension `[t for t in ts if keep(t)]`. */
  function Select(ts: seq<Task>, keep: Task -> bool): (r: seq<Task>)
    ensures |r| <= |ts|
    ensures forall t :: t in r ==> t in ts && keep(t)
  {
    if ts == [] then []
    else (if keep(ts[0]) then [ts[0]] else []) + Select(ts[1..], keep)
  }

  /** The keyword test; `keyword` is already lower-cased. */
  predicate KeywordMatch(t: Task, keyword: string) {
    Contains(Lower(t.title), keyword) || Contains(Lower(t.description), keyword)
  }

  /** The first pass: `keyword in task.title.lower() or keyword in
      task.description.lower()`, skipped when the lower-cased search text is
      empty. */
  function KeywordPass(ts: seq<Task>, c: Criteria): (r: seq<Task>)
    ensures |r| <= |ts|
    ensures forall t :: t in r ==> t in ts && KeywordOk(t, c)
  {
    var keyword := Lower(c.search);
    if keyword != "" then Select(ts, (t: Task) => KeywordMatch(t, keyword)) else ts
  }

  /** The second pass: exact priority, skipped for "All Priorities". */
  function PriorityPass(ts: seq<Task>, c: Criteria): (r: seq<Task>)
    ensures |r| <= |ts|
    ensures forall t :: t in r ==> t in ts && PriorityOk(t, c)
  {
    if c.priority != AllPriorities then Select(ts, (t: Task) => t.priority == c.priority) else ts
  }

  /** The third pass: "Completed", "Incomplete", or anything else for all. */
  function StatusPass(ts: seq<Task>, c: Criteria): (r: seq<Task>)
    ensures |r| <= |ts|
    ensures forall t :: t in r ==> t in ts && StatusOk(t, c)
  {
    if c.status == StatusCompleted then Select(ts, (t: Task) => t.completed)
    else if c.status == StatusIncomplete then Select(ts, (t: Task) => !t.completed)
    else ts
  }

  /** `refresh_tasks` as written: the three passes one after another. */
  function Refresh(ts: seq<Task>, c: Criteria): (r: seq<Task>)
    ensures |r| <= |ts|
    ensures forall t :: t in r ==> t in ts && Matches(t, c)
  {
    StatusPass(PriorityPass(KeywordPass(ts, c), c), c)
  }

  /** The three conditions a task must meet to be shown, stated independently
      of the passes. */
  predicate KeywordOk(t: Task, c: Criteria) {
    Lower(c.search) == "" || KeywordMatch(t, Lower(c.search))
  }

  predicate PriorityOk(t: Task, c: Criteria) {
    c.priority == AllPriorities || t.priority == c.priority
  }

  predicate StatusOk(t: Task, c: Criteria) {
    (c.status == StatusCompleted ==> t.completed) && (c.status == StatusIncomplete ==> !t.completed)
  }

  predicate Matches(t: Task, c: Criteria) {
    KeywordOk(t, c) && PriorityOk(t, c) && StatusOk(t, c)
  }

  // ---------------------------------------------------------------------------
  // Properties of Select

  /** Selection keeps exactly the elements that pass the test. */
  lemma {:induction false} SelectMembers(ts: seq<Task>, keep: Task -> bool)
    ensures forall t :: t in Select(ts, keep) <==> t in ts && keep(t)
  {
    if ts != [] {
      SelectMembers(ts[1..], keep);
      assert ts == [ts[0]] + ts[1..];
    }
  }

  /** Two tests that agree on the elements select the same elements. */
  lemma {:induction false} SelectAgree(ts: seq<Task>, p: Task -> bool, q: Task -> bool)
    requires forall t :: t in ts ==> p(t) == q(t)
    ensures Select(ts, p) == Select(ts, q)
  {
    if ts != [] {
      SelectAgree(ts[1..], p, q);
    }
  }

  /** A test every element passes keeps the whole sequence. */
  lemma {:induction false} SelectEverything(ts: seq<Task>, p: Task -> bool)
    requires forall t :: t in ts ==> p(t)
    ensures Select(ts, p) == ts
  {
    if ts != [] {
      SelectEverything(ts[1..], p);
    }
  }

  /** Selecting by `p` and then by `q` is selecting once by `p and q`. */
  lemma {:induction false} SelectThenSelect(ts: seq<Task>, p: Task -> bool, q: Task -> bool, both: Task -> bool)
    requires forall t :: both(t) == (p(t) && q(t))
    ensures Select(Select(ts, p), q) == Select(ts, both)
  {
    if ts != [] {
      SelectThenSelect(ts[1..], p, q, both);
      if p(ts[0]) {
        var s := [ts[0]] + Select(ts[1..], p);
        assert Select(ts, p) == s;
        assert s[0] == ts[0] && s[1..] == Select(ts[1..], p);
      } else {
        assert Select(ts, p) == Select(ts[1..], p);
      }
    }
  }

  /** Selection keeps the selected elements in their original order. */
  lemma {:induction false} SelectIsSubsequence(ts: seq<Task>, p: Task -> bool)
    ensures IsSubsequence(Select(ts, p), ts)
  {
    if ts != [] {
      SelectIsSubsequence(ts[1..], p);
      if p(ts[0]) {
        var s := [ts[0]] + Select(ts[1..], p);
        assert Select(ts, p) == s;
        assert s[0] == ts[0] && s[1..] == Select(ts[1..], p);
      } else {
        assert Select(ts, p) == Select(ts[1..], p);
      }
    }
  }

  // ---------------------------------------------------------------------------
  // Properties of the refresh filter

  lemma KeywordPassSelects(ts: seq<Task>, c: Criteria, k: Task -> bool)
    requires forall t :: k(t) == KeywordOk(t, c)
    ensures KeywordPass(ts, c) == Select(ts, k)
  {
    var keyword := Lower(c.search);
    if keyword != "" {
      SelectAgree(ts, (t: Task) => KeywordMatch(t, keyword), k);
    } else {
      SelectEverything(ts, k);
    }
  }

  lemma PriorityPassSelects(ts: seq<Task>, c: Criteria, p: Task -> bool)
    requires forall t :: p(t) == PriorityOk(t, c)
    ensures PriorityPass(ts, c) == Select(ts, p)
  {
    if c.priority != AllPriorities {
      SelectAgree(ts, (t: Task) => t.priority == c.priority, p);
    } else {
      SelectEverything(ts, p);
    }
  }

  lemma StatusPassSelects(ts: seq<Task>, c: Criteria, s: Task -> bool)
    requires forall t :: s(t) == StatusOk(t, c)
    ensures StatusPass(ts, c) == Select(ts, s)
  {
    if c.status == StatusCompleted {
      SelectAgree(ts, (t: Task) => t.completed, s);
    } else if c.status == StatusIncomplete {
      SelectAgree(ts, (t: Task) => !t.completed, s);
    } else {
      SelectEverything(ts, s);
    }
  }

  /** The three passes together select exactly the tasks that meet all three
      conditions. */
  lemma RefreshSelectsMatches(ts: seq<Task>, c: Criteria, m: Task -> bool)
    requires forall t :: m(t) == Matches(t, c)
    ensures Refresh(ts, c) == Select(ts, m)
  {
    var k := (t: Task) => KeywordOk(t, c);
    var p := (t: Task) => PriorityOk(t, c);
    var s := (t: Task) => StatusOk(t, c);
    var kp := (t: Task) => KeywordOk(t, c) && PriorityOk(t, c);
    KeywordPassSelects(ts, c, k);
    PriorityPassSelects(KeywordPass(ts, c), c, p);
    SelectThenSelect(ts, k, p, kp);
    StatusPassSelects(PriorityPass(KeywordPass(ts, c), c), c, s);
    SelectThenSelect(ts, kp, s, m);
  }

  /** Soundness and completeness: a task is shown exactly when it is stored
      and meets all three conditions. */
  lemma RefreshMembers(ts: seq<Task>, c: Criteria, t: Task)
    ensures t in Refresh(ts, c) <==> t in ts && Matches(t, c)
  {
    var m := (u: Task) => Matches(u, c);
    RefreshSelectsMatches(ts, c, m);
    SelectMembers(ts, m);
  }

  /** The shown tasks are the stored ones with some left out, in store order. */
  lemma RefreshIsSubsequence(ts: seq<Task>, c: Criteria)
    ensures IsSubsequence(Refresh(ts, c), ts)
  {
    var m := (t: Task) => Matches(t, c);
    RefreshSelectsMatches(ts, c, m);
    SelectIsSubsequence(ts, m);
  }

  /** With empty search text, "All Priorities" and "All", everything is shown
      in store order. */
  lemma RefreshIdentity(ts: seq<Task>)
    ensures Refresh(ts, NoCriteria) == ts
  {
  }

  /** Filtering what is shown again with the same criteria changes nothing. */
  lemma RefreshIdempotent(ts: seq<Task>, c: Criteria)
    ensures Refresh(Refresh(ts, c), c) == Refresh(ts, c)
  {
    var m := (t: Task) => Matches(t, c);
    RefreshSelectsMatches(ts, c, m);
    RefreshSelectsMatches(Refresh(ts, c), c, m);
    SelectThenSelect(ts, m, m, m);
  }

  /** Upper and lower case in the search text and in the task make no
      difference: the keyword is tested against the lower-cased title and
      description. */
  lemma KeywordIgnoresCase(t: Task, u: Task, c: Criteria, d: Criteria)
    requires Lower(t.title) == Lower(u.title) && Lower(t.description) == Lower(u.description)
    requires Lower(c.search) == Lower(d.search)
    ensures KeywordOk(t, c) <==> KeywordOk(u, d)
  {
  }

  /** Two tasks, one "Low" and one "High": filtering on "High" shows the
      "High" one alone. */
  lemma RefreshByPriorityExample(low: Task, high: Task)
    requires low.priority == "Low" && high.priority == "High"
    ensures Refresh([low, high], Criteria("", "High", StatusAll)) == [high]
  {
    var c := Criteria("", "High", StatusAll);
    assert Lower(c.search) == "";
    assert KeywordPass([low, high], c) == [low, high];
    var p := (t: Task) => t.priority == c.priority;
    assert [low, high][1..] == [high];
    assert Select([high], p) == [high] + Select([], p);
    assert Select([low, high], p) == [] + Select([high], p);
    assert PriorityPass([low, high], c) == [high];
  }
}
