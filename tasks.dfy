/**
 * The task list of the widget as a value, and the list operations its
 * handlers perform: Array.prototype.filter (for the view and for the delete
 * commit), Array.prototype.find (for toggle), the edit commit's write to the
 * task being edited, found here by its id, and the view's filter
 * predicate.
 */
module Tasks {
  import opened Wrappers

  datatype Task = Task(id: int, text: string, completed: bool)

  /** The ids of `s`, in order. */
  function Ids(s: seq<Task>): (r: seq<int>)
    ensures |r| == |s|
    ensures forall k :: 0 <= k < |s| ==> r[k] == s[k].id
  {
    if s == [] then [] else [s[0].id] + Ids(s[1..])
  }

  /** Lists whose tasks agree on their ids position by position have the same ids. */
  lemma SameIds(r: seq<Task>, s: seq<Task>)
    requires |r| == |s| && forall k :: 0 <= k < |s| ==> r[k].id == s[k].id
    ensures Ids(r) == Ids(s)
  {
  }

  /** No two tasks of `s` share an id. */
  ghost predicate UniqueIds(s: seq<Task>)
  {
    forall i, j :: 0 <= i < j < |s| ==> s[i].id != s[j].id
  }

  /** `a` is `b` with some elements dropped, the rest kept in order. */
  ghost predicate IsSubsequence(a: seq<Task>, b: seq<Task>)
    decreases |b|
  {
    if a == [] then true
    else if b == [] then false
    else (a[0] == b[0] && IsSubsequence(a[1..], b[1..])) || IsSubsequence(a, b[1..])
  }

  // ---------------------------------------------------------------------
  // Array.prototype.filter
  // ---------------------------------------------------------------------

  /** The tasks of `s` that satisfy `p`, in their order in `s`. */
  function Keep(s: seq<Task>, p: Task -> bool): (r: seq<Task>)
    ensures |r| <= |s|
    ensures forall t :: t in r <==> t in s && p(t)
    decreases |s|
  {
    if s == [] then []
    else (if p(s[0]) then [s[0]] else []) + Keep(s[1..], p)
  }

  lemma {:induction false} KeepIsSubsequence(s: seq<Task>, p: Task -> bool)
    ensures IsSubsequence(Keep(s, p), s)
    decreases |s|
  {
    if s != [] {
      KeepIsSubsequence(s[1..], p);
      var r := Keep(s, p);
      if p(s[0]) {
        assert r[0] == s[0] && r[1..] == Keep(s[1..], p);
      } else {
        assert r == Keep(s[1..], p);
        if r != [] { SubsequenceDropFront(r, s); }
      }
    }
  }

  /** A subsequence of the tail is a subsequence of the whole. */
  lemma SubsequenceDropFront(a: seq<Task>, b: seq<Task>)
    requires b != [] && a != []
    requires IsSubsequence(a, b[1..])
    ensures IsSubsequence(a, b)
  {
  }

  /** Filtering by a predicate that every task meets returns the list itself. */
  lemma {:induction false} KeepAll(s: seq<Task>, p: Task -> bool)
    requires forall t :: t in s ==> p(t)
    ensures Keep(s, p) == s
    decreases |s|
  {
    if s != [] {
      assert forall t :: t in s[1..] ==> t in s;
      KeepAll(s[1..], p);
      assert [s[0]] + s[1..] == s;
    }
  }

  /** Filtering twice by the same predicate is filtering once. */
  lemma KeepIdempotent(s: seq<Task>, p: Task -> bool)
    ensures Keep(Keep(s, p), p) == Keep(s, p)
  {
    KeepAll(Keep(s, p), p);
  }

  /** A filtered list of distinct ids has distinct ids. */
  lemma {:induction false} KeepUnique(s: seq<Task>, p: Task -> bool)
    requires UniqueIds(s)
    ensures UniqueIds(Keep(s, p))
    decreases |s|
  {
    if s != [] {
      assert UniqueIds(s[1..]) by {
        forall i, j | 0 <= i < j < |s[1..]| ensures s[1..][i].id != s[1..][j].id {
          assert s[1..][i] == s[i + 1] && s[1..][j] == s[j + 1];
        }
      }
      KeepUnique(s[1..], p);
      var tail := Keep(s[1..], p);
      if p(s[0]) {
        var r := [s[0]] + tail;
        forall i, j | 0 <= i < j < |r| ensures r[i].id != r[j].id {
          if i == 0 {
            assert r[j] == tail[j - 1] && r[j] in s[1..];
            var m :| 0 <= m < |s[1..]| && s[1..][m] == r[j];
            assert s[m + 1] == r[j];
          } else {
            assert r[i] == tail[i - 1] && r[j] == tail[j - 1];
          }
        }
      }
    }
  }

  /** Filtering by `p` and by its negation splits the list in two. */
  lemma {:induction false} KeepSplit(s: seq<Task>, p: Task -> bool, q: Task -> bool)
    requires forall t :: q(t) == !p(t)
    ensures multiset(Keep(s, p)) + multiset(Keep(s, q)) == multiset(s)
    ensures |Keep(s, p)| + |Keep(s, q)| == |s|
    decreases |s|
  {
    if s != [] {
      KeepSplit(s[1..], p, q);
      assert s == [s[0]] + s[1..];
    }
  }

  // ---------------------------------------------------------------------
  // The view filter (renderTasks)
  // ---------------------------------------------------------------------

  /** Whether a task is shown under the filter value `filter`. */
  predicate Passes(t: Task, filter: string)
  {
    if filter == "pending" then !t.completed
    else if filter == "completed" then t.completed
    else true
  }

  /** The predicate passed to `tasks.filter` by the view. */
  function Shows(filter: string): Task -> bool
  {
    t => Passes(t, filter)
  }

  /** The rows the view shows, in order. */
  function Filtered(tasks: seq<Task>, filter: string): (r: seq<Task>)
    ensures |r| <= |tasks|
    ensures forall t :: t in r <==> t in tasks && Passes(t, filter)
  {
    Keep(tasks, Shows(filter))
  }

  /** The view is an order-preserving selection of the list. */
  lemma FilteredIsSubsequence(tasks: seq<Task>, filter: string)
    ensures IsSubsequence(Filtered(tasks, filter), tasks)
  {
    KeepIsSubsequence(tasks, Shows(filter));
  }

  /** Every filter value other than "pending" and "completed" (such as "all") shows every task. */
  lemma FilteredOther(tasks: seq<Task>, filter: string)
    requires filter != "pending" && filter != "completed"
    ensures Filtered(tasks, filter) == tasks
  {
    KeepAll(tasks, Shows(filter));
  }

  /** The "pending" and "completed" views partition the list. */
  lemma FilteredPartition(tasks: seq<Task>)
    ensures multiset(Filtered(tasks, "pending")) + multiset(Filtered(tasks, "completed")) == multiset(tasks)
    ensures |Filtered(tasks, "pending")| + |Filtered(tasks, "completed")| == |tasks|
  {
    KeepSplit(tasks, Shows("pending"), Shows("completed"));
  }

  /** Re-rendering the view of the view changes nothing. */
  lemma FilteredIdempotent(tasks: seq<Task>, filter: string)
    ensures Filtered(Filtered(tasks, filter), filter) == Filtered(tasks, filter)
  {
    KeepIdempotent(tasks, Shows(filter));
  }

  /** A row with `id` is rendered (querySelector finds it) iff `view` holds a task with that id. */
  predicate HasRow(view: seq<Task>, id: int)
  {
    exists t :: t in view && t.id == id
  }

  /** The row for `id` is rendered iff the list has a task with that id that passes the filter. */
  lemma HasRowIff(tasks: seq<Task>, filter: string, id: int)
    ensures HasRow(Filtered(tasks, filter), id) <==>
            exists k :: 0 <= k < |tasks| && tasks[k].id == id && Passes(tasks[k], filter)
  {
    if HasRow(Filtered(tasks, filter), id) {
      var t :| t in Filtered(tasks, filter) && t.id == id;
      var k :| 0 <= k < |tasks| && tasks[k] == t;
      assert tasks[k].id == id && Passes(tasks[k], filter);
    }
  }

  // ---------------------------------------------------------------------
  // Array.prototype.find, and the in-place field updates of toggle and edit
  // ---------------------------------------------------------------------

  /** The position of the first task with `id`, if any. */
  function FindFirst(s: seq<Task>, id: int): (r: Option<nat>)
    ensures r.Some? ==> r.value < |s| && s[r.value].id == id &&
                        forall j :: 0 <= j < r.value ==> s[j].id != id
    ensures r.None? <==> forall j :: 0 <= j < |s| ==> s[j].id != id
  {
    if s == [] then None
    else if s[0].id == id then Some(0)
    else match FindFirst(s[1..], id)
      case None => None
      case Some(k) => Some(k + 1)
  }

  /** Where the first match is depends on the ids alone. */
  lemma {:induction false} FindFirstByIds(s: seq<Task>, u: seq<Task>, id: int)
    requires Ids(s) == Ids(u)
    ensures FindFirst(s, id) == FindFirst(u, id)
    decreases |s|
  {
    if s != [] {
      assert |u| == |s| && Ids(s)[0] == Ids(u)[0];
      assert Ids(s[1..]) == Ids(u[1..]) by {
        forall k | 0 <= k < |s| - 1 ensures Ids(s[1..])[k] == Ids(u[1..])[k] {
          assert Ids(s)[k + 1] == Ids(u)[k + 1];
        }
      }
      FindFirstByIds(s[1..], u[1..], id);
    }
  }

  /** With distinct ids, the first task with `id` is the only one. */
  lemma FindFirstUnique(s: seq<Task>, id: int, k: nat)
    requires UniqueIds(s)
    requires k < |s| && s[k].id == id
    ensures FindFirst(s, id) == Some(k)
  {
  }

  /** toggleTaskCompletion: flip `completed` on the first task with `id`. */
  function Toggled(s: seq<Task>, id: int): (r: seq<Task>)
    ensures |r| == |s| && Ids(r) == Ids(s)
    ensures forall k :: 0 <= k < |s| ==> r[k].text == s[k].text
    ensures FindFirst(s, id).None? ==> r == s
    ensures FindFirst(s, id).Some? ==>
              var k := FindFirst(s, id).value;
              r[k].completed == !s[k].completed &&
              forall j :: 0 <= j < |s| && j != k ==> r[j] == s[j]
  {
    match FindFirst(s, id)
    case None => s
    case Some(k) =>
      var r := s[k := s[k].(completed := !s[k].completed)];
      SameIds(r, s);
      r
  }

  /** Toggling the same id twice gives the original list back. */
  lemma ToggleInvolution(s: seq<Task>, id: int)
    ensures Toggled(Toggled(s, id), id) == s
  {
    FindFirstByIds(Toggled(s, id), s, id);
  }

  /** The edit commit's update: set `text` on the task being edited, taken to be the first task with `id`. */
  function Retexted(s: seq<Task>, id: int, text: string): (r: seq<Task>)
    ensures |r| == |s| && Ids(r) == Ids(s)
    ensures forall k :: 0 <= k < |s| ==> r[k].completed == s[k].completed
    ensures FindFirst(s, id).None? ==> r == s
    ensures FindFirst(s, id).Some? ==>
              var k := FindFirst(s, id).value;
              r[k].text == text &&
              forall j :: 0 <= j < |s| && j != k ==> r[j] == s[j]
  {
    match FindFirst(s, id)
    case None => s
    case Some(k) =>
      var r := s[k := s[k].(text := text)];
      SameIds(r, s);
      r
  }

  /** Committing the same edit twice is committing it once. */
  lemma RetextIdempotent(s: seq<Task>, id: int, text: string)
    ensures Retexted(Retexted(s, id, text), id, text) == Retexted(s, id, text)
  {
    FindFirstByIds(Retexted(s, id, text), s, id);
  }

  // ---------------------------------------------------------------------
  // The delete commit
  // ---------------------------------------------------------------------

  /** The predicate `t => t.id !== id` of the delete commit. */
  function IdIsNot(id: int): Task -> bool
  {
    (t: Task) => t.id != id
  }

  /** `tasks.filter(t => t.id !== id)`. */
  function Without(s: seq<Task>, id: int): (r: seq<Task>)
    ensures |r| <= |s|
    ensures forall t :: t in r <==> t in s && t.id != id
  {
    Keep(s, IdIsNot(id))
  }

  /** The delete commit keeps the survivors in their original order. */
  lemma WithoutIsSubsequence(s: seq<Task>, id: int)
    ensures IsSubsequence(Without(s, id), s)
  {
    KeepIsSubsequence(s, IdIsNot(id));
  }

  /** A second delete commit of the same id changes nothing. */
  lemma WithoutIdempotent(s: seq<Task>, id: int)
    ensures Without(Without(s, id), id) == Without(s, id)
  {
    KeepIdempotent(s, IdIsNot(id));
  }

  /** Deleting an id that no task has leaves the list as it is. */
  lemma WithoutAbsent(s: seq<Task>, id: int)
    requires FindFirst(s, id).None?
    ensures Without(s, id) == s
  {
    KeepAll(s, IdIsNot(id));
  }

  /** With distinct ids, deleting a present id removes exactly one task. */
  lemma {:induction false} WithoutUnique(s: seq<Task>, id: int)
    requires UniqueIds(s) && FindFirst(s, id).Some?
    ensures |Without(s, id)| == |s| - 1
    decreases |s|
  {
    var k := FindFirst(s, id).value;
    if k == 0 {
      assert FindFirst(s[1..], id).None? by {
        forall j | 0 <= j < |s[1..]| ensures s[1..][j].id != id {
          assert s[1..][j] == s[j + 1];
        }
      }
      WithoutAbsent(s[1..], id);
      assert Without(s, id) == Keep(s[1..], IdIsNot(id));
    } else {
      assert s[1..][k - 1] == s[k];
      assert FindFirst(s[1..], id).Some?;
      assert UniqueIds(s[1..]) by {
        forall i, j | 0 <= i < j < |s[1..]| ensures s[1..][i].id != s[1..][j].id {
          assert s[1..][i] == s[i + 1] && s[1..][j] == s[j + 1];
        }
      }
      WithoutUnique(s[1..], id);
      assert Without(s, id) == [s[0]] + Keep(s[1..], IdIsNot(id));
    }
  }

  // ---------------------------------------------------------------------
  // Distinct ids, which the code itself does not enforce
  // ---------------------------------------------------------------------

  /** Every store operation keeps ids distinct, provided a new task's id is not already used. */
  lemma StoreKeepsIdsUnique(s: seq<Task>, t: Task, id: int, text: string)
    requires UniqueIds(s)
    ensures FindFirst(s, t.id).None? ==> UniqueIds([t] + s)
    ensures UniqueIds(Toggled(s, id))
    ensures UniqueIds(Retexted(s, id, text))
    ensures UniqueIds(Without(s, id))
  {
    if FindFirst(s, t.id).None? {
      var r := [t] + s;
      forall i, j | 0 <= i < j < |r| ensures r[i].id != r[j].id {
        assert r[j] == s[j - 1];
        if i > 0 { assert r[i] == s[i - 1]; }
      }
    }
    var a, b := Toggled(s, id), Retexted(s, id, text);
    forall i, j | 0 <= i < j < |s| ensures a[i].id != a[j].id && b[i].id != b[j].id {
      assert Ids(a)[i] == Ids(s)[i] && Ids(a)[j] == Ids(s)[j];
      assert Ids(b)[i] == Ids(s)[i] && Ids(b)[j] == Ids(s)[j];
    }
    KeepUnique(s, IdIsNot(id));
  }

  /** Adding a task with a fresh id, toggling it and deleting it gives the original list back. */
  lemma AddToggleDelete(s: seq<Task>, id: int, text: string)
    requires FindFirst(s, id).None?
    ensures Without(Toggled([Task(id, text, false)] + s, id), id) == s
  {
    var u := Toggled([Task(id, text, false)] + s, id);
    assert FindFirst([Task(id, text, false)] + s, id) == Some(0);
    assert u == [Task(id, text, true)] + s;
    assert Without(u, id) == Keep(s, IdIsNot(id));
    WithoutAbsent(s, id);
  }
}
