/**
 * The task record, the search filter over the task list, and the three local list
 * updates the table applies after a request to the store: append, replace by id and
 * remove by id.
 */
module Tasks {

  import opened Wrappers
  import opened Text

  /** The store-assigned `_id`. */
  type Id = string

  /**
   * One task as the store returns it. Every field but the id may be absent
   * (JavaScript `undefined` or `null`).
   */
  datatype Task = Task(
    id: Id,
    assignedTo: Option<string>,
    status: Option<string>,
    dueDate: Option<string>,
    priority: Option<string>,
    comments: Option<seq<string>>)

  // ---------------------------------------------------------------------------
  // Search filter
  // ---------------------------------------------------------------------------

  /** `field?.toLowerCase().includes(query.toLowerCase())`: an absent field never matches. */
  predicate FieldMatches(field: Option<string>, query: string)
  {
    field.Some? && ContainsIgnoreCase(field.value, query)
  }

  /** `comments?.some(c => c.toLowerCase().includes(query.toLowerCase()))` */
  predicate CommentsMatch(comments: Option<seq<string>>, query: string)
  {
    comments.Some? && exists i :: 0 <= i < |comments.value| && ContainsIgnoreCase(comments.value[i], query)
  }

  /** The filter's predicate: any of assignee, status, priority or a comment contains the query. */
  predicate Matches(t: Task, query: string)
  {
    || FieldMatches(t.assignedTo, query)
    || FieldMatches(t.status, query)
    || FieldMatches(t.priority, query)
    || CommentsMatch(t.comments, query)
  }

  /** A task with something the filter can look at. */
  predicate HasSearchableField(t: Task)
  {
    t.assignedTo.Some? || t.status.Some? || t.priority.Some? || (t.comments.Some? && t.comments.value != [])
  }

  /**
   * The empty query keeps exactly the tasks that have a present field or a non-empty
   * comment list: a task whose fields are all absent is dropped even then.
   */
  lemma EmptyQueryMatches(t: Task)
    ensures Matches(t, "") <==> HasSearchableField(t)
  {
    if t.assignedTo.Some? { IncludesEmpty(Lower(t.assignedTo.value)); }
    if t.status.Some? { IncludesEmpty(Lower(t.status.value)); }
    if t.priority.Some? { IncludesEmpty(Lower(t.priority.value)); }
    if t.comments.Some? && t.comments.value != [] {
      IncludesEmpty(Lower(t.comments.value[0]));
    }
  }

  /** The filter does not see the case of the query. */
  lemma MatchesIgnoresQueryCase(t: Task, query: string)
    ensures Matches(t, Lower(query)) == Matches(t, query)
  {
    LowerIdempotent(query);
  }

  /** `tasks.filter(task => Matches(task, query))` */
  function Filter(tasks: seq<Task>, query: string): (r: seq<Task>)
    ensures |r| <= |tasks|
    ensures forall i :: 0 <= i < |r| ==> Matches(r[i], query)
  {
    if tasks == [] then []
    else (if Matches(tasks[0], query) then [tasks[0]] else []) + Filter(tasks[1..], query)
  }

  /** Order-preserving subsequence: r is s with some elements left out. */
  ghost predicate IsSubsequence<T>(r: seq<T>, s: seq<T>)
    decreases |s|
  {
    if r == [] then true
    else if s == [] then false
    else (r[0] == s[0] && IsSubsequence(r[1..], s[1..])) || IsSubsequence(r, s[1..])
  }

  lemma {:induction false} FilterIsSubsequence(tasks: seq<Task>, query: string)
    ensures IsSubsequence(Filter(tasks, query), tasks)
    decreases |tasks|
  {
    if tasks != [] {
      FilterIsSubsequence(tasks[1..], query);
      var rest := Filter(tasks[1..], query);
      if Matches(tasks[0], query) {
        assert Filter(tasks, query) == [tasks[0]] + rest;
        assert ([tasks[0]] + rest)[1..] == rest;
      } else {
        assert Filter(tasks, query) == rest;
      }
    }
  }

  /** A task is in the result iff it is in the list and matches. */
  lemma {:induction false} FilterMembership(tasks: seq<Task>, query: string, t: Task)
    ensures t in Filter(tasks, query) <==> t in tasks && Matches(t, query)
    decreases |tasks|
  {
    if tasks != [] {
      FilterMembership(tasks[1..], query, t);
      assert tasks == [tasks[0]] + tasks[1..];
    }
  }

  /** Filtering distributes over concatenation, which pins it down element by element. */
  lemma {:induction false} FilterConcat(a: seq<Task>, b: seq<Task>, query: string)
    ensures Filter(a + b, query) == Filter(a, query) + Filter(b, query)
    decreases |a|
  {
    if a == [] {
      assert a + b == b;
    } else {
      FilterConcat(a[1..], b, query);
      assert (a + b)[1..] == a[1..] + b;
      assert Filter(a + b, query)
          == (if Matches(a[0], query) then [a[0]] else []) + Filter(a[1..] + b, query);
    }
  }

  /** The filter keeps the whole list exactly when every task matches. */
  lemma {:induction false} FilterKeepsAllIff(tasks: seq<Task>, query: string)
    ensures Filter(tasks, query) == tasks <==> forall i :: 0 <= i < |tasks| ==> Matches(tasks[i], query)
    decreases |tasks|
  {
    if tasks != [] {
      FilterKeepsAllIff(tasks[1..], query);
      if !Matches(tasks[0], query) {
        assert |Filter(tasks, query)| < |tasks|;
      } else if Filter(tasks, query) == tasks {
        assert Filter(tasks[1..], query) == tasks[1..];
      }
    }
  }

  /** Filtering a filtered list again changes nothing. */
  lemma FilterIdempotent(tasks: seq<Task>, query: string)
    ensures Filter(Filter(tasks, query), query) == Filter(tasks, query)
  {
    FilterKeepsAllIff(Filter(tasks, query), query);
  }

  /** With the empty query the list comes back whole iff no task lacks every field. */
  lemma FilterEmptyQuery(tasks: seq<Task>)
    ensures Filter(tasks, "") == tasks <==> forall i :: 0 <= i < |tasks| ==> HasSearchableField(tasks[i])
  {
    FilterKeepsAllIff(tasks, "");
    forall i | 0 <= i < |tasks| { EmptyQueryMatches(tasks[i]); }
  }

  // ---------------------------------------------------------------------------
  // Identifiers
  // ---------------------------------------------------------------------------

  predicate HasId(tasks: seq<Task>, id: Id)
  {
    exists i :: 0 <= i < |tasks| && tasks[i].id == id
  }

  /** Unfolding `HasId` one element at a time. */
  lemma HasIdCons(tasks: seq<Task>, id: Id)
    requires tasks != []
    ensures HasId(tasks, id) <==> tasks[0].id == id || HasId(tasks[1..], id)
  {
    if HasId(tasks, id) && tasks[0].id != id {
      var i :| 0 <= i < |tasks| && tasks[i].id == id;
      assert tasks[1..][i - 1].id == id;
    }
  }

  /** Number of tasks carrying the id. */
  function CountId(tasks: seq<Task>, id: Id): nat
  {
    if tasks == [] then 0 else (if tasks[0].id == id then 1 else 0) + CountId(tasks[1..], id)
  }

  /** No two tasks share an id (what the store guarantees). */
  ghost predicate UniqueIds(tasks: seq<Task>)
  {
    forall i, j :: 0 <= i < j < |tasks| ==> tasks[i].id != tasks[j].id
  }

  lemma {:induction false} CountIdOfUnique(tasks: seq<Task>, id: Id)
    requires UniqueIds(tasks)
    ensures CountId(tasks, id) == if HasId(tasks, id) then 1 else 0
    decreases |tasks|
  {
    if tasks != [] {
      CountIdOfUnique(tasks[1..], id);
      HasIdCons(tasks, id);
      if tasks[0].id == id {
        assert !HasId(tasks[1..], id);
      }
    }
  }

  /** The first task carrying the id, if any. */
  function FindById(tasks: seq<Task>, id: Id): (r: Option<Task>)
    ensures r.Some? <==> HasId(tasks, id)
    ensures r.Some? ==> r.value in tasks && r.value.id == id
  {
    if tasks == [] then None
    else if tasks[0].id == id then Some(tasks[0])
    else
      HasIdCons(tasks, id);
      FindById(tasks[1..], id)
  }

  // ---------------------------------------------------------------------------
  // Local list updates
  // ---------------------------------------------------------------------------

  /** `[...tasks, newTask]` */
  function Append(tasks: seq<Task>, newTask: Task): (r: seq<Task>)
    ensures |r| == |tasks| + 1
    ensures r[|tasks|] == newTask && r[..|tasks|] == tasks
  {
    tasks + [newTask]
  }

  /** `tasks.map(task => task._id === updated._id ? updated : task)` */
  function ReplaceById(tasks: seq<Task>, updated: Task): (r: seq<Task>)
    ensures |r| == |tasks|
    ensures forall i :: 0 <= i < |tasks| && tasks[i].id == updated.id ==> r[i] == updated
    ensures forall i :: 0 <= i < |tasks| && tasks[i].id != updated.id ==> r[i] == tasks[i]
  {
    if tasks == [] then []
    else [if tasks[0].id == updated.id then updated else tasks[0]] + ReplaceById(tasks[1..], updated)
  }

  /** `tasks.filter(task => task._id !== id)` */
  function RemoveById(tasks: seq<Task>, id: Id): (r: seq<Task>)
    ensures |r| <= |tasks|
    ensures forall i :: 0 <= i < |r| ==> r[i].id != id
  {
    if tasks == [] then []
    else (if tasks[0].id != id then [tasks[0]] else []) + RemoveById(tasks[1..], id)
  }

  /** Filtering the appended list adds at most the new task, at the end. */
  lemma FilterAppend(tasks: seq<Task>, newTask: Task, query: string)
    ensures Filter(Append(tasks, newTask), query)
         == Filter(tasks, query) + (if Matches(newTask, query) then [newTask] else [])
  {
    FilterConcat(tasks, [newTask], query);
    assert Filter([newTask], query) == (if Matches(newTask, query) then [newTask] else []) + Filter([], query);
  }

  /** Appending a task with a fresh id keeps ids unique. */
  lemma AppendKeepsIdsUnique(tasks: seq<Task>, newTask: Task)
    requires UniqueIds(tasks) && !HasId(tasks, newTask.id)
    ensures UniqueIds(Append(tasks, newTask))
  {
    var r := Append(tasks, newTask);
    forall i, j | 0 <= i < j < |r| ensures r[i].id != r[j].id {
      if j == |tasks| { assert tasks[i].id == r[i].id; }
    }
  }

  /** Replacing a task whose id is not in the list changes nothing. */
  lemma ReplaceAbsentIsNoOp(tasks: seq<Task>, updated: Task)
    requires !HasId(tasks, updated.id)
    ensures ReplaceById(tasks, updated) == tasks
  {
  }

  /** After a replace, looking the id up gives the server's copy, iff the id was there. */
  lemma {:induction false} ReplaceThenFind(tasks: seq<Task>, updated: Task)
    ensures FindById(ReplaceById(tasks, updated), updated.id)
         == if HasId(tasks, updated.id) then Some(updated) else None
    decreases |tasks|
  {
    if tasks != [] {
      var r := ReplaceById(tasks, updated);
      if tasks[0].id != updated.id {
        ReplaceThenFind(tasks[1..], updated);
        assert r[1..] == ReplaceById(tasks[1..], updated);
        HasIdCons(tasks, updated.id);
      } else {
        assert r[0] == updated;
        assert HasId(tasks, updated.id);
      }
    }
  }

  /** Replacing by id never changes which ids the list holds, so uniqueness survives. */
  lemma ReplaceKeepsIdsUnique(tasks: seq<Task>, updated: Task)
    requires UniqueIds(tasks)
    ensures UniqueIds(ReplaceById(tasks, updated))
  {
    var r := ReplaceById(tasks, updated);
    assert forall i :: 0 <= i < |tasks| ==> r[i].id == tasks[i].id;
  }

  /** Replacing twice with the same task is replacing once. */
  lemma ReplaceIdempotent(tasks: seq<Task>, updated: Task)
    ensures ReplaceById(ReplaceById(tasks, updated), updated) == ReplaceById(tasks, updated)
  {
  }

  lemma {:induction false} RemoveIsSubsequence(tasks: seq<Task>, id: Id)
    ensures IsSubsequence(RemoveById(tasks, id), tasks)
    decreases |tasks|
  {
    if tasks != [] {
      RemoveIsSubsequence(tasks[1..], id);
      var rest := RemoveById(tasks[1..], id);
      if tasks[0].id != id {
        assert ([tasks[0]] + rest)[1..] == rest;
      } else {
        assert RemoveById(tasks, id) == rest;
      }
    }
  }

  /** Exactly the tasks with another id survive. */
  lemma {:induction false} RemoveMembership(tasks: seq<Task>, id: Id, t: Task)
    ensures t in RemoveById(tasks, id) <==> t in tasks && t.id != id
    decreases |tasks|
  {
    if tasks != [] {
      RemoveMembership(tasks[1..], id, t);
      assert tasks == [tasks[0]] + tasks[1..];
    }
  }

  /** Removing drops one task per occurrence of the id ... */
  lemma {:induction false} RemoveLength(tasks: seq<Task>, id: Id)
    ensures |RemoveById(tasks, id)| == |tasks| - CountId(tasks, id)
    decreases |tasks|
  {
    if tasks != [] {
      RemoveLength(tasks[1..], id);
    }
  }

  /** ... so with unique ids it drops exactly one task when the id is present, none otherwise. */
  lemma RemoveLengthUnique(tasks: seq<Task>, id: Id)
    requires UniqueIds(tasks)
    ensures |RemoveById(tasks, id)| == if HasId(tasks, id) then |tasks| - 1 else |tasks|
  {
    RemoveLength(tasks, id);
    CountIdOfUnique(tasks, id);
  }

  /** Removing an id that is not there changes nothing. */
  lemma {:induction false} RemoveAbsentIsNoOp(tasks: seq<Task>, id: Id)
    requires !HasId(tasks, id)
    ensures RemoveById(tasks, id) == tasks
    decreases |tasks|
  {
    if tasks != [] {
      HasIdCons(tasks, id);
      RemoveAbsentIsNoOp(tasks[1..], id);
      assert tasks == [tasks[0]] + tasks[1..];
    }
  }

  lemma {:induction false} RemoveConcat(a: seq<Task>, b: seq<Task>, id: Id)
    ensures RemoveById(a + b, id) == RemoveById(a, id) + RemoveById(b, id)
    decreases |a|
  {
    if a == [] {
      assert a + b == b;
    } else {
      RemoveConcat(a[1..], b, id);
      assert (a + b)[1..] == a[1..] + b;
      assert RemoveById(a + b, id)
          == (if a[0].id != id then [a[0]] else []) + RemoveById(a[1..] + b, id);
    }
  }

  /** Deleting a freshly added task undoes the add. */
  lemma RemoveUndoesAppend(tasks: seq<Task>, newTask: Task)
    requires !HasId(tasks, newTask.id)
    ensures RemoveById(Append(tasks, newTask), newTask.id) == tasks
  {
    RemoveConcat(tasks, [newTask], newTask.id);
    RemoveAbsentIsNoOp(tasks, newTask.id);
    assert RemoveById([newTask], newTask.id) == [] + RemoveById([], newTask.id);
  }

  /** Removing an id keeps ids unique (a subsequence of a unique list). */
  lemma {:induction false} RemoveKeepsIdsUnique(tasks: seq<Task>, id: Id)
    requires UniqueIds(tasks)
    ensures UniqueIds(RemoveById(tasks, id))
    decreases |tasks|
  {
    if tasks != [] {
      RemoveKeepsIdsUnique(tasks[1..], id);
      var rest := RemoveById(tasks[1..], id);
      if tasks[0].id != id {
        var r := RemoveById(tasks, id);
        assert r == [tasks[0]] + rest;
        forall j | 0 < j < |r| ensures r[0].id != r[j].id {
          assert r[j] in rest;
          RemoveMembership(tasks[1..], id, r[j]);
          var k :| 0 <= k < |tasks[1..]| && tasks[1..][k] == r[j];
          assert tasks[k + 1] == r[j];
        }
      }
    }
  }
}
