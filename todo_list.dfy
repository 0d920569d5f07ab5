/** The task records of the list and the pure list operations the component's
    handlers and summary are built from: the `map` behind toggleTodo, the
    `filter` behind deleteTodo and the two summary counts, and the colour a
    priority is shown in. */
module TodoList {

  datatype Priority = Low | Medium | High

  /** One task. `id` is whatever number the caller supplied (the component takes
      the wall clock); `dueDate` is the text of the date field, "" when none was
      chosen. */
  datatype Todo = Todo(
    id: int,
    text: string,
    completed: bool,
    dueDate: string,
    priority: Priority,
    category: string)

  /** The rank the priority sort key uses: high 3, medium 2, low 1. */
  function Rank(p: Priority): (r: int)
    ensures 1 <= r <= 3
  {
    match p
    case High => 3
    case Medium => 2
    case Low => 1
  }

  /** Different priorities never share a rank, and high outranks medium outranks low. */
  lemma RankOrdersPriorities(p: Priority, q: Priority)
    ensures Rank(p) == Rank(q) <==> p == q
    ensures Rank(High) > Rank(Medium) > Rank(Low)
  {
  }

  /** The text colour class a priority badge is drawn with; the gray fallback of
      the source is never reached, because every priority has its own colour. */
  function PriorityColor(p: Priority): (c: string)
    ensures c in {"text-red-500", "text-yellow-500", "text-green-500"}
    ensures c != "text-gray-500"
  {
    match p
    case High => "text-red-500"
    case Medium => "text-yellow-500"
    case Low => "text-green-500"
  }

  /** Every priority gets a colour of its own, so the badge tells them apart. */
  lemma PriorityColorInjective(p: Priority, q: Priority)
    requires PriorityColor(p) == PriorityColor(q)
    ensures p == q
  {
  }

  /** `s` can be obtained from `t` by deleting elements, without reordering any. */
  ghost predicate IsSubsequence(s: seq<Todo>, t: seq<Todo>)
    decreases |t|
  {
    s == [] || (t != [] && ((s[0] == t[0] && IsSubsequence(s[1..], t[1..])) || IsSubsequence(s, t[1..])))
  }

  /** Array.prototype.filter: the elements that `keep` accepts, each as often as
      the input holds it, in the input's order. */
  function Filter(s: seq<Todo>, keep: Todo -> bool): (r: seq<Todo>)
    ensures |r| <= |s|
    ensures forall i :: 0 <= i < |r| ==> keep(r[i])
  {
    if s == [] then []
    else
      var rest := Filter(s[1..], keep);
      if keep(s[0]) then [s[0]] + rest else rest
  }

  /** Filtering keeps every accepted record as often as the input holds it and
      drops every other one. */
  lemma {:induction false} FilterMultiset(s: seq<Todo>, keep: Todo -> bool)
    ensures forall t :: multiset(Filter(s, keep))[t] == if keep(t) then multiset(s)[t] else 0
  {
    if s != [] {
      FilterMultiset(s[1..], keep);
      assert s == [s[0]] + s[1..];
    }
  }

  /** Filtering never reorders: its result is a subsequence of its input. */
  lemma {:induction false} FilterSubsequence(s: seq<Todo>, keep: Todo -> bool)
    ensures IsSubsequence(Filter(s, keep), s)
  {
    if s != [] {
      FilterSubsequence(s[1..], keep);
    }
  }

  /** Filtering distributes over concatenation, which pins down the order of the result. */
  lemma {:induction false} FilterAppend(a: seq<Todo>, b: seq<Todo>, keep: Todo -> bool)
    ensures Filter(a + b, keep) == Filter(a, keep) + Filter(b, keep)
  {
    if a == [] {
      assert a + b == b;
    } else {
      var head := if keep(a[0]) then [a[0]] else [];
      FilterAppend(a[1..], b, keep);
      FilterUnfold(a, keep);
      FilterUnfold(a + b, keep);
      assert (a + b)[1..] == a[1..] + b;
      assert head + (Filter(a[1..], keep) + Filter(b, keep)) == (head + Filter(a[1..], keep)) + Filter(b, keep);
    }
  }

  /** Filtering a non-empty list: its head if kept, then its filtered tail. */
  lemma FilterUnfold(s: seq<Todo>, keep: Todo -> bool)
    requires s != []
    ensures Filter(s, keep) == (if keep(s[0]) then [s[0]] else []) + Filter(s[1..], keep)
  {
    if !keep(s[0]) {
      assert [] + Filter(s[1..], keep) == Filter(s[1..], keep);
    }
  }

  /** Filtering a list with a given head: the head if it is kept, then the filtered tail. */
  lemma FilterCons(x: Todo, s: seq<Todo>, keep: Todo -> bool)
    ensures Filter([x] + s, keep) == (if keep(x) then [x] else []) + Filter(s, keep)
  {
    assert ([x] + s)[1..] == s;
  }

  /** A filter that rejects nothing in the list returns the list itself. */
  lemma {:induction false} FilterKeepsAll(s: seq<Todo>, keep: Todo -> bool)
    requires forall i :: 0 <= i < |s| ==> keep(s[i])
    ensures Filter(s, keep) == s
  {
    if s != [] {
      FilterKeepsAll(s[1..], keep);
    }
  }

  /** The record with `completed` flipped and every other field as it was. */
  function Flip(t: Todo): (r: Todo)
    ensures r.completed == !t.completed
    ensures r.(completed := t.completed) == t
  {
    t.(completed := !t.completed)
  }

  /** The list toggleTodo installs: the same records in the same order, where
      exactly those whose id matches have `completed` flipped and no other field
      of any record changes. */
  function Toggle(todos: seq<Todo>, id: int): (r: seq<Todo>)
    ensures |r| == |todos|
    ensures forall i :: 0 <= i < |r| ==>
      && r[i].id == todos[i].id
      && r[i].text == todos[i].text
      && r[i].dueDate == todos[i].dueDate
      && r[i].priority == todos[i].priority
      && r[i].category == todos[i].category
      && (r[i].completed != todos[i].completed <==> todos[i].id == id)
  {
    if todos == [] then []
    else [if todos[0].id == id then Flip(todos[0]) else todos[0]] + Toggle(todos[1..], id)
  }

  /** Toggling the same id twice restores the list. */
  lemma ToggleTwice(todos: seq<Todo>, id: int)
    ensures Toggle(Toggle(todos, id), id) == todos
  {
    var once := Toggle(todos, id);
    var twice := Toggle(once, id);
    assert forall i :: 0 <= i < |todos| ==> twice[i] == todos[i];
  }

  /** Toggling an id no record carries leaves the list as it was. */
  lemma ToggleAbsent(todos: seq<Todo>, id: int)
    requires forall i :: 0 <= i < |todos| ==> todos[i].id != id
    ensures Toggle(todos, id) == todos
  {
    var r := Toggle(todos, id);
    assert forall i :: 0 <= i < |todos| ==> r[i] == todos[i];
  }

  /** The records a given id selects, and those it does not. */
  function HasId(id: int): Todo -> bool {
    (t: Todo) => t.id == id
  }

  function OtherThan(id: int): Todo -> bool {
    (t: Todo) => t.id != id
  }

  /** The list deleteTodo installs: exactly the records whose id differs from
      `id`, each as often as before, in their original relative order. */
  function Delete(todos: seq<Todo>, id: int): (r: seq<Todo>)
    ensures forall i :: 0 <= i < |r| ==> r[i].id != id
    ensures forall t: Todo :: t.id != id ==> multiset(r)[t] == multiset(todos)[t]
    ensures IsSubsequence(r, todos)
  {
    FilterMultiset(todos, OtherThan(id));
    FilterSubsequence(todos, OtherThan(id));
    Filter(todos, OtherThan(id))
  }

  /** Deleting an id no record carries leaves the list as it was. */
  lemma DeleteAbsent(todos: seq<Todo>, id: int)
    requires forall i :: 0 <= i < |todos| ==> todos[i].id != id
    ensures Delete(todos, id) == todos
  {
    FilterKeepsAll(todos, OtherThan(id));
  }

  /** Deleting the same id again changes nothing. */
  lemma DeleteTwice(todos: seq<Todo>, id: int)
    ensures Delete(Delete(todos, id), id) == Delete(todos, id)
  {
    DeleteAbsent(Delete(todos, id), id);
  }

  /** Deleting from a list made of two parts deletes from each part in place. */
  lemma DeleteAppend(a: seq<Todo>, b: seq<Todo>, id: int)
    ensures Delete(a + b, id) == Delete(a, id) + Delete(b, id)
  {
    FilterAppend(a, b, OtherThan(id));
  }

  predicate IsCompleted(t: Todo) {
    t.completed
  }

  /** The three priority classes. */
  predicate IsHighPriority(t: Todo) {
    t.priority == High
  }

  predicate IsMediumPriority(t: Todo) {
    t.priority == Medium
  }

  predicate IsLowPriority(t: Todo) {
    t.priority == Low
  }

  /** The "N of M completed" figure of the summary: never more than M. */
  function CompletedCount(todos: seq<Todo>): (n: nat)
    ensures n <= |todos|
    ensures n == |todos| <==> forall i :: 0 <= i < |todos| ==> todos[i].completed
  {
    var done := Filter(todos, IsCompleted);
    if |done| == |todos| then
      assert forall i :: 0 <= i < |todos| ==> todos[i].completed by {
        FilterFull(todos, IsCompleted);
      }
      |done|
    else
      assert exists i :: 0 <= i < |todos| && !todos[i].completed by {
        FilterMisses(todos, IsCompleted);
      }
      |done|
  }

  /** The "N high priority" figure of the summary: never more than the list length. */
  function HighPriorityCount(todos: seq<Todo>): (n: nat)
    ensures n <= |todos|
    ensures n == 0 <==> forall i :: 0 <= i < |todos| ==> todos[i].priority != High
  {
    var high := Filter(todos, IsHighPriority);
    FilterMultiset(todos, IsHighPriority);
    if high == [] then
      assert forall i :: 0 <= i < |todos| ==> todos[i].priority != High by {
        forall i | 0 <= i < |todos| ensures todos[i].priority != High {
          assert multiset(todos)[todos[i]] > 0;
        }
      }
      0
    else
      assert multiset(high)[high[0]] > 0;
      |high|
  }

  /** A filter that returns as many records as it was given accepted them all. */
  lemma {:induction false} FilterFull(s: seq<Todo>, keep: Todo -> bool)
    requires |Filter(s, keep)| == |s|
    ensures forall i :: 0 <= i < |s| ==> keep(s[i])
  {
    if s != [] {
      FilterFull(s[1..], keep);
      assert forall j :: 0 <= j < |s| - 1 ==> s[1..][j] == s[j + 1];
    }
  }

  /** A filter that returns fewer records than it was given rejected one of them. */
  lemma FilterMisses(s: seq<Todo>, keep: Todo -> bool)
    requires |Filter(s, keep)| < |s|
    ensures exists i :: 0 <= i < |s| && !keep(s[i])
  {
    if forall i :: 0 <= i < |s| ==> keep(s[i]) {
      FilterKeepsAll(s, keep);
    }
  }

  /** The high-priority figure counts completed records as well as open ones:
      toggling completion never changes it. */
  lemma {:induction false} HighPriorityCountIgnoresCompletion(todos: seq<Todo>, id: int)
    ensures HighPriorityCount(Toggle(todos, id)) == HighPriorityCount(todos)
  {
    if todos != [] {
      var x, rest := todos[0], todos[1..];
      HighPriorityCountIgnoresCompletion(rest, id);
      var r := Toggle(todos, id);
      assert r == [r[0]] + Toggle(rest, id);
      assert todos == [x] + rest;
      FilterCons(r[0], Toggle(rest, id), IsHighPriority);
      FilterCons(x, rest, IsHighPriority);
    }
  }

  /** The open and the completed records an id selects. */
  function OpenWithId(id: int): Todo -> bool {
    (t: Todo) => t.id == id && !t.completed
  }

  function CompletedWithId(id: int): Todo -> bool {
    (t: Todo) => t.id == id && t.completed
  }

  /** Toggling moves the completed figure by exactly the matching records: those
      that were open now count, those that were completed no longer do. */
  lemma {:induction false} CompletedCountAfterToggle(todos: seq<Todo>, id: int)
    ensures CompletedCount(Toggle(todos, id))
         == CompletedCount(todos) + |Filter(todos, OpenWithId(id))| - |Filter(todos, CompletedWithId(id))|
  {
    if todos != [] {
      var x, rest := todos[0], todos[1..];
      CompletedCountAfterToggle(rest, id);
      var r := Toggle(todos, id);
      assert r == [r[0]] + Toggle(rest, id);
      assert todos == [x] + rest;
      FilterCons(r[0], Toggle(rest, id), IsCompleted);
      FilterCons(x, rest, IsCompleted);
      FilterCons(x, rest, OpenWithId(id));
      FilterCons(x, rest, CompletedWithId(id));
    }
  }

  /** Appending a new, open record leaves the completed figure as it was and
      raises the high-priority figure by one exactly when the record is high. */
  lemma CountsAfterAppend(todos: seq<Todo>, x: Todo)
    requires !x.completed
    ensures CompletedCount(todos + [x]) == CompletedCount(todos)
    ensures HighPriorityCount(todos + [x]) == HighPriorityCount(todos) + (if x.priority == High then 1 else 0)
  {
    FilterAppend(todos, [x], IsCompleted);
    FilterAppend(todos, [x], IsHighPriority);
    FilterCons(x, [], IsCompleted);
    FilterCons(x, [], IsHighPriority);
    assert [x] + [] == [x];
  }

  /** Deleting shortens the list by exactly the number of records carrying the id. */
  lemma {:induction false} DeleteLength(todos: seq<Todo>, id: int)
    ensures |Delete(todos, id)| == |todos| - |Filter(todos, HasId(id))|
  {
    if todos != [] {
      var x, rest := todos[0], todos[1..];
      DeleteLength(rest, id);
      assert todos == [x] + rest;
      FilterCons(x, rest, OtherThan(id));
      FilterCons(x, rest, HasId(id));
    }
  }
}
