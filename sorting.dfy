/** The sorted view the list is rendered from: a copy of the task list sorted
    with the comparator the sort selector picks. Array.prototype.sort is stable,
    so for a comparator that is consistent the result is fully determined; it is
    modelled here by a stable insertion sort. */
module Sorting {
  import opened Text
  import opened TodoList

  /** The three entries of the sort selector. */
  datatype SortKey = ByDate | ByPriority | ByCategory

  /** What Array.prototype.sort (and a locale's string comparison) must satisfy
      for a sort's result to be specified: swapping the arguments flips the sign,
      and "sorts no later than" (a result <= 0) is transitive. */
  ghost predicate IsComparator<T(!new)>(cmp: (T, T) -> int) {
    && (forall a, b :: cmp(a, b) > 0 <==> cmp(b, a) < 0)
    && (forall a, b, c :: cmp(a, b) <= 0 && cmp(b, c) <= 0 ==> cmp(a, c) <= 0)
  }

  /** No element sorts strictly after one that follows it. */
  ghost predicate SortedBy(s: seq<Todo>, cmp: (Todo, Todo) -> int) {
    forall i, j :: 0 <= i < j < |s| ==> cmp(s[i], s[j]) <= 0
  }

  /** Places `x` in front of the first element it does not sort after. */
  function Insert(x: Todo, s: seq<Todo>, cmp: (Todo, Todo) -> int): (r: seq<Todo>)
    ensures |r| == |s| + 1
  {
    if s == [] then [x]
    else if cmp(x, s[0]) <= 0 then [x] + s
    else [s[0]] + Insert(x, s[1..], cmp)
  }

  /** A stable sort: every element is inserted ahead of the equal ones that
      follow it in the input. */
  function SortBy(s: seq<Todo>, cmp: (Todo, Todo) -> int): (r: seq<Todo>)
    ensures |r| == |s|
  {
    if s == [] then [] else Insert(s[0], SortBy(s[1..], cmp), cmp)
  }

  /** Inserting adds exactly the inserted element. */
  lemma {:induction false} InsertPermutes(x: Todo, s: seq<Todo>, cmp: (Todo, Todo) -> int)
    ensures multiset(Insert(x, s, cmp)) == multiset(s) + multiset{x}
  {
    if s != [] && cmp(x, s[0]) > 0 {
      InsertPermutes(x, s[1..], cmp);
      assert s == [s[0]] + s[1..];
    }
  }

  /** The sort's result is a permutation of its input. */
  lemma {:induction false} SortByPermutes(s: seq<Todo>, cmp: (Todo, Todo) -> int)
    ensures multiset(SortBy(s, cmp)) == multiset(s)
  {
    if s != [] {
      SortByPermutes(s[1..], cmp);
      InsertPermutes(s[0], SortBy(s[1..], cmp), cmp);
      assert s == [s[0]] + s[1..];
    }
  }

  /** `y` sorts no later than any element of `s`. */
  ghost predicate SortsBeforeAll(y: Todo, s: seq<Todo>, cmp: (Todo, Todo) -> int) {
    forall k :: 0 <= k < |s| ==> cmp(y, s[k]) <= 0
  }

  /** A sorted list stays sorted when a lower bound is put in front. */
  lemma SortedCons(y: Todo, s: seq<Todo>, cmp: (Todo, Todo) -> int)
    requires SortsBeforeAll(y, s, cmp) && SortedBy(s, cmp)
    ensures SortedBy([y] + s, cmp)
  {
    var r := [y] + s;
    assert forall j :: 0 < j < |r| ==> r[j] == s[j - 1];
  }

  /** An element that sorts no later than everything in `s` and than `x` still
      does so after `x` is inserted. */
  lemma {:induction false} InsertKeepsLowerBound(y: Todo, x: Todo, s: seq<Todo>, cmp: (Todo, Todo) -> int)
    requires SortsBeforeAll(y, s, cmp) && cmp(y, x) <= 0
    ensures SortsBeforeAll(y, Insert(x, s, cmp), cmp)
  {
    if s != [] && cmp(x, s[0]) > 0 {
      InsertKeepsLowerBound(y, x, s[1..], cmp);
      var r := [s[0]] + Insert(x, s[1..], cmp);
      assert forall j :: 0 < j < |r| ==> r[j] == Insert(x, s[1..], cmp)[j - 1];
    }
  }

  /** In a sorted list, what sorts no later than the head sorts no later than everything. */
  lemma BelowHeadBelowAll(x: Todo, s: seq<Todo>, cmp: (Todo, Todo) -> int)
    requires IsComparator(cmp) && SortedBy(s, cmp)
    requires s != [] && cmp(x, s[0]) <= 0
    ensures SortsBeforeAll(x, s, cmp)
  {
    forall k | 0 < k < |s| ensures cmp(x, s[k]) <= 0 {
      assert cmp(s[0], s[k]) <= 0;
    }
  }

  /** The tail of a sorted list is sorted, and its head sorts no later than all of it. */
  lemma HeadBelowTail(s: seq<Todo>, cmp: (Todo, Todo) -> int)
    requires SortedBy(s, cmp) && s != []
    ensures SortedBy(s[1..], cmp) && SortsBeforeAll(s[0], s[1..], cmp)
  {
    forall k | 0 <= k < |s[1..]| ensures cmp(s[0], s[1..][k]) <= 0 {
      assert s[1..][k] == s[k + 1];
    }
  }

  /** With a consistent comparator, inserting into a sorted list keeps it sorted. */
  lemma {:induction false} InsertSorted(x: Todo, s: seq<Todo>, cmp: (Todo, Todo) -> int)
    requires IsComparator(cmp) && SortedBy(s, cmp)
    ensures SortedBy(Insert(x, s, cmp), cmp)
  {
    if s != [] {
      if cmp(x, s[0]) <= 0 {
        BelowHeadBelowAll(x, s, cmp);
        SortedCons(x, s, cmp);
      } else {
        HeadBelowTail(s, cmp);
        InsertSorted(x, s[1..], cmp);
        assert cmp(s[0], x) <= 0;
        InsertKeepsLowerBound(s[0], x, s[1..], cmp);
        SortedCons(s[0], Insert(x, s[1..], cmp), cmp);
      }
    }
  }

  /** With a consistent comparator the sort's result is in order. */
  lemma {:induction false} SortBySorted(s: seq<Todo>, cmp: (Todo, Todo) -> int)
    requires IsComparator(cmp)
    ensures SortedBy(SortBy(s, cmp), cmp)
  {
    if s != [] {
      SortBySorted(s[1..], cmp);
      InsertSorted(s[0], SortBy(s[1..], cmp), cmp);
    }
  }

  /** The priority key: the higher-ranked record sorts first. */
  function PriorityCompare(a: Todo, b: Todo): (r: int)
    ensures r < 0 <==> Rank(a.priority) > Rank(b.priority)
    ensures r == 0 <==> a.priority == b.priority
  {
    Rank(b.priority) - Rank(a.priority)
  }

  lemma PriorityCompareIsComparator()
    ensures IsComparator(PriorityCompare)
  {
  }

  /** The date key `a.dueDate || ''`. A missing due date is the empty string in
      this model (see the `dueDate?` line under "Left out"), so the key is the
      field itself and an undated record has the empty key. */
  function DueKey(t: Todo): string {
    t.dueDate
  }

  /** The date key as the source writes it: 1 when `a`'s key is greater, -1
      otherwise, so also -1 when the two keys are equal. */
  function DateCompareAsWritten(a: Todo, b: Todo): (r: int)
    ensures r == 1 || r == -1
    ensures r == 1 <==> StrLess(DueKey(b), DueKey(a))
  {
    if StrLess(DueKey(b), DueKey(a)) then 1 else -1
  }

  /** Two records with the same due date each sort before the other under the
      source's date comparator, so it is not a consistent comparator, and the
      order Array.prototype.sort gives with it is implementation-defined. */
  lemma DateCompareAsWrittenIsInconsistent(a: Todo, b: Todo)
    requires DueKey(a) == DueKey(b)
    ensures DateCompareAsWritten(a, b) < 0 && DateCompareAsWritten(b, a) < 0
    ensures !IsComparator(DateCompareAsWritten)
  {
    StrLessIrreflexive(DueKey(a));
    assert !(DateCompareAsWritten(a, b) > 0 <==> DateCompareAsWritten(b, a) < 0);
  }

  /** The date key with ties reported as ties: ascending by due-date text. */
  function DateCompare(a: Todo, b: Todo): (r: int)
    ensures r == 1 || r == 0 || r == -1
    ensures r == 0 <==> DueKey(a) == DueKey(b)
    ensures r < 0 <==> StrLess(DueKey(a), DueKey(b))
    ensures r > 0 <==> StrLess(DueKey(b), DueKey(a))
  {
    StrLessTrichotomy(DueKey(a), DueKey(b));
    if StrLess(DueKey(b), DueKey(a)) then 1
    else if StrLess(DueKey(a), DueKey(b)) then -1
    else 0
  }

  /** Under the repaired date key, "sorts no later than" is "key no greater than". */
  lemma DateCompareAtMostZero(a: Todo, b: Todo)
    ensures DateCompare(a, b) <= 0 <==> (DueKey(a) == DueKey(b) || StrLess(DueKey(a), DueKey(b)))
  {
    if DueKey(a) != DueKey(b) {
      StrLessTotal(DueKey(a), DueKey(b));
      if StrLess(DueKey(a), DueKey(b)) {
        StrLessAsymmetric(DueKey(a), DueKey(b));
      }
    } else {
      StrLessIrreflexive(DueKey(a));
    }
  }

  lemma DateCompareIsComparator()
    ensures IsComparator(DateCompare)
  {
    forall a, b ensures DateCompare(a, b) > 0 <==> DateCompare(b, a) < 0 {
      if StrLess(DueKey(b), DueKey(a)) {
        StrLessAsymmetric(DueKey(b), DueKey(a));
      }
    }
    forall a, b, c | DateCompare(a, b) <= 0 && DateCompare(b, c) <= 0
      ensures DateCompare(a, c) <= 0
    {
      DateCompareAtMostZero(a, b);
      DateCompareAtMostZero(b, c);
      DateCompareAtMostZero(a, c);
      if StrLess(DueKey(a), DueKey(b)) && StrLess(DueKey(b), DueKey(c)) {
        StrLessTransitive(DueKey(a), DueKey(b), DueKey(c));
      }
    }
  }

  /** The category key, through the locale's string comparison (localeCompare),
      which is a parameter: the key is a consistent comparator whenever the
      locale comparison is one. */
  function CategoryCompare(collate: (string, string) -> int): (r: (Todo, Todo) -> int)
    ensures IsComparator(collate) ==> IsComparator(r)
  {
    var r := (a: Todo, b: Todo) => collate(a.category, b.category);
    assert forall a, b :: r(a, b) == collate(a.category, b.category);
    r
  }

  /** The comparator each entry of the sort selector stands for. The date entry
      is the repaired date key: it agrees with the source's date comparator on
      every pair of distinct due dates and reports a tie where the source says -1. */
  function Comparator(key: SortKey, collate: (string, string) -> int): (r: (Todo, Todo) -> int)
    ensures key != ByCategory || IsComparator(collate) ==> IsComparator(r)
    ensures key == ByDate ==>
      forall a, b :: if DueKey(a) == DueKey(b) then r(a, b) == 0 else r(a, b) == DateCompareAsWritten(a, b)
    ensures key == ByPriority ==> r == PriorityCompare
    ensures key == ByCategory ==> r == CategoryCompare(collate)
  {
    match key
    case ByDate => DateCompareIsComparator(); DateCompare
    case ByPriority => PriorityCompareIsComparator(); PriorityCompare
    case ByCategory => CategoryCompare(collate)
  }

  /** sortedTodos: a sorted copy of the list. The list itself is a value and is
      left as it was; the view holds exactly the same records. */
  function SortedView(todos: seq<Todo>, key: SortKey, collate: (string, string) -> int): (r: seq<Todo>)
    ensures |r| == |todos|
    ensures multiset(r) == multiset(todos)
  {
    SortByPermutes(todos, Comparator(key, collate));
    SortBy(todos, Comparator(key, collate))
  }

  /** Under the priority key every high record comes before every medium one,
      and every medium one before every low one. */
  lemma PriorityViewOrdered(todos: seq<Todo>, collate: (string, string) -> int)
    ensures var r := SortedView(todos, ByPriority, collate);
      forall i, j :: 0 <= i < j < |r| ==> Rank(r[i].priority) >= Rank(r[j].priority)
  {
    PriorityCompareIsComparator();
    SortBySorted(todos, PriorityCompare);
  }

  /** Under the (repaired) date key the due dates ascend; records without a due
      date have the empty key and so come first. */
  lemma DateViewOrdered(todos: seq<Todo>, collate: (string, string) -> int)
    ensures var r := SortedView(todos, ByDate, collate);
      forall i, j :: 0 <= i < j < |r| ==> !StrLess(DueKey(r[j]), DueKey(r[i]))
  {
    DateCompareIsComparator();
    SortBySorted(todos, DateCompare);
    var r := SortedView(todos, ByDate, collate);
    forall i, j | 0 <= i < j < |r| ensures !StrLess(DueKey(r[j]), DueKey(r[i])) {
      DateCompareAtMostZero(r[i], r[j]);
      if StrLess(DueKey(r[i]), DueKey(r[j])) {
        StrLessAsymmetric(DueKey(r[i]), DueKey(r[j]));
      } else {
        StrLessIrreflexive(DueKey(r[i]));
      }
    }
  }

  /** Under the category key, with a consistent locale comparison, the categories ascend. */
  lemma CategoryViewOrdered(todos: seq<Todo>, collate: (string, string) -> int)
    requires IsComparator(collate)
    ensures var r := SortedView(todos, ByCategory, collate);
      forall i, j :: 0 <= i < j < |r| ==> collate(r[i].category, r[j].category) <= 0
  {
    SortBySorted(todos, CategoryCompare(collate));
    var r := SortedView(todos, ByCategory, collate);
    forall i, j | 0 <= i < j < |r| ensures collate(r[i].category, r[j].category) <= 0 {
      assert CategoryCompare(collate)(r[i], r[j]) <= 0;
    }
  }

  /** The priority classes of a list, each in the list's own order. */
  function Buckets(s: seq<Todo>): seq<Todo> {
    Filter(s, IsHighPriority) + Filter(s, IsMediumPriority) + Filter(s, IsLowPriority)
  }

  /** Inserting after the head of a list the new element sorts after. */
  lemma InsertUnfold(x: Todo, s: seq<Todo>, cmp: (Todo, Todo) -> int)
    requires s != [] && cmp(x, s[0]) > 0
    ensures Insert(x, s, cmp) == [s[0]] + Insert(x, s[1..], cmp)
  {
  }

  /** Inserting skips a prefix of elements the new one sorts after. */
  lemma {:induction false} InsertPast(x: Todo, p: seq<Todo>, rest: seq<Todo>, cmp: (Todo, Todo) -> int)
    requires forall i :: 0 <= i < |p| ==> cmp(x, p[i]) > 0
    ensures Insert(x, p + rest, cmp) == p + Insert(x, rest, cmp)
  {
    if p == [] {
      assert p + rest == rest;
    } else {
      var q, t := p + rest, p[1..];
      InsertPast(x, t, rest, cmp);
      assert q[0] == p[0] && q[1..] == t + rest;
      InsertUnfold(x, q, cmp);
      calc {
        Insert(x, q, cmp);
        [p[0]] + Insert(x, t + rest, cmp);
        [p[0]] + (t + Insert(x, rest, cmp));
        { assert [p[0]] + (t + Insert(x, rest, cmp)) == ([p[0]] + t) + Insert(x, rest, cmp); }
        ([p[0]] + t) + Insert(x, rest, cmp);
        { assert [p[0]] + t == p; }
        p + Insert(x, rest, cmp);
      }
    }
  }

  /** Inserting in front of a list whose head the new element does not sort after. */
  lemma InsertFront(x: Todo, s: seq<Todo>, cmp: (Todo, Todo) -> int)
    requires s == [] || cmp(x, s[0]) <= 0
    ensures Insert(x, s, cmp) == [x] + s
  {
  }

  /** A list grouped by priority: its high records, then its medium ones, then its low ones. */
  ghost predicate Grouped(h: seq<Todo>, m: seq<Todo>, l: seq<Todo>) {
    && (forall i :: 0 <= i < |h| ==> h[i].priority == High)
    && (forall i :: 0 <= i < |m| ==> m[i].priority == Medium)
    && (forall i :: 0 <= i < |l| ==> l[i].priority == Low)
  }

  /** A high record inserted into a grouped list goes to the very front. */
  lemma InsertHigh(x: Todo, h: seq<Todo>, m: seq<Todo>, l: seq<Todo>)
    requires x.priority == High
    ensures Insert(x, h + m + l, PriorityCompare) == [x] + h + m + l
  {
    var s := h + m + l;
    if s != [] {
      assert PriorityCompare(x, s[0]) <= 0;
    }
  }

  /** A medium record goes after the high ones and in front of the medium ones. */
  lemma InsertMedium(x: Todo, h: seq<Todo>, m: seq<Todo>, l: seq<Todo>)
    requires x.priority == Medium && Grouped(h, m, l)
    ensures Insert(x, h + m + l, PriorityCompare) == h + [x] + m + l
  {
    var s := m + l;
    assert h + m + l == h + s;
    InsertPast(x, h, s, PriorityCompare);
    if s != [] {
      assert s[0] == if m != [] then m[0] else l[0];
      assert PriorityCompare(x, s[0]) <= 0;
    }
    assert h + ([x] + s) == h + [x] + m + l;
  }

  /** A low record goes after the high and medium ones, in front of the low ones. */
  lemma InsertLow(x: Todo, h: seq<Todo>, m: seq<Todo>, l: seq<Todo>)
    requires x.priority == Low && Grouped(h, m, l)
    ensures Insert(x, h + m + l, PriorityCompare) == h + m + [x] + l
  {
    var p := h + m;
    forall i | 0 <= i < |p| ensures PriorityCompare(x, p[i]) > 0 {
      assert p[i] == if i < |h| then h[i] else m[i - |h|];
    }
    InsertPast(x, p, l, PriorityCompare);
    if l != [] {
      assert PriorityCompare(x, l[0]) <= 0;
    }
  }

  /** Where the head of a list goes among the priority classes of the list. */
  lemma BucketsCons(x: Todo, rest: seq<Todo>)
    ensures var h, m, l := Filter(rest, IsHighPriority), Filter(rest, IsMediumPriority), Filter(rest, IsLowPriority);
      Buckets([x] + rest) == match x.priority
        case High => [x] + h + m + l
        case Medium => h + [x] + m + l
        case Low => h + m + [x] + l
  {
    FilterCons(x, rest, IsHighPriority);
    FilterCons(x, rest, IsMediumPriority);
    FilterCons(x, rest, IsLowPriority);
  }

  /** Sorting by priority is stable: the view is the high records, then the
      medium ones, then the low ones, each group in the list's own order. */
  lemma {:induction false} PrioritySortIsBuckets(s: seq<Todo>)
    ensures SortBy(s, PriorityCompare) == Buckets(s)
  {
    if s != [] {
      var x, rest := s[0], s[1..];
      assert s == [x] + rest;
      PrioritySortIsBuckets(rest);
      var h, m, l := Filter(rest, IsHighPriority), Filter(rest, IsMediumPriority), Filter(rest, IsLowPriority);
      assert SortBy(s, PriorityCompare) == Insert(x, h + m + l, PriorityCompare);
      BucketsCons(x, rest);
      assert Grouped(h, m, l);
      match x.priority
      case High => InsertHigh(x, h, m, l);
      case Medium => InsertMedium(x, h, m, l);
      case Low => InsertLow(x, h, m, l);
    }
  }

  /** The priority view of the component is exactly that grouping. */
  lemma PriorityViewIsBuckets(todos: seq<Todo>, collate: (string, string) -> int)
    ensures SortedView(todos, ByPriority, collate) == Buckets(todos)
  {
    PrioritySortIsBuckets(todos);
  }
}
