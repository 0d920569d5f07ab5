# Smart Tasks: a verified model of the task-list core

Smart Tasks is a single React component, `src/App.tsx`. Under its markup it
keeps a list of `Todo` records and the contents of an entry form. Three
handlers replace that list. `addTodo` appends the trimmed input as a new open
record. `toggleTodo` flips `completed` on the records with a given id.
`deleteTodo` drops the records with a given id. The component renders a sorted
copy of the list, ordered by due date, priority or category. It also shows two
summary figures: how many records are completed and how many are high priority.

This project models that core in Dafny:

- `text.dfy` (module `Text`) models JavaScript's `String.prototype.trim` over the
  ECMA-262 white-space and line-terminator characters. It also models the
  lexicographic `<`/`>` on strings that the date key uses.
- `todo_list.dfy` (module `TodoList`) holds the `Todo` record and the
  three-valued `Priority`. It defines the pure list operations the handlers
  install: `Toggle` (the `map`) and `Delete` (the `filter`). It also defines the
  summary counts and the priority colour.
- `sorting.dfy` (module `Sorting`) models the comparators of the sort selector.
  It models `Array.prototype.sort` as a stable insertion sort `SortBy`. For a
  consistent comparator the ECMAScript standard fixes the outcome of a stable
  sort, so this model gives the same result as any conforming engine.
- `app.dfy` (module `App`) holds the class `TodoApp`. Its fields are the
  component's state: `todos`, `newTodo`, `dueDate`, `priority`, `category` and
  `sortBy`. Its methods are the handlers. Each method replaces fields with
  values built by the pure operations, just as the component calls its setters.
  The class invariant `Valid()` says that every stored text is non-empty and
  trimmed. Every method keeps it.

Two behaviours of the source are easy to miss:

- A task without a due date has the empty string as its date key
  (`a.dueDate || ''`), which precedes every date. Under the repaired date key
  the model uses (see Findings) undated tasks therefore sort first. Under the
  comparator as written, the order of tasks with equal keys, undated ones
  included, is implementation-defined.
- Record ids are not checked for uniqueness; toggle and delete act on every
  record that carries the id.

## Model

| member | source | states |
|---|---|---|
| `Text.LeadingBlanks` | src/App.tsx:33 | the count of leading characters `trim()` removes: all of them blank, and the next one is not |
| `Text.TrailingBlanks` | src/App.tsx:33 | the count of trailing characters `trim()` removes: all of them blank, and the one before is not |
| `Text.Trim` | src/App.tsx:33-36 | `trim()` returns a string with no blank at either end, no longer than the input, and empty exactly when the input is blank throughout (the guard of addTodo) |
| `Text.TrimSplits` | src/App.tsx:36 | the input is the trimmed text with only blank padding before and after it, so the stored text is the input minus that padding |
| `Text.TrimIdempotent` | src/App.tsx:36 | trimming a stored (already trimmed) text again changes nothing |
| `Text.TrimOfTrimmed` | src/App.tsx:36 | a text with no blank at either end is its own trim |
| `Text.StrLess` | src/App.tsx:60 | the string `>` of the date key, read with its arguments swapped: lexicographic, and a proper prefix comes before every string it starts |
| `Text.StrLessIrreflexive` | src/App.tsx:60 | no string is greater than itself under the `>` of the date key |
| `Text.StrLessTotal` | src/App.tsx:60 | any two different date keys are ordered one way or the other |
| `Text.StrLessAsymmetric` | src/App.tsx:60 | two date keys are never ordered both ways |
| `Text.StrLessTrichotomy` | src/App.tsx:60 | two date keys are equal or ordered one way, and exactly one of these holds |
| `Text.StrLessTransitive` | src/App.tsx:60 | string order on date keys is transitive |
| `TodoList.Rank` | src/App.tsx:62 | `priorityOrder` maps each priority to a rank between 1 and 3 |
| `TodoList.RankOrdersPriorities` | src/App.tsx:62 | ranks are distinct per priority and high > medium > low |
| `TodoList.PriorityColor` | src/App.tsx:70-77 | `getPriorityColor` is total: every priority gets one of the red, yellow or green classes, and the gray fallback is never returned |
| `TodoList.PriorityColorInjective` | src/App.tsx:71-74 | different priorities get different colours |
| `TodoList.Filter` | src/App.tsx:54 | `filter` returns no more records than it is given, and each one it returns passes the test |
| `TodoList.FilterMultiset` | src/App.tsx:54 | `filter` keeps each passing record as often as the input holds it and drops every other one |
| `TodoList.FilterSubsequence` | src/App.tsx:54 | `filter` never reorders: its result is a subsequence of the input |
| `TodoList.FilterAppend` | src/App.tsx:54 | filtering a concatenation is the concatenation of the filtered parts |
| `TodoList.FilterKeepsAll` | src/App.tsx:54 | a filter that accepts every record returns the list unchanged |
| `TodoList.FilterFull` | src/App.tsx:217 | a filter that returns every record accepted each of them |
| `TodoList.FilterMisses` | src/App.tsx:217 | a filter that returns fewer records rejected at least one |
| `TodoList.FilterCons` | src/App.tsx:54 | filtering a list with a given head: the head if kept, then the filtered tail |
| `TodoList.FilterUnfold` | src/App.tsx:54 | filtering a non-empty list: its head if kept, then its filtered tail |
| `TodoList.Flip` | src/App.tsx:49 | `{ ...todo, completed: !todo.completed }` negates `completed` and keeps every other field |
| `TodoList.Toggle` | src/App.tsx:47-51 | same length and order; every field of every record is kept, except that `completed` changes exactly on the records whose id matches |
| `TodoList.ToggleTwice` | src/App.tsx:47-51 | toggling the same id twice restores the list |
| `TodoList.ToggleAbsent` | src/App.tsx:47-51 | toggling an id no record carries leaves the list as it was |
| `TodoList.Delete` | src/App.tsx:53-55 | no record with the id survives; every other record is kept as often as before; the order is kept (subsequence) |
| `TodoList.DeleteAbsent` | src/App.tsx:53-55 | deleting an id no record carries leaves the list as it was |
| `TodoList.DeleteTwice` | src/App.tsx:53-55 | deleting the same id again changes nothing |
| `TodoList.DeleteAppend` | src/App.tsx:53-55 | deleting from two concatenated parts deletes from each part in place (relative order kept) |
| `TodoList.DeleteLength` | src/App.tsx:53-55 | the list shrinks by exactly the number of records carrying the id |
| `TodoList.CompletedCount` | src/App.tsx:217 | the completed figure is at most the list length, and equals it exactly when every record is completed |
| `TodoList.HighPriorityCount` | src/App.tsx:221 | the high-priority figure is at most the list length, and is zero exactly when no record is high |
| `TodoList.HighPriorityCountIgnoresCompletion` | src/App.tsx:221 | the high-priority figure counts completed records too: toggling never changes it |
| `TodoList.CompletedCountAfterToggle` | src/App.tsx:47-51 | after a toggle the completed figure gains the matching open records and loses the matching completed ones |
| `TodoList.CountsAfterAppend` | src/App.tsx:34-41 | appending a new open record keeps the completed figure and raises the high figure by one exactly for a high record |
| `Sorting.Insert` | src/App.tsx:57 | one insertion step of the sort adds exactly one record (which one: `InsertPermutes`) |
| `Sorting.SortBy` | src/App.tsx:57 | `[...todos].sort(...)` returns a copy of the same length (its contents: `SortByPermutes`; its order: `SortBySorted`) |
| `Sorting.InsertPermutes` | src/App.tsx:57 | one insertion step of the sort adds exactly the inserted record |
| `Sorting.SortByPermutes` | src/App.tsx:57 | the sorted copy is a permutation of the list |
| `Sorting.SortedCons` | src/App.tsx:57 | a sorted list stays sorted with a lower bound put in front |
| `Sorting.InsertKeepsLowerBound` | src/App.tsx:57 | a lower bound of a list and of the inserted record stays a lower bound after insertion |
| `Sorting.InsertSorted` | src/App.tsx:57 | with a consistent comparator, inserting into a sorted list keeps it sorted |
| `Sorting.SortBySorted` | src/App.tsx:57 | with a consistent comparator, the sorted copy is in order |
| `Sorting.PriorityCompare` | src/App.tsx:61-63 | a record sorts before another exactly when its priority ranks higher, and ties exactly on equal priorities |
| `Sorting.PriorityCompareIsComparator` | src/App.tsx:61-63 | `priorityOrder[b] - priorityOrder[a]` is a consistent comparator |
| `Sorting.DateCompareAsWritten` | src/App.tsx:60 | the date key as written answers only 1 or -1, and 1 exactly when the first due date is greater |
| `Sorting.DateCompare` | src/App.tsx:60 | the repaired date key: -1, 0 or 1, zero exactly on equal due dates, negative exactly when the first is smaller |
| `Sorting.DateCompareAsWrittenIsInconsistent` | src/App.tsx:60 | the date key as written returns -1 both ways for equal due dates, so it is not a consistent comparator |
| `Sorting.DateCompareAtMostZero` | src/App.tsx:60 | under the repaired date key, "sorts no later" means "due-date text no greater" |
| `Sorting.DateCompareIsComparator` | src/App.tsx:60 | the date key with ties reported as 0 is a consistent comparator |
| `Sorting.CategoryCompare` | src/App.tsx:65 | the category key is a consistent comparator whenever localeCompare is |
| `Sorting.Comparator` | src/App.tsx:58-68 | the switch on the sort key. The (repaired) date entry agrees with the comparator of line 60 on every pair of distinct due dates and answers 0 on ties. The priority entry is the comparator of line 63, and the category entry the one of line 65. Each is consistent, the category entry whenever localeCompare is |
| `Sorting.SortedView` | src/App.tsx:57-69 | `sortedTodos` has the same length and the same records (with multiplicity) as `todos` |
| `Sorting.PriorityViewOrdered` | src/App.tsx:61-63 | under the priority key every high record precedes every medium one, which precedes every low one |
| `Sorting.DateViewOrdered` | src/App.tsx:60 | under the (repaired) date key due dates never descend; records without a date come first |
| `Sorting.CategoryViewOrdered` | src/App.tsx:65 | under the category key, categories ascend in the locale comparison |
| `Sorting.InsertPast` | src/App.tsx:57 | insertion skips a prefix of records the new one sorts after |
| `Sorting.InsertUnfold` | src/App.tsx:57 | insertion passes the head of a list the new record sorts after |
| `Sorting.InsertFront` | src/App.tsx:57 | insertion in front of a record the new one does not sort after |
| `Sorting.InsertHigh` | src/App.tsx:61-63 | a high record inserted into a priority-grouped list goes to the front |
| `Sorting.InsertMedium` | src/App.tsx:61-63 | a medium record goes after the high group, at the front of the medium group |
| `Sorting.InsertLow` | src/App.tsx:61-63 | a low record goes after the high and medium groups, at the front of the low group |
| `Sorting.BucketsCons` | src/App.tsx:61-63 | where a list's head falls among its priority groups |
| `Sorting.PrioritySortIsBuckets` | src/App.tsx:57-63 | the stable priority sort is the high records, then the medium ones, then the low ones, each group in list order |
| `Sorting.PriorityViewIsBuckets` | src/App.tsx:57-63 | the component's priority view is exactly that grouping |
| `App.TodoApp.constructor` | src/App.tsx:24-29 | initial state: no records, empty input and date, medium priority, category "personal", sort by date |
| `App.TodoApp.SetNewTodo` | src/App.tsx:102 | the input handler replaces `newTodo` and nothing else |
| `App.TodoApp.SetDueDate` | src/App.tsx:111 | the date handler replaces `dueDate` and nothing else |
| `App.TodoApp.SetPriority` | src/App.tsx:116 | the priority handler replaces `priority` and nothing else |
| `App.TodoApp.SetCategory` | src/App.tsx:125 | the category handler replaces `category` and nothing else |
| `App.TodoApp.SetSortBy` | src/App.tsx:147 | the sort selector replaces `sortBy` and nothing else |
| `App.TodoApp.AddTodo` | src/App.tsx:31-45 | blank input changes nothing. Otherwise exactly one record is appended after the unchanged old ones: the trimmed input, not completed, with the form's date, priority and category. Then input and date are cleared, and priority, category and sort key are kept |
| `App.TodoApp.ToggleTodo` | src/App.tsx:47-51 | the list becomes `Toggle` of the old list; the form is untouched; stored texts stay non-blank |
| `App.TodoApp.DeleteTodo` | src/App.tsx:53-55 | the list becomes `Delete` of the old list; the form is untouched; stored texts stay non-blank |
| `App.TodoApp.SortedTodos` | src/App.tsx:57-69 | the view is a permutation of the stored list; reading it changes no state |

## Left out

- Rendering, CSS, the animation string and the icons (src/App.tsx:14-22, 79-236) are presentation only.
- `Date.now()` (src/App.tsx:35) reads the wall clock. The id is a parameter of `AddTodo`, and the model claims no uniqueness because the source never checks it.
- `e.preventDefault()` (src/App.tsx:32) is a browser-event side effect.
- The progress-bar width (src/App.tsx:227) is a floating-point percentage. The model only proves that the completed figure is at most the list length.
- `localeCompare` (src/App.tsx:65) is locale-dependent and outside the program. It is the parameter `collate`.
- CategoryViewOrdered: the ordering is claimed only when `collate` is itself a consistent comparator (`IsComparator(collate)`), because the locale comparison is not part of this model.
- Comparator, SortedView, TodoApp.SortedTodos: the date entry is the repaired comparator `DateCompare`, not the comparator as written at src/App.tsx:60. With the comparator as written, ECMAScript leaves the sort order implementation-defined (see Findings). For that comparator the model promises only what `SortByPermutes` proves for every comparator: the view is a permutation of the list.
- SortBy: the engine's sort algorithm is modelled by a stable insertion sort. Any stable sort gives the same result for a consistent comparator. The model does not prove that uniqueness; for the priority key it is shown by `PrioritySortIsBuckets`.
- StrLess: JavaScript compares strings by UTF-16 code units, and the model compares by code point. The two orders differ only for characters outside the Basic Multilingual Plane. Date-input values are ASCII.
- The optional `dueDate?` field is a plain string in the model. `addTodo` always stores the form's string, and the sort key `dueDate || ''` treats a missing date and `''` alike.
- The unreachable `default` branches of the sort switch and of `getPriorityColor` are not modelled. The key and the priority are three-valued datatypes.
- React's batching of state updates and its render scheduling are not modelled. Each handler runs to completion on the state it reads.

## Findings

| source | as written | input that shows it | evidently intended | confidence | as-written member | corrected member |
|---|---|---|---|---|---|---|
| src/App.tsx:60 | the date comparator returns `-1` whenever the first key is not greater, including on equal keys | two records with the same due date (or both without one): each compares as sorting before the other | return `0` on equal keys, so that the comparator is consistent and the sort order is specified | medium; not executed | `Sorting.DateCompareAsWrittenIsInconsistent` | `Sorting.DateCompareIsComparator` |
