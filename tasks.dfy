/**
 * The task list of the tasks page: adding, toggling, deleting and replacing tasks by id, and the
 * visible list, which is the tasks that match the search text and the category filter, sorted by
 * due date or by priority when a sort is chosen.
 */
module Tasks {
  import opened Wrappers
  import Seqs
  import Text
  import Sorting

  /**
   * A stored task. A property the task does not have is `None`. `text` is a property the declared
   * type does not have and the form never writes, but which the list reads.
   */
  datatype Task = Task(
    id: string,
    description: string,
    dueDate: Option<string>,
    category: Option<string>,
    recurrence: Option<string>,
    notes: Option<string>,
    priority: Option<string>,
    completed: Option<bool>,
    createdAt: Option<string>,
    text: Option<string>)

  /** JavaScript's `x || fallback` for an optional string: a missing or empty value gives the fallback. */
  function OrElse(x: Option<string>, fallback: string): (r: string)
    ensures x == None || x == Some("") ==> r == fallback
    ensures x.Some? && x.value != "" ==> r == x.value
  {
    if x.Some? && x.value != "" then x.value else fallback
  }

  /** JavaScript truthiness of an optional boolean. */
  predicate IsDone(completed: Option<bool>)
  {
    completed == Some(true)
  }

  /** `{ ...t, completed: !t.completed }`. */
  function Toggled(t: Task): (r: Task)
    ensures r.(completed := t.completed) == t
    ensures r.completed.Some? && (IsDone(r.completed) <==> !IsDone(t.completed))
  {
    t.(completed := Some(!IsDone(t.completed)))
  }

  /** `addTask`: the new task goes at the end and the existing tasks stay as they were. */
  function AddTask(tasks: seq<Task>, task: Task): (r: seq<Task>)
    ensures |r| == |tasks| + 1 && r[|tasks|] == task
    ensures r[..|tasks|] == tasks
  {
    tasks + [task]
  }

  /** `toggleTask`: every task with the id has its `completed` negated; nothing else changes. */
  function ToggleTask(tasks: seq<Task>, id: string): (r: seq<Task>)
    ensures |r| == |tasks|
    ensures forall i :: 0 <= i < |tasks| && tasks[i].id != id ==> r[i] == tasks[i]
    ensures forall i :: 0 <= i < |tasks| && tasks[i].id == id ==>
      r[i] == tasks[i].(completed := r[i].completed) && r[i].completed == Some(!IsDone(tasks[i].completed))
  {
    Seqs.Map(tasks, (t: Task) => if t.id == id then Toggled(t) else t)
  }

  /** `deleteTask`: exactly the tasks without the id remain. */
  function DeleteTask(tasks: seq<Task>, id: string): (r: seq<Task>)
    ensures forall i :: 0 <= i < |r| ==> r[i].id != id && r[i] in tasks
    ensures forall i :: 0 <= i < |tasks| && tasks[i].id != id ==> tasks[i] in r
  {
    Seqs.Filter(tasks, (t: Task) => t.id != id)
  }

  /** The replacement inside `saveEdit`: every task carrying the id of `updated` becomes `updated`. */
  function ReplaceTask(tasks: seq<Task>, updated: Task): (r: seq<Task>)
    ensures |r| == |tasks|
    ensures forall i :: 0 <= i < |tasks| ==> r[i] == if tasks[i].id == updated.id then updated else tasks[i]
  {
    Seqs.Map(tasks, (t: Task) => if t.id == updated.id then updated else t)
  }

  /** The three sort choices of the page. */
  datatype SortBy = NoSort | ByDueDate | ByPriority

  /** The state of the tasks page. */
  datatype Page = Page(
    tasks: seq<Task>,
    editingTask: Option<Task>,
    search: string,
    filterCategory: string,
    sortBy: SortBy)

  /** `editTask`: the task the form is to edit. */
  function EditTask(p: Page, t: Task): (r: Page)
    ensures r.editingTask == Some(t)
    ensures r.(editingTask := p.editingTask) == p
  {
    p.(editingTask := Some(t))
  }

  /** `saveEdit`: the task is replaced by id and the page leaves edit mode. */
  function SaveEdit(p: Page, updated: Task): (r: Page)
    ensures r.tasks == ReplaceTask(p.tasks, updated) && r.editingTask == None
    ensures r.search == p.search && r.filterCategory == p.filterCategory && r.sortBy == p.sortBy
  {
    p.(tasks := ReplaceTask(p.tasks, updated), editingTask := None)
  }

  /** `s.toLowerCase().includes(search.toLowerCase())`. */
  predicate SearchMatches(s: string, search: string)
  {
    Text.Includes(Text.ToLower(s), Text.ToLower(search))
  }

  /** `filterCategory ? t.category === filterCategory : true`. */
  predicate CategoryMatches(t: Task, category: string)
  {
    category != "" ==> t.category == Some(category)
  }

  /** The filter of the visible list: case-insensitive search on the description, and the category if one is chosen. */
  predicate Matches(t: Task, search: string, category: string)
  {
    SearchMatches(t.description, search) && CategoryMatches(t, category)
  }

  /** The rank of a priority in the page's order table; a missing priority reads as "low". `None` stands for `NaN`. */
  function Rank(priority: Option<string>): (r: Option<int>)
    ensures r == Some(1) <==> priority == None || priority == Some("") || priority == Some("low")
    ensures r == Some(2) <==> priority == Some("medium")
    ensures r == Some(3) <==> priority == Some("high")
    ensures r == None <==> priority.Some? && priority.value !in {"", "low", "medium", "high"}
    ensures r.Some? ==> 1 <= r.value <= 3
  {
    var p := OrElse(priority, "low");
    if p == "low" then Some(1)
    else if p == "medium" then Some(2)
    else if p == "high" then Some(3)
    else None
  }

  /** The due-date key: a missing due date reads as "". */
  function DueKey(t: Task): string
  {
    OrElse(t.dueDate, "")
  }

  /** The comparator with no sort chosen. */
  function NoSortCmp(a: Task, b: Task): int
  {
    0
  }

  /** The due-date comparator; `localeCompare` is taken as ordinal comparison. */
  function DueDateCmp(a: Task, b: Task): (r: int)
    ensures -1 <= r <= 1
    ensures r == 0 <==> DueKey(a) == DueKey(b)
    ensures DueKey(a) == "" && DueKey(b) != "" ==> r < 0
  {
    Text.CompareZeroIffEqual(DueKey(a), DueKey(b));
    Text.EmptyComesFirst(DueKey(b));
    Text.Compare(DueKey(a), DueKey(b))
  }

  /** The priority comparator `order[b] - order[a]`; a `NaN` difference counts as 0, as in `sort`. */
  function PriorityCmp(a: Task, b: Task): (r: int)
    ensures -2 <= r <= 2
    ensures a.priority == b.priority ==> r == 0
    ensures Rank(a.priority).Some? && Rank(b.priority).Some? ==>
      (r > 0 <==> Rank(b.priority).value > Rank(a.priority).value)
  {
    match (Rank(b.priority), Rank(a.priority))
    case (Some(rb), Some(ra)) => rb - ra
    case _ => 0
  }

  function Comparator(sortBy: SortBy): (Task, Task) -> int
  {
    match sortBy
    case NoSort => NoSortCmp
    case ByDueDate => DueDateCmp
    case ByPriority => PriorityCmp
  }

  /**
   * The filter as the page writes it: the search reads `t.text`, and on a task without that
   * property `t.text.toLowerCase()` throws a `TypeError`, which `None` stands for.
   */
  function FilteredAsWritten(tasks: seq<Task>, search: string, category: string): (r: Option<seq<Task>>)
    ensures r.Some? <==> forall i :: 0 <= i < |tasks| ==> tasks[i].text.Some?
    ensures r.Some? ==> forall i :: 0 <= i < |r.value| ==> r.value[i] in tasks
  {
    if tasks == [] then Some([])
    else if tasks[0].text.None? then None
    else
      match FilteredAsWritten(tasks[1..], search, category)
      case None => None
      case Some(rest) =>
        var t := tasks[0];
        Some((if SearchMatches(t.text.value, search) && CategoryMatches(t, category) then [t] else []) + rest)
  }

  /** The tasks matching the search and the category, in stored order. */
  function Filtered(tasks: seq<Task>, search: string, category: string): (r: seq<Task>)
    ensures forall t :: t in r <==> t in tasks && Matches(t, search, category)
  {
    Seqs.Filter(tasks, (t: Task) => Matches(t, search, category))
  }

  /** `filteredTasks`: filter, then sort by the chosen comparator. */
  function Visible(p: Page): (r: seq<Task>)
    ensures multiset(r) == multiset(Filtered(p.tasks, p.search, p.filterCategory))
  {
    Sorting.Sort(Filtered(p.tasks, p.search, p.filterCategory), Comparator(p.sortBy))
  }

  // ---- Properties of the list operations ----

  /** Toggling twice turns every matching task's `completed` into the boolean it stood for. */
  lemma ToggleTwice(tasks: seq<Task>, id: string)
    ensures |ToggleTask(ToggleTask(tasks, id), id)| == |tasks|
    ensures forall i :: 0 <= i < |tasks| ==>
      ToggleTask(ToggleTask(tasks, id), id)[i]
        == (if tasks[i].id == id then tasks[i].(completed := Some(IsDone(tasks[i].completed))) else tasks[i])
  {
  }

  /** When every task with the id has a boolean `completed`, toggling twice restores the list. */
  lemma ToggleTwiceRestores(tasks: seq<Task>, id: string)
    requires forall i :: 0 <= i < |tasks| && tasks[i].id == id ==> tasks[i].completed.Some?
    ensures ToggleTask(ToggleTask(tasks, id), id) == tasks
  {
    var r := ToggleTask(ToggleTask(tasks, id), id);
    ToggleTwice(tasks, id);
    forall i | 0 <= i < |tasks| ensures r[i] == tasks[i] {
      if tasks[i].id == id {
        var c := tasks[i].completed;
        assert IsDone(c) == c.value && c == Some(c.value);
      }
    }
  }

  /** Deleting keeps the remaining tasks in their original relative order. */
  lemma DeleteKeepsOrder(tasks: seq<Task>, id: string)
    ensures Seqs.IsSubsequence(DeleteTask(tasks, id), tasks)
  {
    Seqs.FilterIsSubsequence(tasks, (t: Task) => t.id != id);
  }

  /** The deleted and the kept tasks together are the original tasks, counted with multiplicity. */
  lemma DeleteRemovesOnlyTheId(tasks: seq<Task>, id: string)
    ensures multiset(DeleteTask(tasks, id)) + multiset(Seqs.Filter(tasks, (t: Task) => t.id == id)) == multiset(tasks)
  {
    Seqs.FilterSplitsMultiset(tasks, (t: Task) => t.id != id, (t: Task) => t.id == id);
  }

  /** Deleting an id no task carries changes nothing. */
  lemma DeleteAbsent(tasks: seq<Task>, id: string)
    requires forall i :: 0 <= i < |tasks| ==> tasks[i].id != id
    ensures DeleteTask(tasks, id) == tasks
  {
    Seqs.FilterAll(tasks, (t: Task) => t.id != id);
  }

  /** Adding a task and then deleting its id is the same as deleting the id. */
  lemma DeleteAfterAdd(tasks: seq<Task>, task: Task)
    ensures DeleteTask(AddTask(tasks, task), task.id) == DeleteTask(tasks, task.id)
  {
    Seqs.FilterConcat(tasks, [task], (t: Task) => t.id != task.id);
  }

  /** Saving the same edit twice is the same as saving it once. */
  lemma ReplaceIdempotent(tasks: seq<Task>, updated: Task)
    ensures ReplaceTask(ReplaceTask(tasks, updated), updated) == ReplaceTask(tasks, updated)
  {
    var once := ReplaceTask(tasks, updated);
    assert forall i :: 0 <= i < |tasks| ==> ReplaceTask(once, updated)[i] == once[i];
  }

  // ---- Properties of the visible list ----

  /** The visible list holds exactly the matching tasks, each as often as it is stored. */
  lemma VisibleIsFilteredPermutation(p: Page)
    ensures multiset(Visible(p)) == multiset(Filtered(p.tasks, p.search, p.filterCategory))
    ensures forall t :: t in Visible(p) <==> t in p.tasks && Matches(t, p.search, p.filterCategory)
  {
    var f := Filtered(p.tasks, p.search, p.filterCategory);
    forall t ensures t in Visible(p) <==> t in p.tasks && Matches(t, p.search, p.filterCategory) {
      assert t in Visible(p) <==> t in multiset(f);
      if t in p.tasks && Matches(t, p.search, p.filterCategory) {
        var i :| 0 <= i < |p.tasks| && p.tasks[i] == t;
        assert t in f;
      }
    }
  }

  /** With an empty search and no category every task matches. */
  lemma EmptyFilterKeepsAll(tasks: seq<Task>)
    ensures Filtered(tasks, "", "") == tasks
  {
    forall i | 0 <= i < |tasks| ensures Matches(tasks[i], "", "") {
      Text.IncludesEmpty(Text.ToLower(tasks[i].description));
    }
    Seqs.FilterAll(tasks, (t: Task) => Matches(t, "", ""));
  }

  /** With no sort chosen, the visible list keeps the stored order (the sort is stable). */
  lemma NoSortKeepsOrder(p: Page)
    requires p.sortBy == NoSort
    ensures Visible(p) == Filtered(p.tasks, p.search, p.filterCategory)
  {
    Sorting.SortAllEqual(Filtered(p.tasks, p.search, p.filterCategory), NoSortCmp);
  }

  /** With an empty search, no category and no sort, every task is shown in stored order. */
  lemma NothingChosenShowsAll(p: Page)
    requires p.search == "" && p.filterCategory == "" && p.sortBy == NoSort
    ensures Visible(p) == p.tasks
  {
    EmptyFilterKeepsAll(p.tasks);
    NoSortKeepsOrder(p);
  }

  /** The tasks of one rank. */
  function WithRank(s: seq<Task>, rank: int): seq<Task>
  {
    Seqs.Filter(s, (t: Task) => Rank(t.priority) == Some(rank))
  }

  /** The priorities of `s` are all in the order table (or missing). */
  predicate KnownPriorities(s: seq<Task>)
  {
    forall i :: 0 <= i < |s| ==> Rank(s[i].priority).Some?
  }

  /** With both ranks known, the priority comparator is the difference of the ranks. */
  lemma PriorityCmpRanks(a: Task, b: Task)
    requires Rank(a.priority).Some? && Rank(b.priority).Some?
    ensures PriorityCmp(a, b) == Rank(b.priority).value - Rank(a.priority).value
  {
  }

  /** Every task of `s` has a known rank within `lo..hi`. */
  predicate RanksWithin(s: seq<Task>, lo: int, hi: int)
  {
    forall i :: 0 <= i < |s| ==> Rank(s[i].priority).Some? && lo <= Rank(s[i].priority).value <= hi
  }

  lemma RanksWithinConcat(a: seq<Task>, b: seq<Task>, lo: int, hi: int)
    requires RanksWithin(a, lo, hi) && RanksWithin(b, lo, hi)
    ensures RanksWithin(a + b, lo, hi)
  {
    forall i | 0 <= i < |a + b|
      ensures Rank((a + b)[i].priority).Some? && lo <= Rank((a + b)[i].priority).value <= hi
    {
      if i < |a| { assert (a + b)[i] == a[i]; } else { assert (a + b)[i] == b[i - |a|]; }
    }
  }

  /** A task lands after a block of strictly higher rank and before a block of no higher rank. */
  lemma InsertAtRank(x: Task, a: seq<Task>, b: seq<Task>)
    requires Rank(x.priority).Some?
    requires RanksWithin(a, Rank(x.priority).value + 1, 3)
    requires RanksWithin(b, 1, Rank(x.priority).value)
    ensures Sorting.Insert(x, a + b, PriorityCmp) == a + [x] + b
  {
    forall i | 0 <= i < |a| ensures PriorityCmp(x, a[i]) > 0 {
      PriorityCmpRanks(x, a[i]);
    }
    if b != [] {
      PriorityCmpRanks(x, b[0]);
    }
    Sorting.InsertAfterBlock(x, a, b, PriorityCmp);
  }

  /** Inserting one task into a list already grouped high, medium, low puts it at the end of its group. */
  lemma InsertIntoGroups(x: Task, h: seq<Task>, m: seq<Task>, l: seq<Task>)
    requires Rank(x.priority).Some?
    requires RanksWithin(h, 3, 3) && RanksWithin(m, 2, 2) && RanksWithin(l, 1, 1)
    ensures Sorting.Insert(x, h + m + l, PriorityCmp) ==
      if Rank(x.priority) == Some(3) then [x] + h + m + l
      else if Rank(x.priority) == Some(2) then h + [x] + m + l
      else h + m + [x] + l
  {
    var rx := Rank(x.priority).value;
    if rx == 3 {
      RanksWithinConcat(h, m, 1, 3);
      RanksWithinConcat(h + m, l, 1, 3);
      InsertAtRank(x, [], h + m + l);
      assert [] + (h + m + l) == h + m + l;
      assert [] + [x] == [x];
      Seqs.ConcatAssoc([x], h + m, l);
      Seqs.ConcatAssoc([x], h, m);
    } else if rx == 2 {
      RanksWithinConcat(m, l, 1, 2);
      InsertAtRank(x, h, m + l);
      Seqs.ConcatAssoc(h, m, l);
      Seqs.ConcatAssoc(h + [x], m, l);
    } else {
      RanksWithinConcat(h, m, 2, 3);
      InsertAtRank(x, h + m, l);
    }
  }

  /** Sorting by priority puts the high tasks first, then the medium ones, then the low ones, each group in its original order. */
  lemma {:induction false} PrioritySortGroups(s: seq<Task>)
    requires KnownPriorities(s)
    ensures Sorting.Sort(s, PriorityCmp) == WithRank(s, 3) + WithRank(s, 2) + WithRank(s, 1)
  {
    if s != [] {
      var x, s' := s[0], s[1..];
      assert KnownPriorities(s') by {
        forall i | 0 <= i < |s'| ensures Rank(s'[i].priority).Some? {
          assert s'[i] == s[i + 1];
        }
      }
      PrioritySortGroups(s');
      var h, m, l := WithRank(s', 3), WithRank(s', 2), WithRank(s', 1);
      WithRankWithin(s', 3);
      WithRankWithin(s', 2);
      WithRankWithin(s', 1);
      InsertIntoGroups(x, h, m, l);
      WithRankCons(s, 3);
      WithRankCons(s, 2);
      WithRankCons(s, 1);
      assert Sorting.Sort(s, PriorityCmp) == Sorting.Insert(x, h + m + l, PriorityCmp);
      var rx := Rank(x.priority).value;
      if rx == 3 {
        assert WithRank(s, 3) == [x] + h && WithRank(s, 2) == m && WithRank(s, 1) == l;
      } else if rx == 2 {
        assert WithRank(s, 3) == h && WithRank(s, 2) == [x] + m && WithRank(s, 1) == l;
        Seqs.ConcatAssoc(h, [x], m);
      } else {
        assert WithRank(s, 3) == h && WithRank(s, 2) == m && WithRank(s, 1) == [x] + l;
        Seqs.ConcatAssoc(h + m, [x], l);
      }
    }
  }

  lemma WithRankWithin(s: seq<Task>, k: int)
    ensures RanksWithin(WithRank(s, k), k, k)
  {
  }

  lemma WithRankCons(s: seq<Task>, k: int)
    requires s != []
    ensures WithRank(s, k) == (if Rank(s[0].priority) == Some(k) then [s[0]] else []) + WithRank(s[1..], k)
  {
  }

  /** With every priority known, the priority comparator is consistent. */
  lemma PriorityCmpConsistent(s: seq<Task>)
    requires KnownPriorities(s)
    ensures Sorting.ConsistentOn(PriorityCmp, s)
  {
    assert forall t | t in s :: Rank(t.priority).Some?;
  }

  /** The due-date comparator is consistent on every list. */
  lemma DueDateCmpConsistent(s: seq<Task>)
    ensures Sorting.ConsistentOn(DueDateCmp, s)
  {
    forall a, b | a in s && b in s ensures DueDateCmp(a, b) > 0 <==> DueDateCmp(b, a) < 0 {
      Text.CompareAntisymmetric(DueKey(a), DueKey(b));
    }
    forall a, b, c | a in s && b in s && c in s && DueDateCmp(a, b) <= 0 && DueDateCmp(b, c) <= 0
      ensures DueDateCmp(a, c) <= 0
    {
      Text.CompareTransitive(DueKey(a), DueKey(b), DueKey(c));
    }
  }

  /**
   * Sorting by due date: tasks without a due date come first, the dates ascend, and tasks with
   * the same date keep their stored order.
   */
  lemma DueDateSortOrder(s: seq<Task>, e: Task)
    ensures Sorting.SortedBy(Sorting.Sort(s, DueDateCmp), DueDateCmp)
    ensures forall i, j :: 0 <= i < j < |s| && DueKey(Sorting.Sort(s, DueDateCmp)[j]) == "" ==>
      DueKey(Sorting.Sort(s, DueDateCmp)[i]) == ""
    ensures Sorting.EquivalentTo(Sorting.Sort(s, DueDateCmp), DueDateCmp, e) == Sorting.EquivalentTo(s, DueDateCmp, e)
  {
    DueDateCmpConsistent(s);
    DueDateCmpConsistent([e] + s);
    Sorting.SortSorted(s, DueDateCmp);
    var r := Sorting.Sort(s, DueDateCmp);
    assert |r| == |s| by {
      assert |multiset(r)| == |multiset(s)|;
    }
    forall i, j | 0 <= i < j < |s| && DueKey(r[j]) == "" ensures DueKey(r[i]) == "" {
      assert Text.Compare(DueKey(r[i]), "") <= 0;
      Text.CompareAntisymmetric(DueKey(r[i]), "");
      Text.EmptyComesFirst(DueKey(r[i]));
    }
    Sorting.SortStable(s, DueDateCmp, e);
  }

  /** Sorting by priority never puts a lower rank before a higher one, when all priorities are known. */
  lemma PrioritySortOrder(s: seq<Task>)
    requires KnownPriorities(s)
    ensures Sorting.SortedBy(Sorting.Sort(s, PriorityCmp), PriorityCmp)
  {
    PriorityCmpConsistent(s);
    Sorting.SortSorted(s, PriorityCmp);
  }

  // ---- The filter as written ----

  /** A single task without `text` anywhere in the list makes the filter throw. */
  lemma {:induction false} MissingTextThrows(tasks: seq<Task>, search: string, category: string, i: int)
    requires 0 <= i < |tasks| && tasks[i].text.None?
    ensures FilteredAsWritten(tasks, search, category) == None
  {
    if i > 0 {
      MissingTextThrows(tasks[1..], search, category, i - 1);
    }
  }

  /** The filter as written throws only when some task lacks `text`. */
  lemma {:induction false} AllTextNeverThrows(tasks: seq<Task>, search: string, category: string)
    requires forall i :: 0 <= i < |tasks| ==> tasks[i].text.Some?
    ensures FilteredAsWritten(tasks, search, category).Some?
  {
    if tasks != [] {
      AllTextNeverThrows(tasks[1..], search, category);
    }
  }

  /** Where every task's `text` is its description, the filter as written and the corrected filter agree. */
  lemma {:induction false} AsWrittenAgreesOnText(tasks: seq<Task>, search: string, category: string)
    requires forall i :: 0 <= i < |tasks| ==> tasks[i].text == Some(tasks[i].description)
    ensures FilteredAsWritten(tasks, search, category) == Some(Filtered(tasks, search, category))
  {
    if tasks != [] {
      AsWrittenAgreesOnText(tasks[1..], search, category);
      var t := tasks[0];
      assert Filtered(tasks, search, category)
        == (if Matches(t, search, category) then [t] else []) + Filtered(tasks[1..], search, category);
    }
  }
}
