/** backend/src/milestone.rs: milestones of a board and their completion counts, derived
    on every read from the tasks on the board's lists. */
module Milestones {
  import opened Wrappers
  import opened Seqs
  import opened Db
  import Lists
  import Tasks

  /** `MilestoneResponse`: a milestone with its `done` and `total` counts. */
  datatype MilestoneResponse = MilestoneResponse(
    id: Option<int>, name: string, done: int, total: int, boardId: int, boardType: string)

  function OnMilestoneBoard(boardId: int, boardType: string): Milestone -> bool {
    (m: Milestone) => m.boardId == boardId && m.boardType == boardType
  }

  /** `matches(task.milestone, id)`. */
  function InMilestone(id: int): Task -> bool {
    (t: Task) => t.milestone == Some(id)
  }

  function DoneInMilestone(id: int): Task -> bool {
    (t: Task) => t.done == 1 && t.milestone == Some(id)
  }

  /** `Milestone::create`: one row, with the given key or a fresh one; a key already in
      use is a unique-constraint error and leaves the table unchanged. */
  method Create(db: Connection, milestone: Milestone) returns (r: QueryResult<nat>)
    requires db.Valid()
    modifies db`milestones, db`nextId
    ensures db.Valid()
    ensures r == if MilestonesTable in db.failing then Err(StoreFailure)
                 else if milestone.id.Some? && exists m :: m in old(db.milestones) && m.id == milestone.id
                 then Err(UniqueViolation)
                 else Ok(1)
    ensures var k := InsertedKey(milestone.id, old(db.nextId));
            if r.Ok?
            then db.milestones == old(db.milestones) + [milestone.(id := Some(k))]
                 && db.nextId == NextAfter(old(db.nextId), k)
            else db.milestones == old(db.milestones) && db.nextId == old(db.nextId)
  {
    if MilestonesTable in db.failing {
      return Err(StoreFailure);
    }
    if milestone.id.Some? && exists m :: m in db.milestones && m.id == milestone.id {
      return Err(UniqueViolation);
    }
    var k := InsertedKey(milestone.id, db.nextId);
    db.milestones := db.milestones + [milestone.(id := Some(k))];
    db.nextId := NextAfter(db.nextId, k);
    r := Ok(1);
  }

  /** The tasks of each list in turn, concatenated (the `tasks.append` loop). */
  function TasksOnLists(tasks: seq<Task>, lists: seq<List>): (r: seq<Task>)
    requires forall l :: l in lists ==> l.id.Some?
    ensures forall t :: t in r ==> t in tasks
    decreases |lists|
  {
    if lists == [] then []
    else
      var init := lists[..|lists| - 1];
      var last := lists[|lists| - 1];
      assert forall l :: l in init ==> l in lists;
      TasksOnLists(tasks, init) + Filter(tasks, Tasks.OnList(last.id.value))
  }

  /** The response for milestone `m` over the tasks gathered from its board. */
  function Stats(m: Milestone, boardTasks: seq<Task>): MilestoneResponse
    requires m.id.Some?
  {
    MilestoneResponse(m.id, m.name, |Filter(boardTasks, DoneInMilestone(m.id.value))|,
                      |Filter(boardTasks, InMilestone(m.id.value))|, m.boardId, m.boardType)
  }

  /** Every list has a key, as every stored list does. */
  predicate Keyed(lists: seq<List>) {
    forall l :: l in lists ==> l.id.Some?
  }

  /** What `get_stats` returns over the given tables: an error if the lists or any
      list's tasks cannot be read. */
  function StatsResult(failing: set<Table>, lists: seq<List>, tasks: seq<Task>, m: Milestone)
    : (r: QueryResult<MilestoneResponse>)
    requires Keyed(lists) && m.id.Some?
    ensures r.Err? ==> r.error == StoreFailure
  {
    if ListsTable in failing then Err(StoreFailure)
    else
      var own := Filter(lists, Lists.OnBoard(m.boardType, m.boardId));
      if own != [] && TasksTable in failing then Err(StoreFailure)
      else Ok(Stats(m, TasksOnLists(tasks, own)))
  }

  /** The result of `get_stats` for each milestone of `ms`, in order. */
  function StatsResults(failing: set<Table>, lists: seq<List>, tasks: seq<Task>, ms: seq<Milestone>)
    : seq<QueryResult<MilestoneResponse>>
    requires Keyed(lists) && forall m :: m in ms ==> m.id.Some?
  {
    seq(|ms|, k requires 0 <= k < |ms| => StatsResult(failing, lists, tasks, ms[k]))
  }

  /** The responses for `ms` in order; the first failing milestone aborts the whole call. */
  function Responses(failing: set<Table>, lists: seq<List>, tasks: seq<Task>, ms: seq<Milestone>)
    : QueryResult<seq<MilestoneResponse>>
    requires Keyed(lists) && forall m :: m in ms ==> m.id.Some?
  {
    Collect(StatsResults(failing, lists, tasks, ms))
  }

  /** `get` yields one response per milestone, each the one `get_stats` gives, in order;
      it fails iff some milestone's stats fail. */
  lemma ResponsesPerMilestone(failing: set<Table>, lists: seq<List>, tasks: seq<Task>, ms: seq<Milestone>)
    requires Keyed(lists) && forall m :: m in ms ==> m.id.Some?
    ensures Responses(failing, lists, tasks, ms).Err? ==> Responses(failing, lists, tasks, ms).error == StoreFailure
    ensures Responses(failing, lists, tasks, ms).Err? <==>
              exists k :: 0 <= k < |ms| && StatsResult(failing, lists, tasks, ms[k]).Err?
    ensures Responses(failing, lists, tasks, ms).Ok? ==>
              |Responses(failing, lists, tasks, ms).value| == |ms| &&
              forall k :: 0 <= k < |ms| ==>
                StatsResult(failing, lists, tasks, ms[k]) == Ok(Responses(failing, lists, tasks, ms).value[k])
  {
    var rs := StatsResults(failing, lists, tasks, ms);
    CollectFail(rs);
    if Collect(rs).Err? {
      var k :| 0 <= k < |rs| && rs[k] == Err(Collect(rs).error);
      assert rs[k] == StatsResult(failing, lists, tasks, ms[k]);
    } else {
      CollectValues(rs, Collect(rs).value);
    }
    if exists k :: 0 <= k < |ms| && StatsResult(failing, lists, tasks, ms[k]).Err? {
      var k :| 0 <= k < |ms| && StatsResult(failing, lists, tasks, ms[k]).Err?;
      assert rs[k].Err?;
    }
  }

  /** What `Milestone::get` returns. */
  function GetResult(failing: set<Table>, milestones: seq<Milestone>, lists: seq<List>, tasks: seq<Task>,
                     boardId: int, boardType: string): QueryResult<seq<MilestoneResponse>>
    requires Keyed(lists) && forall m :: m in milestones ==> m.id.Some?
  {
    if MilestonesTable in failing then Err(StoreFailure)
    else Responses(failing, lists, tasks, Filter(milestones, OnMilestoneBoard(boardId, boardType)))
  }

  /** `Milestone::get_stats`: load the board's lists, append each list's tasks, count. */
  method GetStats(db: Connection, milestone: Milestone) returns (r: QueryResult<MilestoneResponse>)
    requires db.ListsKeyed() && milestone.id.Some?
    ensures r == StatsResult(db.failing, db.lists, db.tasks, milestone)
  {
    var lists := Lists.Get(db, milestone.boardType, milestone.boardId);
    if lists.Err? {
      return Err(lists.error);
    }
    var tasks := GatherTasks(db, lists.value);
    if tasks.Err? {
      return Err(tasks.error);
    }
    var id := milestone.id.value;
    var total := |Filter(tasks.value, InMilestone(id))|;
    var done := |Filter(tasks.value, DoneInMilestone(id))|;
    r := Ok(MilestoneResponse(milestone.id, milestone.name, done, total, milestone.boardId, milestone.boardType));
  }

  /** The loop of `get_stats`: each list's tasks appended in turn; a failed read aborts. */
  method GatherTasks(db: Connection, lists: seq<List>) returns (r: QueryResult<seq<Task>>)
    requires Keyed(lists)
    ensures r == if lists != [] && TasksTable in db.failing then Err(StoreFailure)
                 else Ok(TasksOnLists(db.tasks, lists))
  {
    var tasks: seq<Task> := [];
    var i := 0;
    while i < |lists|
      invariant 0 <= i <= |lists|
      invariant i > 0 ==> TasksTable !in db.failing
      invariant tasks == TasksOnLists(db.tasks, lists[..i])
    {
      var onList := Tasks.Get(db, lists[i].id.value);
      if onList.Err? {
        return Err(onList.error);
      }
      assert lists[..i + 1][..i] == lists[..i];
      tasks := tasks + onList.value;
      i := i + 1;
    }
    assert lists[..i] == lists;
    r := Ok(tasks);
  }

  /** The loop of `Milestone::get`: the stats of each milestone in order, pushed onto
      `result`; the first error aborts. */
  method StatsOfAll(db: Connection, milestones: seq<Milestone>) returns (r: QueryResult<seq<MilestoneResponse>>)
    requires db.ListsKeyed() && forall m :: m in milestones ==> m.id.Some?
    ensures r == Responses(db.failing, db.lists, db.tasks, milestones)
  {
    ghost var all := StatsResults(db.failing, db.lists, db.tasks, milestones);
    var result: seq<MilestoneResponse> := [];
    var i := 0;
    while i < |milestones|
      invariant 0 <= i <= |milestones|
      invariant Collect(all[..i]) == Ok(result)
    {
      var stats := GetStats(db, milestones[i]);
      assert stats == all[i];
      if stats.Err? {
        CollectFirstError(all, i);
        return Err(stats.error);
      }
      CollectStep(all, i, result);
      result := result + [stats.value];
      i := i + 1;
    }
    assert all[..i] == all;
    r := Ok(result);
  }

  /** `Milestone::get`: load the board's milestones, then the stats of each in order. */
  method Get(db: Connection, boardId: int, boardType: string) returns (r: QueryResult<seq<MilestoneResponse>>)
    requires db.ListsKeyed() && db.MilestonesKeyed()
    ensures r == GetResult(db.failing, db.milestones, db.lists, db.tasks, boardId, boardType)
  {
    if MilestonesTable in db.failing {
      return Err(StoreFailure);
    }
    r := StatsOfAll(db, Filter(db.milestones, OnMilestoneBoard(boardId, boardType)));
  }

  /** Whether task `t` sits on a list of board (boardType, boardId). */
  predicate OnBoardList(lists: seq<List>, boardType: string, boardId: int, t: Task) {
    exists l :: l in lists && l.boardType == boardType && l.board == boardId && l.id == Some(t.list)
  }

  /** Whether a task sits on one of `lists`. */
  function OnSomeList(lists: seq<List>): Task -> bool {
    (t: Task) => exists l :: l in lists && l.id == Some(t.list)
  }

  /** The tasks `total` counts: on a list of the milestone's board, in the milestone. */
  function CountedInTotal(lists: seq<List>, m: Milestone): Task -> bool {
    (t: Task) => OnBoardList(lists, m.boardType, m.boardId, t) && t.milestone == m.id
  }

  /** The tasks `done` counts: those `total` counts that are done. */
  function CountedInDone(lists: seq<List>, m: Milestone): Task -> bool {
    (t: Task) => OnBoardList(lists, m.boardType, m.boardId, t) && (t.done == 1 && t.milestone == m.id)
  }

  /** Gathering the tasks list by list, over lists with distinct keys, yields every task on
      one of the lists exactly as often as it is stored. */
  lemma {:induction false} TasksOnListsMultiset(tasks: seq<Task>, lists: seq<List>)
    requires Keyed(lists) && Pairwise(lists, ListKeysDiffer)
    ensures multiset(TasksOnLists(tasks, lists)) == multiset(Filter(tasks, OnSomeList(lists)))
    decreases |lists|
  {
    if lists != [] {
      var init := lists[..|lists| - 1];
      var last := lists[|lists| - 1];
      assert forall l :: l in init ==> l in lists;
      assert lists == init + [last];
      PairwisePrefix(lists, |lists| - 1, ListKeysDiffer);
      TasksOnListsMultiset(tasks, init);
      GatheredSnoc(tasks, init, last, TasksOnLists(tasks, init));
    }
  }

  /** The inductive step of `TasksOnListsMultiset`. */
  lemma GatheredSnoc(tasks: seq<Task>, init: seq<List>, last: List, earlier: seq<Task>)
    requires last.id.Some? && Pairwise(init + [last], ListKeysDiffer)
    requires multiset(earlier) == multiset(Filter(tasks, OnSomeList(init)))
    ensures multiset(earlier + Filter(tasks, Tasks.OnList(last.id.value))) ==
            multiset(Filter(tasks, OnSomeList(init + [last])))
  {
    var onLast := Filter(tasks, Tasks.OnList(last.id.value));
    assert multiset(earlier + onLast) == multiset(earlier) + multiset(onLast);
    forall t ensures multiset(earlier + onLast)[t] == multiset(Filter(tasks, OnSomeList(init + [last])))[t] {
      OnSomeListSnoc(init, last, t);
      FilterCountOf(tasks, OnSomeList(init), t);
      FilterCountOf(tasks, OnSomeList(init + [last]), t);
      FilterCountOf(tasks, Tasks.OnList(last.id.value), t);
    }
  }

  /** A task is on `init + [last]` iff it is on exactly one of `init` and `last`, when the
      keys are distinct. */
  lemma OnSomeListSnoc(init: seq<List>, last: List, t: Task)
    requires Pairwise(init + [last], ListKeysDiffer)
    ensures OnSomeList(init + [last])(t) <==> OnSomeList(init)(t) || last.id == Some(t.list)
    ensures !(OnSomeList(init)(t) && last.id == Some(t.list))
  {
    var lists := init + [last];
    if OnSomeList(init)(t) {
      var l :| l in init && l.id == Some(t.list);
      var i :| 0 <= i < |init| && init[i] == l;
      assert ListKeysDiffer(lists[i], lists[|lists| - 1]);
    }
    if OnSomeList(lists)(t) {
      var l :| l in lists && l.id == Some(t.list);
      assert l in init || l == last;
    }
  }

  /** The counts `get_stats` reports: `total` is the number of tasks on any list of the
      milestone's board (matched on both board type and board id) that are in the
      milestone, `done` the number of those that are also done, so `done <= total`; the
      other fields are the milestone's own. */
  lemma StatsCountBoardTasks(failing: set<Table>, lists: seq<List>, tasks: seq<Task>, m: Milestone)
    requires Keyed(lists) && Pairwise(lists, ListKeysDiffer) && m.id.Some?
    requires StatsResult(failing, lists, tasks, m).Ok?
    ensures var s := StatsResult(failing, lists, tasks, m).value;
            && s.total == |Filter(tasks, CountedInTotal(lists, m))|
            && s.done == |Filter(tasks, CountedInDone(lists, m))|
            && 0 <= s.done <= s.total
            && s.id == m.id && s.name == m.name && s.boardId == m.boardId && s.boardType == m.boardType
  {
    var own := Filter(lists, Lists.OnBoard(m.boardType, m.boardId));
    FilterPairwise(lists, Lists.OnBoard(m.boardType, m.boardId), ListKeysDiffer);
    TasksOnListsMultiset(tasks, own);
    var gathered := TasksOnLists(tasks, own);
    var onBoard := Filter(tasks, OnSomeList(own));
    var id := m.id.value;
    assert forall t :: OnSomeList(own)(t) == OnBoardList(lists, m.boardType, m.boardId, t);
    FilterCountPermutation(gathered, onBoard, InMilestone(id));
    FilterCountPermutation(gathered, onBoard, DoneInMilestone(id));
    FilterFilter(tasks, OnSomeList(own), InMilestone(id), CountedInTotal(lists, m));
    FilterFilter(tasks, OnSomeList(own), DoneInMilestone(id), CountedInDone(lists, m));
    FilterMonotone(gathered, DoneInMilestone(id), InMilestone(id));
  }

  /** A task on a list of the other board type is not counted, even when that list's board
      has the milestone's board id. */
  lemma OtherBoardTypeNotCounted(lists: seq<List>, m: Milestone, t: Task, l: List)
    requires Pairwise(lists, ListKeysDiffer)
    requires l in lists && l.id == Some(t.list) && l.boardType != m.boardType
    ensures !CountedInTotal(lists, m)(t) && !CountedInDone(lists, m)(t)
  {
    forall l' | l' in lists && l'.id == l.id ensures l' == l {
      var i :| 0 <= i < |lists| && lists[i] == l;
      var j :| 0 <= j < |lists| && lists[j] == l';
    }
  }

  /** A milestone no task refers to reports done = 0 and total = 0. */
  lemma FreshMilestoneIsEmpty(failing: set<Table>, lists: seq<List>, tasks: seq<Task>, m: Milestone)
    requires Keyed(lists) && Pairwise(lists, ListKeysDiffer) && m.id.Some?
    requires forall t :: t in tasks ==> t.milestone != m.id
    requires StatsResult(failing, lists, tasks, m).Ok?
    ensures StatsResult(failing, lists, tasks, m).value.done == 0
    ensures StatsResult(failing, lists, tasks, m).value.total == 0
  {
    StatsCountBoardTasks(failing, lists, tasks, m);
    FilterNone(tasks, CountedInTotal(lists, m));
  }

  /** `Milestone::get` fails iff the milestones cannot be read or some milestone of the
      board cannot have its stats computed: no partial result. */
  lemma GetFailsIff(failing: set<Table>, milestones: seq<Milestone>, lists: seq<List>,
                    tasks: seq<Task>, boardId: int, boardType: string)
    requires Keyed(lists) && forall m :: m in milestones ==> m.id.Some?
    ensures GetResult(failing, milestones, lists, tasks, boardId, boardType).Err? <==>
              || MilestonesTable in failing
              || exists m :: m in Filter(milestones, OnMilestoneBoard(boardId, boardType)) &&
                             StatsResult(failing, lists, tasks, m).Err?
  {
    var own := Filter(milestones, OnMilestoneBoard(boardId, boardType));
    ResponsesPerMilestone(failing, lists, tasks, own);
    if exists m :: m in own && StatsResult(failing, lists, tasks, m).Err? {
      var m :| m in own && StatsResult(failing, lists, tasks, m).Err?;
      var k :| 0 <= k < |own| && own[k] == m;
    }
  }

  /** What `Milestone::get` reports for a board: one response per milestone of the board,
      in load order, each with that milestone's fields and counts. */
  lemma GetReportsBoardMilestones(failing: set<Table>, milestones: seq<Milestone>, lists: seq<List>,
                                  tasks: seq<Task>, boardId: int, boardType: string)
    requires Keyed(lists) && Pairwise(lists, ListKeysDiffer) && forall m :: m in milestones ==> m.id.Some?
    requires GetResult(failing, milestones, lists, tasks, boardId, boardType).Ok?
    ensures var own := Filter(milestones, OnMilestoneBoard(boardId, boardType));
            var rs := GetResult(failing, milestones, lists, tasks, boardId, boardType).value;
            && |rs| == |own|
            && forall k :: 0 <= k < |own| ==>
                 && own[k].boardId == boardId && own[k].boardType == boardType
                 && rs[k].id == own[k].id && rs[k].name == own[k].name
                 && rs[k].boardId == boardId && rs[k].boardType == boardType
                 && rs[k].total == |Filter(tasks, CountedInTotal(lists, own[k]))|
                 && rs[k].done == |Filter(tasks, CountedInDone(lists, own[k]))|
                 && 0 <= rs[k].done <= rs[k].total
  {
    var own := Filter(milestones, OnMilestoneBoard(boardId, boardType));
    ResponsesPerMilestone(failing, lists, tasks, own);
    var rs := Responses(failing, lists, tasks, own).value;
    forall k | 0 <= k < |own|
      ensures && own[k].boardId == boardId && own[k].boardType == boardType
              && rs[k].id == own[k].id && rs[k].name == own[k].name
              && rs[k].boardId == boardId && rs[k].boardType == boardType
              && rs[k].total == |Filter(tasks, CountedInTotal(lists, own[k]))|
              && rs[k].done == |Filter(tasks, CountedInDone(lists, own[k]))|
              && 0 <= rs[k].done <= rs[k].total
    {
      assert own[k] in milestones;
      assert StatsResult(failing, lists, tasks, own[k]) == Ok(rs[k]);
      StatsCountBoardTasks(failing, lists, tasks, own[k]);
    }
  }
}
