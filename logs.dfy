/** backend/src/log.rs: the audit trail of task snapshots. */
module Logs {
  import opened Wrappers
  import opened Seqs
  import opened Db

  /** The task a log entry was taken from, given the three task columns a log does not
      keep (its key, its done flag and its milestone). */
  function Restored(log: Log, id: Option<int>, done: int, milestone: Option<int>): Task {
    Task(id, log.name, log.list, log.note, log.place, log.members, log.deadline, log.subtasks,
         log.points, log.tags, done, milestone)
  }

  /** `Log::from_task`: a fresh entry (no key) for task `id` with the given action and
      timestamp, copying every column the task and the log share. */
  function FromTask(task: Task, id: int, action: string, timestamp: string): (r: Log)
    ensures r.id == None && r.taskId == id && r.action == action && r.timestamp == timestamp
    ensures Restored(r, task.id, task.done, task.milestone) == task
  {
    Log(None, task.name, task.list, task.note, task.place, task.members, timestamp, action, id,
        task.deadline, task.subtasks, task.points, task.tags)
  }

  /** `Log::create`: one row, with the given key or a fresh one; a key already in use is a
      unique-constraint error and leaves the table unchanged. */
  method Create(db: Connection, log: Log) returns (r: QueryResult<nat>)
    requires db.Valid()
    modifies db`logs, db`nextId
    ensures db.Valid()
    ensures r == if LogsTable in db.failing then Err(StoreFailure)
                 else if log.id.Some? && exists l :: l in old(db.logs) && l.id == log.id then Err(UniqueViolation)
                 else Ok(1)
    ensures var k := InsertedKey(log.id, old(db.nextId));
            if r.Ok?
            then db.logs == old(db.logs) + [log.(id := Some(k))] && db.nextId == NextAfter(old(db.nextId), k)
            else db.logs == old(db.logs) && db.nextId == old(db.nextId)
  {
    if LogsTable in db.failing {
      return Err(StoreFailure);
    }
    if log.id.Some? && exists l :: l in db.logs && l.id == log.id {
      return Err(UniqueViolation);
    }
    var k := InsertedKey(log.id, db.nextId);
    db.logs := db.logs + [log.(id := Some(k))];
    db.nextId := NextAfter(db.nextId, k);
    r := Ok(1);
  }

  /** Text order of the store: character by character, a prefix first. */
  predicate TextLeq(a: string, b: string)
    decreases |a|
  {
    a == [] || (b != [] && (a[0] < b[0] || (a[0] == b[0] && TextLeq(a[1..], b[1..]))))
  }

  lemma {:induction false} TextLeqTotal(a: string, b: string)
    ensures TextLeq(a, b) || TextLeq(b, a)
    decreases |a|
  {
    if a != [] && b != [] && a[0] == b[0] {
      TextLeqTotal(a[1..], b[1..]);
    }
  }

  lemma {:induction false} TextLeqTrans(a: string, b: string, c: string)
    requires TextLeq(a, b) && TextLeq(b, c)
    ensures TextLeq(a, c)
    decreases |a|
  {
    if a != [] && a[0] == b[0] && b[0] == c[0] {
      TextLeqTrans(a[1..], b[1..], c[1..]);
    }
  }

  /** `a` is listed before `b`: its timestamp is not older. */
  predicate NotOlder(a: Log, b: Log) {
    TextLeq(b.timestamp, a.timestamp)
  }

  function OfTask(id: int): Log -> bool {
    (l: Log) => l.taskId == id
  }

  /** `x` put into the newest-first sequence `s` before the first entry not newer than it. */
  function InsertByTime(x: Log, s: seq<Log>): (r: seq<Log>)
    requires Pairwise(s, NotOlder)
    ensures Pairwise(r, NotOlder)
    ensures multiset(r) == multiset(s) + multiset{x}
    decreases |s|
  {
    if s == [] then [x]
    else if TextLeq(s[0].timestamp, x.timestamp) then
      InsertInFront(x, s);
      [x] + s
    else
      assert s == [s[0]] + s[1..];
      PairwiseTail(s, NotOlder);
      var rest := InsertByTime(x, s[1..]);
      InsertBehind(x, s, rest);
      [s[0]] + rest
  }

  /** A log not older than the head can go in front. */
  lemma InsertInFront(x: Log, s: seq<Log>)
    requires Pairwise(s, NotOlder) && s != [] && TextLeq(s[0].timestamp, x.timestamp)
    ensures Pairwise([x] + s, NotOlder)
  {
    forall y | y in s ensures NotOlder(x, y) {
      if y != s[0] {
        HeadFirst(s, NotOlder);
        TextLeqTrans(y.timestamp, s[0].timestamp, x.timestamp);
      }
    }
    ConsPairwise(x, s, NotOlder);
  }

  /** A log older than the head goes into the tail, behind the head. */
  lemma InsertBehind(x: Log, s: seq<Log>, rest: seq<Log>)
    requires Pairwise(s, NotOlder) && s != [] && !TextLeq(s[0].timestamp, x.timestamp)
    requires Pairwise(rest, NotOlder) && multiset(rest) == multiset(s[1..]) + multiset{x}
    ensures Pairwise([s[0]] + rest, NotOlder)
  {
    TextLeqTotal(s[0].timestamp, x.timestamp);
    forall y | y in rest ensures NotOlder(s[0], y) {
      assert y in multiset(rest);
      if y != x {
        assert y in s[1..];
        PairwiseHead(s, NotOlder, y);
      }
    }
    ConsPairwise(s[0], rest, NotOlder);
  }

  /** The entries of `s`, newest first. */
  function SortByTime(s: seq<Log>): (r: seq<Log>)
    ensures Pairwise(r, NotOlder)
    ensures multiset(r) == multiset(s)
    decreases |s|
  {
    if s == [] then []
    else
      assert s == [s[0]] + s[1..];
      InsertByTime(s[0], SortByTime(s[1..]))
  }

  /** `Log::get`: exactly the entries of the task, each as often as stored, newest first. */
  function Get(db: Connection, id: int): (r: QueryResult<seq<Log>>)
    reads db`logs
    ensures r.Err? <==> LogsTable in db.failing
    ensures r.Ok? ==> forall l :: l in r.value <==> l in db.logs && l.taskId == id
    ensures r.Ok? ==> forall l :: multiset(r.value)[l] == if l.taskId == id then multiset(db.logs)[l] else 0
    ensures r.Ok? ==> forall i, j :: 0 <= i < j < |r.value| ==> TextLeq(r.value[j].timestamp, r.value[i].timestamp)
  {
    if LogsTable in db.failing then Err(StoreFailure)
    else
      var own := Filter(db.logs, OfTask(id));
      FilterMultiset(db.logs, OfTask(id));
      var sorted := SortByTime(own);
      assert forall l :: l in sorted <==> l in multiset(own);
      Ok(sorted)
  }
}
