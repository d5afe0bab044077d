/** backend/src/timer.rs: personal timers. A timer accumulates seconds in `time` while
    it is active; `start` is the instant of the last toggle. Instants are seconds since
    the epoch, passed in. */
module Timers {
  import opened Wrappers
  import opened Seqs
  import opened Db

  const Active := "active"
  const Stopped := "stopped"

  function HasTimerId(id: int): Timer -> bool {
    (t: Timer) => t.id == Some(id)
  }

  function NotTimerId(id: int): Timer -> bool {
    (t: Timer) => t.id != Some(id)
  }

  function OfUser(userId: int): Timer -> bool {
    (t: Timer) => t.userId == userId
  }

  /** The status a toggle moves to: an active timer stops, any other becomes active. */
  function NextStatus(status: string): string {
    if status == Active then Stopped else Active
  }

  /** The accumulated seconds after a toggle read at instant `now`. */
  function NextTime(timer: Timer, now: int): int
    requires timer.status == Active ==> timer.start.Some?
  {
    if timer.status == Active then timer.time + now - timer.start.value else timer.time
  }

  /** A stored row after the toggle of `timer`: the time is read at `now1` and the new
      start at `now2`, the two clock reads of `Timer::update`. */
  function Toggled(row: Timer, timer: Timer, now1: int, now2: int): Timer
    requires timer.status == Active ==> timer.start.Some?
  {
    row.(status := NextStatus(timer.status), time := NextTime(timer, now1), start := Some(now2))
  }

  /** The table after `update ... where id = timer.id`. A timer without a key matches no
      row, since a comparison with NULL never holds. */
  function ToggleRows(timers: seq<Timer>, timer: Timer, now1: int, now2: int): (r: seq<Timer>)
    requires timer.status == Active ==> timer.start.Some?
    ensures |r| == |timers|
  {
    seq(|timers|, k requires 0 <= k < |timers| =>
      if timer.id.Some? && timers[k].id == timer.id then Toggled(timers[k], timer, now1, now2) else timers[k])
  }

  /** `Timer::create`: one row, with the given key or a fresh one; a key already in use is
      a unique-constraint error and leaves the table unchanged. */
  method Create(db: Connection, timer: Timer) returns (r: QueryResult<nat>)
    requires db.Valid()
    modifies db`timers, db`nextId
    ensures db.Valid()
    ensures r == if TimersTable in db.failing then Err(StoreFailure)
                 else if timer.id.Some? && exists t :: t in old(db.timers) && t.id == timer.id
                 then Err(UniqueViolation)
                 else Ok(1)
    ensures var k := InsertedKey(timer.id, old(db.nextId));
            if r.Ok?
            then db.timers == old(db.timers) + [timer.(id := Some(k))] && db.nextId == NextAfter(old(db.nextId), k)
            else db.timers == old(db.timers) && db.nextId == old(db.nextId)
  {
    if TimersTable in db.failing {
      return Err(StoreFailure);
    }
    if timer.id.Some? && exists t :: t in db.timers && t.id == timer.id {
      return Err(UniqueViolation);
    }
    var k := InsertedKey(timer.id, db.nextId);
    db.timers := db.timers + [timer.(id := Some(k))];
    db.nextId := NextAfter(db.nextId, k);
    r := Ok(1);
  }

  /** `Timer::update`: toggles every row with the key of `timer`, computing the new status
      and time from `timer` itself; reports how many rows changed. An active `timer`
      must carry a start. */
  method Update(db: Connection, timer: Timer, now1: int, now2: int) returns (r: QueryResult<nat>)
    requires timer.status == Active ==> timer.start.Some?
    requires db.Valid()
    modifies db`timers
    ensures db.Valid()
    ensures r.Err? <==> TimersTable in db.failing
    ensures r.Err? ==> r.error == StoreFailure && db.timers == old(db.timers)
    ensures r.Ok? ==> db.timers == ToggleRows(old(db.timers), timer, now1, now2)
    ensures r.Ok? ==> r.value == if timer.id.Some? then |Filter(old(db.timers), HasTimerId(timer.id.value))| else 0
  {
    if TimersTable in db.failing {
      return Err(StoreFailure);
    }
    var before := db.timers;
    r := Ok(if timer.id.Some? then |Filter(before, HasTimerId(timer.id.value))| else 0);
    db.timers := ToggleRows(before, timer, now1, now2);
    forall x | x in db.timers ensures Below(x.id, db.nextId) {
      var k :| 0 <= k < |db.timers| && db.timers[k] == x;
      assert before[k] in before;
    }
  }

  /** Only rows with the timer's key change, and they keep their key, name and owner. */
  lemma ToggleTouchesOnlyItsRow(timers: seq<Timer>, timer: Timer, now1: int, now2: int)
    requires timer.status == Active ==> timer.start.Some?
    ensures forall k :: 0 <= k < |timers| ==>
              var after := ToggleRows(timers, timer, now1, now2)[k];
              && after.id == timers[k].id && after.name == timers[k].name && after.userId == timers[k].userId
              && (after != timers[k] ==> timer.id.Some? && timers[k].id == timer.id)
  {
  }

  /** Stopped, toggled once and toggled again, a timer is stopped with the seconds between
      the first toggle's start and the second toggle's reading added. */
  lemma StopStartStop(t: Timer, a1: int, a2: int, b1: int, b2: int)
    requires t.status == Stopped
    ensures var t1 := Toggled(t, t, a1, a2);
            var t2 := Toggled(t1, t1, b1, b2);
            && t1.status == Active && t1.time == t.time
            && t2.status == Stopped && t2.time == t.time + (b1 - a2) && t2.start == Some(b2)
  {
  }

  /** A toggle never loses seconds while the clock does not run backwards. */
  lemma ToggleKeepsTime(t: Timer, now1: int, now2: int)
    requires t.status == Active ==> t.start.Some? && t.start.value <= now1
    ensures Toggled(t, t, now1, now2).time >= t.time
  {
  }

  /** `Timer::get_timers`: exactly the user's timers, in storage order. */
  function GetTimers(db: Connection, userId: int): (r: QueryResult<seq<Timer>>)
    reads db`timers
    ensures r.Err? <==> TimersTable in db.failing
    ensures r.Ok? ==> forall t :: t in r.value <==> t in db.timers && t.userId == userId
    ensures r.Ok? ==> forall t :: multiset(r.value)[t] == if t.userId == userId
                                                          then multiset(db.timers)[t] else 0
  {
    if TimersTable in db.failing then Err(StoreFailure)
    else
      FilterMultiset(db.timers, OfUser(userId));
      Ok(Filter(db.timers, OfUser(userId)))
  }

  /** `Timer::get_by_id`: the timer with that key; NotFound when there is none. */
  function GetById(db: Connection, id: int): (r: QueryResult<Timer>)
    reads db`timers
    ensures r.Ok? <==> TimersTable !in db.failing && exists t :: t in db.timers && t.id == Some(id)
    ensures r.Ok? ==> r.value in db.timers && r.value.id == Some(id)
    ensures r.Err? ==> r.error == if TimersTable in db.failing then StoreFailure else NotFound
  {
    if TimersTable in db.failing then Err(StoreFailure)
    else
      match First(db.timers, HasTimerId(id))
      case None => Err(NotFound)
      case Some(t) => Ok(t)
  }

  /** `Timer::delete`: removes exactly the timers with that key and reports how many. */
  method Delete(db: Connection, id: int) returns (r: QueryResult<nat>)
    requires db.Valid()
    modifies db`timers
    ensures db.Valid()
    ensures r.Err? <==> TimersTable in db.failing
    ensures r.Err? ==> r.error == StoreFailure && db.timers == old(db.timers)
    ensures r.Ok? ==> db.timers == Filter(old(db.timers), NotTimerId(id))
                      && r.value == |Filter(old(db.timers), HasTimerId(id))|
    ensures forall t :: t in db.timers <==> t in old(db.timers) && !(r.Ok? && t.id == Some(id))
  {
    if TimersTable in db.failing {
      return Err(StoreFailure);
    }
    FilterComplementCount(db.timers, HasTimerId(id), NotTimerId(id));
    r := Ok(|Filter(db.timers, HasTimerId(id))|);
    db.timers := Filter(db.timers, NotTimerId(id));
  }
}
