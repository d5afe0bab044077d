/** frontend/src/types.rs: the browser's view of a timer, whose elapsed seconds it derives
    from the clock (`now`, seconds since the epoch, passed in). */
module Frontend {
  import opened Wrappers
  import Db
  import Timers

  /** The frontend `Timer`: `time` and `start` are unsigned. */
  datatype Timer = Timer(id: int, name: string, userId: int, status: string, time: nat, start: Option<nat>)

  /** `Timer::get_time`: the elapsed seconds shown at instant `now`. The unsigned
      subtraction needs an active timer to have a start no later than `now + time`. */
  function GetTime(t: Timer, now: nat): (r: nat)
    requires t.status == Timers.Active ==> t.start.Some? && t.start.value <= now + t.time
    ensures t.status != Timers.Active ==> r == t.time
    ensures t.status == Timers.Active ==> r + t.start.value == now + t.time
  {
    if t.status == Timers.Active then now + t.time - t.start.value else t.time
  }

  /** While a timer is active, the shown value never goes down as the clock advances. */
  lemma GetTimeMonotone(t: Timer, now1: nat, now2: nat)
    requires t.status == Timers.Active ==> t.start.Some? && t.start.value <= now1 + t.time
    requires now1 <= now2
    ensures GetTime(t, now1) <= GetTime(t, now2)
  {
  }

  /** Once the clock has reached the start, the shown value is at least the stored time. */
  lemma GetTimeAtLeastStored(t: Timer, now: nat)
    requires t.status == Timers.Active ==> t.start.Some? && t.start.value <= now
    ensures GetTime(t, now) >= t.time
  {
  }

  /** The frontend copy of a stored timer. */
  function View(row: Db.Timer): Timer
    requires row.id.Some? && row.time >= 0 && (row.start.Some? ==> row.start.value >= 0)
  {
    Timer(row.id.value, row.name, row.userId, row.status, row.time,
          if row.start.Some? then Some(row.start.value) else None)
  }

  /** The value shown at `now` is the time the backend stores when the timer is toggled
      with its time read at `now`: for an active timer, the seconds it would stop at; for
      any other, its unchanged time. */
  lemma ShownTimeIsStoppedTime(row: Db.Timer, now: nat, now2: int)
    requires row.id.Some? && row.time >= 0 && (row.start.Some? ==> row.start.value >= 0)
    requires row.status == Timers.Active ==> row.start.Some? && row.start.value <= now + row.time
    ensures GetTime(View(row), now) == Timers.Toggled(row, row, now, now2).time
  {
  }

  /** A timer as `timer_create` makes it shows zero seconds at its creation instant. */
  lemma NewTimerShowsZero(id: int, name: string, userId: int, now: nat)
    ensures GetTime(Timer(id, name, userId, Timers.Active, 0, Some(now)), now) == 0
  {
  }
}
