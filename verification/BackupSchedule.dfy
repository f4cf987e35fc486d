/** operator/backup_schedule.go: at most one backup for each slot of a cron
    schedule.  Times are seconds; `next` is the first slot after a time. */
module BackupSchedule {
  import opened Wrappers
  import opened Environment

  const MAX_STEPS := 100000

  /** Every slot lies after the time it was asked for. */
  ghost predicate Advances(next: int -> int) {
    forall t :: t < next(t)
  }

  /** No slot is skipped: the next slot stays the same until it is reached. */
  ghost predicate SkipsNone(next: int -> int) {
    forall t, u | t <= u < next(t) :: next(u) == next(t)
  }

  function Iterate(next: int -> int, start: int, n: nat): int {
    if n == 0 then start else next(Iterate(next, start, n - 1))
  }

  /** The minute that a time lies in. */
  function Minute(now: int): int {
    now - now % 60
  }

  /** No slot up to `limit` lies after `slot`. */
  ghost predicate LatestUpTo(next: int -> int, slot: int, limit: int) {
    forall asked | next(asked) <= limit :: next(asked) <= slot
  }

  /** No slot on a whole minute that has begun lies after `slot`. */
  ghost predicate LatestMinute(next: int -> int, slot: int, now: int) {
    forall asked | next(asked) % 60 == 0 && next(asked) <= now :: next(asked) <= slot
  }

  /** A time on a whole minute counts as soon as its minute begins. */
  lemma WholeMinutesCount(now: int, slot: int)
    requires slot % 60 == 0 && slot <= now
    ensures slot <= Minute(now) <= now
  {
    assert now - now % 60 == 60 * (now / 60) && slot == 60 * (slot / 60);
  }

  lemma LatestOfMinutes(next: int -> int, slot: int, now: int)
    requires LatestUpTo(next, slot, Minute(now))
    ensures LatestMinute(next, slot, now)
  {
    forall asked | next(asked) % 60 == 0 && next(asked) <= now ensures next(asked) <= slot {
      WholeMinutesCount(now, next(asked));
    }
  }

  /** The slot at which the search stops is the latest one that is due: every
      other slot up to the current minute lies before it. */
  lemma SearchFindsLatest(next: int -> int, due: int, current: int)
    requires Advances(next) && SkipsNone(next)
    requires due <= current < next(due)
    ensures LatestUpTo(next, due, current)
  {
    forall asked | next(asked) <= current ensures next(asked) <= due {
      assert asked < next(asked);
      assert asked <= due < next(asked) ==> next(due) == next(asked);
      assert due <= asked < next(due) ==> next(asked) == next(due);
    }
  }

  datatype State = State(installed: Option<int>, lastSlot: Option<int>)

  datatype TickResult = Idle | Attempted(slot: int) | Unsaved | Died

  class Scheduler {
    const next: int -> int
    const calm: bool
    var state: Option<State>
    /** The slots for which a backup was started, in order. */
    var started: seq<int>

    ghost predicate Valid()
      reads this
    {
      && Advances(next)
      && (forall i, j | 0 <= i < j < |started| :: started[i] < started[j])
      && (started != [] ==>
            state.Some? && state.value.lastSlot.Some? && started[|started| - 1] <= state.value.lastSlot.value)
    }

    /** The slot that was last taken, whether or not its backup was started. */
    ghost function Taken(): Option<int>
      reads this
    {
      if state.Some? then state.value.lastSlot else None
    }

    /** The time after which the search for slots begins. */
    ghost function Start(now: int): int
      reads this
    {
      if Taken().Some? then Taken().value
      else if state.Some? && state.value.installed.Some? then state.value.installed.value
      else now
    }

    constructor (next: int -> int, calm: bool)
      requires Advances(next)
      ensures Valid() && this.next == next && this.calm == calm && Taken() == None && started == []
    {
      this.next, this.calm, state, started := next, calm, None, [];
    }

    /** The last of at most 100000 slots that are not later than `current`. */
    method FindDue(start: int, current: int) returns (due: Option<int>, ghost steps: nat)
      requires Valid()
      ensures steps <= 100000 && due == (if steps == 0 then None else Some(Iterate(next, start, steps)))
      ensures due.Some? ==> start < due.value <= current
      ensures steps < 100000 ==> next(Iterate(next, start, steps)) > current
    {
      due, steps := None, 0;
      var from := start;
      var count := 0;
      while count < MAX_STEPS
        invariant 0 <= count <= MAX_STEPS && steps == count
        invariant from == Iterate(next, start, steps)
        invariant due == if steps == 0 then None else Some(from)
        invariant due.Some? ==> start < due.value <= current
      {
        var slot := next(from);
        if slot > current { return; }
        assert from < next(from);
        due, from := Some(slot), slot;
        count := count + 1;
        steps := count;
      }
    }

    /** BackupScheduleTick: the slot is saved before its backup starts. */
    method Tick(now: int) returns (r: TickResult)
      requires Valid()
      modifies this
      ensures Valid()
      ensures r.Idle? ==> state == old(state) && started == old(started) && next(old(Start(now))) > Minute(now)
      ensures r.Attempted? ==>
                && started == old(started) + [r.slot] && Taken() == Some(r.slot)
                && old(Start(now)) < r.slot <= Minute(now)
                && (SkipsNone(next) && Iterate(next, old(Start(now)), MAX_STEPS) > Minute(now) ==>
                      LatestUpTo(next, r.slot, Minute(now)) && LatestMinute(next, r.slot, now))
      ensures r.Unsaved? ==> state == old(state) && started == old(started)
      ensures calm ==> r.Idle? || r.Attempted?
      ensures r.Idle? && next(old(Start(now))) % 60 == 0 ==> now < next(old(Start(now)))
      ensures r.Died? ==>
                || started == old(started)
                || (Taken().Some? && started == old(started) + [Taken().value] && Taken().value <= Minute(now))
      ensures old(Taken()).Some? ==> Taken().Some? && old(Taken()).value <= Taken().value
    {
      var read := if state.Some? then state.value else State(Some(now), None);
      var start := if read.installed.Some? then read.installed.value else now;
      if read.lastSlot.Some? { start := read.lastSlot.value; }
      var current := now - now % 60;
      assert current == Minute(now);
      hide Minute, LatestUpTo, LatestMinute, Iterate;
      ghost var steps;
      var due;
      due, steps := FindDue(start, current);
      if due.None? {
        if next(start) % 60 == 0 && next(start) <= now { WholeMinutesCount(now, next(start)); }
        return Idle;
      }
      var step := Chance(calm);
      if !step.Done? { return if step.Died? then TickResult.Died else Unsaved; }
      state := Some(read.(lastSlot := due));
      step := Chance(calm);
      if step.Died? { return TickResult.Died; }
      started := started + [due.value];
      step := Chance(calm);
      if step.Died? { return TickResult.Died; }
      if SkipsNone(next) && Iterate(next, start, MAX_STEPS) > current {
        SearchFindsLatest(next, due.value, current);
        LatestOfMinutes(next, due.value, now);
      }
      r := Attempted(due.value);
    }

    /** Any sequence of ticks, with a clock that may go back and crashes anywhere:
        no slot starts two backups, and none starts before its time. */
    method Run(times: seq<int>)
      requires Valid()
      modifies this
      ensures Valid() && old(started) <= started
      ensures forall i | |old(started)| <= i < |started| :: exists now <- times :: started[i] <= now
    {
      for i := 0 to |times|
        invariant Valid() && old(started) <= started
        invariant forall k | |old(started)| <= k < |started| :: exists now <- times :: started[k] <= now
      {
        ghost var before := started;
        var r := Tick(times[i]);
        assert |started| > |before| ==> started[|before|] <= times[i] && times[i] in times;
      }
    }
  }
}
