/** 64-bit clock readings and the arithmetic the timers do on them. The
    clock itself (`SDL_GetPerformanceCounter`, `SDL_GetTicks`) is not
    modelled: every operation that reads it takes the reading `now`. */
module Clock {
  const U64_LIMIT: int := 0x1_0000_0000_0000_0000

  type u64 = x: int | 0 <= x < U64_LIMIT

  /** `Uint64` subtraction, wrapping below zero. */
  function Sub64(a: u64, b: u64): (r: u64)
    ensures b <= a ==> r == a - b
    ensures a < b ==> r == a - b + U64_LIMIT
  {
    (a - b) % U64_LIMIT
  }

  /** `Uint64` addition, wrapping past the top. */
  function Add64(a: u64, b: u64): (r: u64)
    ensures a + b < U64_LIMIT ==> r == a + b
    ensures U64_LIMIT <= a + b ==> r == a + b - U64_LIMIT
  {
    (a + b) % U64_LIMIT
  }

  /** Resuming with start `now - p` and later reading `t` gives `p` plus the
      time since `now`, whatever wraps. */
  lemma ResumeContinues(p: u64, now: u64, t: u64)
    ensures Sub64(t, Sub64(now, p)) == Add64(p, Sub64(t, now))
  {
  }

  /** Started at `t0`, paused at `t1`, resumed at `t2`, read at `t3`: the
      reading is the time run before the pause plus the time since the
      resume, modulo 2^64. */
  lemma PausedIntervalExcluded(t0: u64, t1: u64, t2: u64, t3: u64)
    ensures Sub64(t3, Sub64(t2, Sub64(t1, t0))) == Add64(Sub64(t1, t0), Sub64(t3, t2))
  {
    ResumeContinues(Sub64(t1, t0), t2, t3);
  }
}

/** The performance-counter timer of src/Utils/timer.h. */
module UtilsTimer {
  import opened Clock

  class Timer {
    /** `SDL_GetPerformanceFrequency()`, read once; used only by the
        floating-point queries, which are not modelled. */
    const frequency: u64
    var startTicks: u64
    var pausedTicks: u64
    var paused: bool
    var started: bool

    ghost predicate Valid()
      reads this
    {
      paused ==> started
    }

    /** A new timer is stopped and reads 0 at any time. */
    constructor (frequency: u64)
      ensures Valid() && !started && !paused && this.frequency == frequency
      ensures startTicks == 0 && pausedTicks == 0
      ensures forall t :: GetTicksRaw(t) == 0
    {
      this.frequency := frequency;
      startTicks, pausedTicks := 0, 0;
      paused, started := false, false;
    }

    /** After `Start` at `now`, the reading at `t` is `t - now`. The paused
        value is left as it was. */
    method Start(now: u64)
      modifies this
      ensures Valid() && started && !paused
      ensures startTicks == now && pausedTicks == old(pausedTicks)
      ensures forall t :: GetTicksRaw(t) == Sub64(t, now)
    {
      started := true;
      paused := false;
      startTicks := now;
    }

    method Stop()
      modifies this
      ensures Valid() && !started && !paused && startTicks == 0 && pausedTicks == 0
      ensures forall t :: GetTicksRaw(t) == 0
    {
      started := false;
      paused := false;
      startTicks := 0;
      pausedTicks := 0;
    }

    /** A running timer freezes at the reading it has at `now`; any other
        timer is unchanged. */
    method Pause(now: u64)
      requires Valid()
      modifies this
      ensures Valid() && started == old(started) && startTicks == old(startTicks)
      ensures old(started && !paused) ==> paused && pausedTicks == Sub64(now, startTicks)
      ensures old(started && !paused) ==> forall t :: GetTicksRaw(t) == old(GetTicksRaw(now))
      ensures !old(started && !paused) ==> paused == old(paused) && pausedTicks == old(pausedTicks)
    {
      if started && !paused {
        paused := true;
        pausedTicks := Sub64(now, startTicks);
      }
    }

    /** A paused timer resumes from its frozen reading: at `t` it reads that
        value plus `t - now`. Any other timer is unchanged. */
    method Unpause(now: u64)
      requires Valid()
      modifies this
      ensures Valid() && started == old(started)
      ensures old(started && paused) ==>
        !paused && pausedTicks == 0 && startTicks == Sub64(now, old(pausedTicks))
      ensures old(started && paused) ==> forall t :: GetTicksRaw(t) == Add64(old(GetTicksRaw(now)), Sub64(t, now))
      ensures !old(started && paused) ==>
        paused == old(paused) && startTicks == old(startTicks) && pausedTicks == old(pausedTicks)
    {
      if started && paused {
        paused := false;
        startTicks := Sub64(now, pausedTicks);
        pausedTicks := 0;
        forall t ensures GetTicksRaw(t) == Add64(old(pausedTicks), Sub64(t, now)) {
          ResumeContinues(old(pausedTicks), now, t);
        }
      }
    }

    /** The reading at clock value `now`. */
    function GetTicksRaw(now: u64): (r: u64)
      reads this
      ensures !started ==> r == 0
      ensures started && paused ==> r == pausedTicks
      ensures started && !paused ==> Add64(startTicks, r) == now
    {
      if started then
        if paused then pausedTicks else Sub64(now, startTicks)
      else 0
    }

    function IsStarted(): (b: bool)
      reads this
      ensures !b ==> forall t :: GetTicksRaw(t) == 0
    {
      started
    }

    function IsPaused(): (b: bool)
      reads this
      ensures Valid() && b ==> started
      ensures Valid() && b ==> forall t, u :: GetTicksRaw(t) == GetTicksRaw(u)
    {
      paused
    }
  }

  /** Start at `t0`, pause at `t1`, resume at `t2`, read at `t3`, with a
      clock that does not wrap: the paused interval is not counted. */
  method PauseSkipsPausedTime(t0: u64, t1: u64, t2: u64, t3: u64) returns (ticks: u64)
    requires t0 <= t1 <= t2 <= t3
    ensures ticks == (t1 - t0) + (t3 - t2)
  {
    var timer := new Timer(1000);
    timer.Start(t0);
    timer.Pause(t1);
    timer.Unpause(t2);
    ticks := timer.GetTicksRaw(t3);
  }

  /** While paused the reading does not move, and pausing twice changes
      nothing. */
  method PausedReadingFrozen(t0: u64, t1: u64, t2: u64) returns (atPause: u64, later: u64)
    requires t0 <= t1
    ensures atPause == later == t1 - t0
  {
    var timer := new Timer(1000);
    timer.Start(t0);
    timer.Pause(t1);
    atPause := timer.GetTicksRaw(t1);
    timer.Pause(t2);
    later := timer.GetTicksRaw(t2);
  }
}

/** The millisecond timer of timer.h. Pausing also zeroes the start time,
    and `unpause` tests only the paused flag. */
module LegacyTimer {
  import opened Clock

  class Timer {
    var startTicks: u64
    var pausedTicks: u64
    var paused: bool
    var started: bool

    /** Paused implies started, and a paused timer has no start time. */
    ghost predicate Valid()
      reads this
    {
      paused ==> started && startTicks == 0
    }

    constructor ()
      ensures Valid() && !started && !paused && startTicks == 0 && pausedTicks == 0
      ensures forall t :: GetTicks(t) == 0
    {
      startTicks, pausedTicks := 0, 0;
      paused, started := false, false;
    }

    method Start(now: u64)
      modifies this
      ensures Valid() && started && !paused
      ensures startTicks == now && pausedTicks == old(pausedTicks)
      ensures forall t :: GetTicks(t) == Sub64(t, now)
    {
      started := true;
      paused := false;
      startTicks := now;
    }

    method Stop()
      modifies this
      ensures Valid() && !started && !paused && startTicks == 0 && pausedTicks == 0
      ensures forall t :: GetTicks(t) == 0
    {
      started := false;
      paused := false;
      startTicks := 0;
      pausedTicks := 0;
    }

    method Pause(now: u64)
      requires Valid()
      modifies this
      ensures Valid() && started == old(started)
      ensures old(started && !paused) ==> paused && startTicks == 0 && pausedTicks == Sub64(now, old(startTicks))
      ensures old(started && !paused) ==> forall t :: GetTicks(t) == old(GetTicks(now))
      ensures !old(started && !paused) ==>
        paused == old(paused) && startTicks == old(startTicks) && pausedTicks == old(pausedTicks)
    {
      if started && !paused {
        paused := true;
        pausedTicks := Sub64(now, startTicks);
        startTicks := 0;
      }
    }

    /** Only the paused flag is tested; under `Valid` a paused timer is
        started, so this resumes exactly like the newer timer. */
    method Unpause(now: u64)
      requires Valid()
      modifies this
      ensures Valid() && started == old(started)
      ensures old(paused) ==> !paused && pausedTicks == 0 && startTicks == Sub64(now, old(pausedTicks))
      ensures old(paused) ==> forall t :: GetTicks(t) == Add64(old(GetTicks(now)), Sub64(t, now))
      ensures !old(paused) ==>
        startTicks == old(startTicks) && pausedTicks == old(pausedTicks) && !paused
    {
      if paused {
        paused := false;
        startTicks := Sub64(now, pausedTicks);
        pausedTicks := 0;
        forall t ensures GetTicks(t) == Add64(old(pausedTicks), Sub64(t, now)) {
          ResumeContinues(old(pausedTicks), now, t);
        }
      }
    }

    function GetTicks(now: u64): (r: u64)
      reads this
      ensures !started ==> r == 0
      ensures started && paused ==> r == pausedTicks
      ensures started && !paused ==> Add64(startTicks, r) == now
    {
      if started then
        if paused then pausedTicks else Sub64(now, startTicks)
      else 0
    }

    function IsStarted(): (b: bool)
      reads this
      ensures !b ==> forall t :: GetTicks(t) == 0
    {
      started
    }

    function IsPaused(): (b: bool)
      reads this
      ensures Valid() && b ==> started && startTicks == 0
      ensures Valid() && b ==> forall t, u :: GetTicks(t) == GetTicks(u)
    {
      paused
    }
  }

  /** A reading taken across a pause counts only the running time; the
      counter may wrap past 2^64 in between. */
  method ReadingAcrossPause(t0: u64, t1: u64, t2: u64, t3: u64) returns (ticks: u64)
    ensures ticks == Add64(Sub64(t1, t0), Sub64(t3, t2))
  {
    var timer := new Timer();
    timer.Start(t0);
    timer.Pause(t1);
    timer.Unpause(t2);
    ticks := timer.GetTicks(t3);
    PausedIntervalExcluded(t0, t1, t2, t3);
  }
}
