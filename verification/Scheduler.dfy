/**
  The round-robin scheduler: kernel/task.c, the countdown of drivers/timer.c and
  the end of the interrupt handler in kernel/isr.c, after boot.
 */
module Scheduler {

  const MAX_TASK_NUM := 32
  const TIME_SLICE := 10

  const TASK_PRESENT: bv8 := 1
  const TASK_NEED_SCHED: bv8 := 2

  datatype Task = Task(tid: int, state: bv8, ttl: int)

  datatype System = System(tasks: seq<Task>, current: int)

  // The slot i places after `base`.
  function Slot(base: int, i: int): (r: int)
    ensures 0 <= r < MAX_TASK_NUM
  {
    (base + i) % MAX_TASK_NUM
  }

  predicate Present(s: System, t: int)
    requires |s.tasks| == MAX_TASK_NUM && 0 <= t < MAX_TASK_NUM
  {
    s.tasks[t].state != 0
  }

  // Between interrupts: slots are free or present without a pending request,
  // present tasks know their slot and have time left, and one of them runs.
  ghost predicate Inv(s: System) {
    && |s.tasks| == MAX_TASK_NUM && 0 <= s.current < MAX_TASK_NUM && Present(s, s.current)
    && forall t :: 0 <= t < MAX_TASK_NUM && Present(s, t) ==>
         && s.tasks[t].state == TASK_PRESENT && s.tasks[t].tid == t && 1 <= s.tasks[t].ttl <= TIME_SLICE
  }

  // ---------------------------------------------------------- what a call does

  // The first i in [i, 32] whose slot, counted from `base`, is in use; 33 if none.
  function NextPresent(tasks: seq<Task>, base: int, i: int): (j: int)
    requires |tasks| == MAX_TASK_NUM && 1 <= i <= MAX_TASK_NUM + 1
    ensures i <= j <= MAX_TASK_NUM + 1
    ensures j <= MAX_TASK_NUM ==> tasks[Slot(base, j)].state != 0
    ensures forall k :: i <= k < j ==> tasks[Slot(base, k)].state == 0
    decreases MAX_TASK_NUM + 1 - i
  {
    if i > MAX_TASK_NUM || tasks[Slot(base, i)].state != 0 then i else NextPresent(tasks, base, i + 1)
  }

  predicate CanSchedule(s: System) {
    && |s.tasks| == MAX_TASK_NUM && 0 <= s.current < MAX_TASK_NUM
    && NextPresent(s.tasks, s.tasks[s.current].tid, 1) <= MAX_TASK_NUM
  }

  function Schedule(s: System): (r: System)
    requires CanSchedule(s)
  {
    var me := s.tasks[s.current];
    var next := Slot(me.tid, NextPresent(s.tasks, me.tid, 1));
    if me.state != 0 then
      System(s.tasks[s.current := me.(state := me.state & !TASK_NEED_SCHED, ttl := TIME_SLICE)], next)
    else System(s.tasks, next)
  }

  function TimerHandler(s: System): (r: System)
    requires |s.tasks| == MAX_TASK_NUM && 0 <= s.current < MAX_TASK_NUM
  {
    var me := s.tasks[s.current];
    var ttl := (me.ttl - 1) % 0x1_0000_0000;
    System(s.tasks[s.current := me.(ttl := ttl, state := if ttl == 0 then me.state | TASK_NEED_SCHED else me.state)],
           s.current)
  }

  function CondSchedule(s: System): (r: System)
    requires CanSchedule(s)
  {
    if s.tasks[s.current].state & TASK_NEED_SCHED != 0 then Schedule(s) else s
  }

  function FreeSlot(tasks: seq<Task>, i: int): (t: int)
    requires 0 <= i <= |tasks|
    ensures i <= t <= |tasks|
    ensures t < |tasks| ==> tasks[t].state == 0
    ensures forall k :: i <= k < t ==> tasks[k].state != 0
    decreases |tasks| - i
  {
    if i == |tasks| || tasks[i].state == 0 then i else FreeSlot(tasks, i + 1)
  }

  // ------------------------------------------------------------------- events

  // Timer interrupt; any other interrupt; the running task calls schedule, exits,
  // or creates a task.
  datatype Event = Tick | Interrupt | Yield | Exit | Spawn

  ghost predicate Legal(s: System, e: Event)
    requires Inv(s)
  {
    match e
    case Exit => exists t :: 0 <= t < MAX_TASK_NUM && t != s.current && Present(s, t)
    case Spawn => FreeSlot(s.tasks, 0) < MAX_TASK_NUM
    case _ => true
  }

  function Exited(s: System): (r: System)
    requires |s.tasks| == MAX_TASK_NUM && 0 <= s.current < MAX_TASK_NUM
  {
    s.(tasks := s.tasks[s.current := s.tasks[s.current].(state := 0)])
  }

  function Spawned(s: System): (r: System)
    requires |s.tasks| == MAX_TASK_NUM && FreeSlot(s.tasks, 0) < MAX_TASK_NUM
  {
    var t := FreeSlot(s.tasks, 0);
    s.(tasks := s.tasks[t := Task(t, TASK_PRESENT, TIME_SLICE)])
  }

  // Slot t is found by a search that starts behind `base`.
  lemma FoundBy(tasks: seq<Task>, base: int, t: int)
    requires |tasks| == MAX_TASK_NUM && 0 <= base < MAX_TASK_NUM && 0 <= t < MAX_TASK_NUM && tasks[t].state != 0
    ensures var d := if t > base then t - base else t - base + MAX_TASK_NUM;
            && 1 <= d <= MAX_TASK_NUM && Slot(base, d) == t
            && NextPresent(tasks, base, 1) <= d
  {
    var d := if t > base then t - base else t - base + MAX_TASK_NUM;
    assert Slot(base, d) == t;
  }

  lemma CanAlwaysSchedule(s: System, t: int)
    requires |s.tasks| == MAX_TASK_NUM && 0 <= s.current < MAX_TASK_NUM && s.tasks[s.current].tid == s.current
    requires 0 <= t < MAX_TASK_NUM && Present(s, t)
    ensures CanSchedule(s)
  {
    FoundBy(s.tasks, s.current, t);
  }

  ghost function Step(s: System, e: Event): (r: System)
    requires Inv(s) && Legal(s, e)
  {
    CanAlwaysSchedule(s, s.current);
    match e
    case Tick =>
      CanAlwaysSchedule(TimerHandler(s), s.current);
      CondSchedule(TimerHandler(s))
    case Interrupt => CondSchedule(s)
    case Yield => Schedule(s)
    case Exit =>
      var t :| 0 <= t < MAX_TASK_NUM && t != s.current && Present(s, t);
      CanAlwaysSchedule(Exited(s), t);
      Schedule(Exited(s))
    case Spawn => Spawned(s)
  }

  lemma TickCanSchedule(s: System)
    requires Inv(s)
    ensures CanSchedule(TimerHandler(s)) && Step(s, Tick) == CondSchedule(TimerHandler(s))
  {
    NeedSchedBit();
    CanAlwaysSchedule(TimerHandler(s), s.current);
  }

  // ------------------------------------------------------------ the invariant

  lemma NeedSchedBit()
    ensures (TASK_PRESENT | TASK_NEED_SCHED) & !TASK_NEED_SCHED == TASK_PRESENT
    ensures TASK_PRESENT & !TASK_NEED_SCHED == TASK_PRESENT
    ensures TASK_PRESENT & TASK_NEED_SCHED == 0 && (TASK_PRESENT | TASK_NEED_SCHED) & TASK_NEED_SCHED != 0
    ensures TASK_PRESENT | TASK_NEED_SCHED != 0
  {}

  // How far slot t lies ahead of the running task.
  function Ahead(s: System, t: int): (d: int)
    ensures 0 <= d < MAX_TASK_NUM
  {
    Slot(-s.current, t)
  }

  // Timer ticks that can pass before t runs.
  function Wait(s: System, t: int): int
    requires |s.tasks| == MAX_TASK_NUM && 0 <= s.current < MAX_TASK_NUM
  {
    TIME_SLICE * (Ahead(s, t) - 1) + s.tasks[s.current].ttl
  }

  // Calls of schedule made by an event.
  function Calls(s: System, e: Event): nat
    requires |s.tasks| == MAX_TASK_NUM && 0 <= s.current < MAX_TASK_NUM
  {
    match e
    case Tick => if s.tasks[s.current].ttl == 1 then 1 else 0
    case Yield => 1
    case Exit => 1
    case _ => 0
  }

  function Ticks(e: Event): nat { if e.Tick? then 1 else 0 }

  // Inside an interrupt: the running task may have a request pending, or may have
  // just exited; the others are as between interrupts.
  ghost predicate Switching(s: System) {
    && |s.tasks| == MAX_TASK_NUM && 0 <= s.current < MAX_TASK_NUM
    && s.tasks[s.current].tid == s.current
    && s.tasks[s.current].state in {0, TASK_PRESENT, TASK_PRESENT | TASK_NEED_SCHED}
    && forall t :: 0 <= t < MAX_TASK_NUM && t != s.current && Present(s, t) ==>
         && s.tasks[t].state == TASK_PRESENT && s.tasks[t].tid == t && 1 <= s.tasks[t].ttl <= TIME_SLICE
  }

  lemma ScheduleInv(s: System)
    requires Switching(s) && CanSchedule(s)
    ensures Inv(Schedule(s))
    ensures forall t :: 0 <= t < MAX_TASK_NUM && Present(s, t) ==> Present(Schedule(s), t)
  {
    NeedSchedBit();
  }

  // schedule passes over free slots only.
  lemma ScheduleNearer(s: System, t: int)
    requires Switching(s) && CanSchedule(s) && 0 <= t < MAX_TASK_NUM && Present(s, t) && t != s.current
    ensures var r := Schedule(s);
            r.current != t ==> Ahead(r, t) <= Ahead(s, t) - 1
  {
    FoundBy(s.tasks, s.current, t);
    SlotsBetween(s.current, t, NextPresent(s.tasks, s.current, 1));
  }

  // Going j of the d slots to t leaves d - j.
  lemma SlotsBetween(c: int, t: int, j: int)
    requires 0 <= c < MAX_TASK_NUM && 0 <= t < MAX_TASK_NUM && c != t
    requires 1 <= j <= if t > c then t - c else t - c + MAX_TASK_NUM
    ensures Slot(-Slot(c, j), t) == Slot(-c, t) - j
  {
    var n := if c + j >= MAX_TASK_NUM then c + j - MAX_TASK_NUM else c + j;
    assert Slot(c, j) == n;
    assert Slot(-c, t) == if t > c then t - c else t - c + MAX_TASK_NUM;
  }

  // After schedule, a task that still waits does so for at most the slots left.
  lemma ScheduleWait(s: System, t: int)
    requires Switching(s) && CanSchedule(s) && 0 <= t < MAX_TASK_NUM && Present(s, t) && t != s.current
    ensures Inv(Schedule(s)) && Present(Schedule(s), t)
    ensures var r := Schedule(s);
            r.current != t ==> Ahead(r, t) <= Ahead(s, t) - 1 && Wait(r, t) <= TIME_SLICE * (Ahead(s, t) - 1)
  {
    ScheduleInv(s);
    ScheduleNearer(s, t);
    var r := Schedule(s);
    assert r.tasks[r.current].ttl <= TIME_SLICE;
  }

  lemma LastTickSwitches(s: System)
    requires Inv(s) && s.tasks[s.current].ttl == 1
    ensures var m := TimerHandler(s);
            && Switching(m) && m.current == s.current && m.tasks[s.current].state & TASK_NEED_SCHED != 0
            && (forall t :: 0 <= t < MAX_TASK_NUM && Present(s, t) ==> Present(m, t))
  {
    NeedSchedBit();
  }

  // A tick that uses up the running task's time.
  lemma LastTick(s: System, t: int)
    requires Inv(s) && 0 <= t < MAX_TASK_NUM && Present(s, t) && s.tasks[s.current].ttl == 1
    ensures Inv(Step(s, Tick)) && Present(Step(s, Tick), t)
    ensures s.current != t && Step(s, Tick).current != t ==>
              Ahead(Step(s, Tick), t) <= Ahead(s, t) - 1 && Wait(Step(s, Tick), t) <= Wait(s, t) - 1
  {
    var m := TimerHandler(s);
    TickCanSchedule(s);
    LastTickSwitches(s);
    ScheduleInv(m);
    if t != s.current { ScheduleWait(m, t); }
  }

  // A tick that leaves it some time.
  lemma EarlierTick(s: System, t: int)
    requires Inv(s) && 0 <= t < MAX_TASK_NUM && Present(s, t) && s.tasks[s.current].ttl > 1
    ensures Step(s, Tick) == TimerHandler(s) && Inv(Step(s, Tick)) && Present(Step(s, Tick), t)
    ensures Ahead(Step(s, Tick), t) == Ahead(s, t) && Wait(Step(s, Tick), t) == Wait(s, t) - 1
  {
    NeedSchedBit();
    var me, m := s.tasks[s.current], TimerHandler(s);
    assert m.tasks[s.current] == me.(ttl := me.ttl - 1);
    CanAlwaysSchedule(m, s.current);
  }

  lemma TickStep(s: System, t: int)
    requires Inv(s) && 0 <= t < MAX_TASK_NUM && Present(s, t)
    ensures Inv(Step(s, Tick)) && Present(Step(s, Tick), t)
    ensures s.current != t && Step(s, Tick).current != t ==>
              Ahead(Step(s, Tick), t) <= Ahead(s, t) - Calls(s, Tick) && Wait(Step(s, Tick), t) <= Wait(s, t) - 1
  {
    if s.tasks[s.current].ttl == 1 {
      LastTick(s, t);
    } else {
      EarlierTick(s, t);
    }
  }

  lemma YieldStep(s: System, t: int)
    requires Inv(s) && 0 <= t < MAX_TASK_NUM && Present(s, t)
    ensures Inv(Step(s, Yield)) && Present(Step(s, Yield), t)
    ensures s.current != t && Step(s, Yield).current != t ==>
              Ahead(Step(s, Yield), t) <= Ahead(s, t) - 1 && Wait(Step(s, Yield), t) <= Wait(s, t)
  {
    CanAlwaysSchedule(s, s.current);
    ScheduleInv(s);
    if t != s.current { ScheduleWait(s, t); }
  }

  lemma ExitStep(s: System, t: int)
    requires Inv(s) && Legal(s, Exit) && 0 <= t < MAX_TASK_NUM && Present(s, t) && s.current != t
    ensures Inv(Step(s, Exit)) && Present(Step(s, Exit), t)
    ensures Step(s, Exit).current != t ==>
              Ahead(Step(s, Exit), t) <= Ahead(s, t) - 1 && Wait(Step(s, Exit), t) <= Wait(s, t)
  {
    var m := Exited(s);
    CanAlwaysSchedule(m, t);
    ScheduleWait(m, t);
  }

  lemma SpawnStep(s: System)
    requires Inv(s) && Legal(s, Spawn)
    ensures Inv(Step(s, Spawn)) && Step(s, Spawn).current == s.current
    ensures Step(s, Spawn).tasks[s.current] == s.tasks[s.current]
    ensures forall t :: 0 <= t < MAX_TASK_NUM && Present(s, t) ==> Present(Step(s, Spawn), t)
  {}

  // ------------------------------------------------ what each event does, exactly

  // Going up from slot c, and round from 31 to 0, u comes before t.
  predicate Between(c: int, u: int, t: int) {
    if c < t then c < u < t else u > c || u < t
  }

  // t is the first present slot after c, going round; c itself comes last.
  ghost predicate NextAfter(tasks: seq<Task>, c: int, t: int)
    requires |tasks| == MAX_TASK_NUM
  {
    && 0 <= t < 32 && tasks[t].state != 0
    && forall u :: 0 <= u < 32 && Between(c, u, t) ==> tasks[u].state == 0
  }

  lemma ScheduleNext(s: System)
    requires Switching(s) && CanSchedule(s)
    ensures NextAfter(s.tasks, s.current, Schedule(s).current)
  {
    var c, d := s.current, NextPresent(s.tasks, s.current, 1);
    var t := Slot(c, d);
    forall u | 0 <= u < 32 && Between(c, u, t) ensures s.tasks[u].state == 0 {
      if s.tasks[u].state != 0 {
        FoundBy(s.tasks, c, u);
        NearerSlot(c, d, u);
      }
    }
  }

  // A slot before the one d places on is fewer than d places on.
  lemma NearerSlot(c: int, d: int, u: int)
    requires 0 <= c < 32 && 1 <= d <= 32 && 0 <= u < 32 && Between(c, u, Slot(c, d))
    ensures (if u > c then u - c else u - c + 32) < d
  {
    assert Slot(c, d) == if c + d >= 32 then c + d - 32 else c + d;
  }

  // A call of schedule renews the caller's slice of 10 ticks, touches no other slot,
  // and goes to the next present one.
  lemma YieldExact(s: System)
    requires Inv(s)
    ensures var r := Step(s, Yield);
            && r.tasks == s.tasks[s.current := Task(s.current, 1, 10)]
            && NextAfter(s.tasks, s.current, r.current)
  {
    NeedSchedBit();
    CanAlwaysSchedule(s, s.current);
    ScheduleNext(s);
  }

  // A tick takes one from the running task's time; the last one is a call of schedule.
  lemma TickExact(s: System)
    requires Inv(s)
    ensures s.tasks[s.current].ttl > 1 ==>
              Step(s, Tick) == s.(tasks := s.tasks[s.current := Task(s.current, 1, s.tasks[s.current].ttl - 1)])
    ensures s.tasks[s.current].ttl == 1 ==> Step(s, Tick) == Step(s, Yield)
  {
    NeedSchedBit();
    if s.tasks[s.current].ttl > 1 {
      EarlierTick(s, s.current);
    } else {
      LastTickExact(s);
    }
  }

  lemma LastTickExact(s: System)
    requires Inv(s) && s.tasks[s.current].ttl == 1
    ensures Step(s, Tick) == Step(s, Yield)
  {
    NeedSchedBit();
    TickCanSchedule(s);
    LastTickSwitches(s);
    CanAlwaysSchedule(s, s.current);
    var m := TimerHandler(s);
    SameNext(s.tasks, m.tasks, s.current, 1);
    assert m.tasks[s.current := Task(s.current, 1, 10)] == s.tasks[s.current := Task(s.current, 1, 10)];
  }

  // The search sees only which slots are in use.
  lemma {:induction false} SameNext(tasks: seq<Task>, tasks': seq<Task>, base: int, i: int)
    requires |tasks| == |tasks'| == MAX_TASK_NUM && 1 <= i <= MAX_TASK_NUM + 1
    requires forall t :: 0 <= t < MAX_TASK_NUM ==> (tasks[t].state == 0 <==> tasks'[t].state == 0)
    ensures NextPresent(tasks, base, i) == NextPresent(tasks', base, i)
    decreases MAX_TASK_NUM + 1 - i
  {
    if i <= MAX_TASK_NUM { SameNext(tasks, tasks', base, i + 1); }
  }

  // Other interrupts change nothing here.
  lemma InterruptExact(s: System)
    requires Inv(s)
    ensures Step(s, Interrupt) == s
  {
    NeedSchedBit();
  }

  // The task that exits is gone, no other slot is touched, and the next present one
  // runs.
  lemma ExitExact(s: System)
    requires Inv(s) && Legal(s, Exit)
    ensures var r := Step(s, Exit);
            && r.tasks == s.tasks[s.current := s.tasks[s.current].(state := 0)]
            && !Present(r, s.current) && r.current != s.current
            && NextAfter(r.tasks, s.current, r.current)
  {
    var t :| 0 <= t < MAX_TASK_NUM && t != s.current && Present(s, t);
    CanAlwaysSchedule(Exited(s), t);
    ScheduleNext(Exited(s));
  }

  // The least free slot t gets a present task with its own number and 10 ticks; no
  // other slot is touched and the caller goes on.
  lemma SpawnExact(s: System, t: int)
    requires Inv(s) && 0 <= t < 32 && s.tasks[t].state == 0 && forall k :: 0 <= k < t ==> s.tasks[k].state != 0
    ensures Legal(s, Spawn)
    ensures Step(s, Spawn) == System(s.tasks[t := Task(t, 1, 10)], s.current)
  {
    assert FreeSlot(s.tasks, 0) == t;
  }

  // Every event keeps the invariant.
  lemma StepInv(s: System, e: Event)
    requires Inv(s) && Legal(s, e)
    ensures Inv(Step(s, e))
  {
    match e
    case Tick => TickStep(s, s.current);
    case Interrupt => NeedSchedBit();
    case Yield => YieldStep(s, s.current);
    case Exit =>
      var t :| 0 <= t < MAX_TASK_NUM && t != s.current && Present(s, t);
      ExitStep(s, t);
    case Spawn => SpawnStep(s);
  }

  // One event brings a waiting task nearer: by a slot for each call of schedule,
  // by a tick for each tick; and it cannot be passed over or disappear.
  lemma StepNearer(s: System, e: Event, t: int)
    requires Inv(s) && Legal(s, e) && 0 <= t < MAX_TASK_NUM && Present(s, t) && s.current != t
    ensures Inv(Step(s, e)) && Present(Step(s, e), t)
    ensures var r := Step(s, e);
            r.current != t ==> Ahead(r, t) <= Ahead(s, t) - Calls(s, e) && Wait(r, t) <= Wait(s, t) - Ticks(e)
  {
    match e
    case Tick => TickStep(s, t);
    case Interrupt => NeedSchedBit();
    case Yield => YieldStep(s, t);
    case Exit => ExitStep(s, t);
    case Spawn => SpawnStep(s);
  }

  // --------------------------------------------------------------------- runs

  ghost predicate LegalRun(s: System, es: seq<Event>)
    requires Inv(s)
    decreases |es|
  {
    es != [] ==>
      Legal(s, es[0]) && (StepInv(s, es[0]); LegalRun(Step(s, es[0]), es[1..]))
  }

  // t is the running task at some point of the run.
  ghost predicate Runs(s: System, es: seq<Event>, t: int)
    requires Inv(s) && LegalRun(s, es)
    decreases |es|
  {
    s.current == t || (es != [] && (StepInv(s, es[0]); Runs(Step(s, es[0]), es[1..], t)))
  }

  function TicksOf(es: seq<Event>): nat {
    if es == [] then 0 else Ticks(es[0]) + TicksOf(es[1..])
  }

  ghost function CallsOf(s: System, es: seq<Event>): nat
    requires Inv(s) && LegalRun(s, es)
    decreases |es|
  {
    if es == [] then 0 else (StepInv(s, es[0]); Calls(s, es[0]) + CallsOf(Step(s, es[0]), es[1..]))
  }

  // A present task d slots ahead runs within d calls of schedule and within
  // Wait <= 10 * d ticks, whatever the running tasks do meanwhile.
  lemma {:induction false} WaitBound(s: System, es: seq<Event>, t: int)
    requires Inv(s) && LegalRun(s, es) && 0 <= t < MAX_TASK_NUM && Present(s, t)
    requires TicksOf(es) >= Wait(s, t) || CallsOf(s, es) >= Ahead(s, t)
    ensures Runs(s, es, t)
    decreases |es|
  {
    if s.current != t {
      AheadPositive(s, t);
      StepNearer(s, es[0], t);
      var r := Step(s, es[0]);
      if r.current != t { WaitBound(r, es[1..], t); }
    }
  }

  lemma AheadPositive(s: System, t: int)
    requires Inv(s) && 0 <= t < MAX_TASK_NUM && s.current != t
    ensures Ahead(s, t) >= 1 && 1 <= Wait(s, t) <= TIME_SLICE * Ahead(s, t)
  {}

  // No present task starves: 310 ticks are enough for any of them.
  lemma NoStarvation(s: System, es: seq<Event>, t: int)
    requires Inv(s) && LegalRun(s, es) && 0 <= t < MAX_TASK_NUM && Present(s, t)
    requires TicksOf(es) >= TIME_SLICE * (MAX_TASK_NUM - 1)
    ensures Runs(s, es, t)
  {
    if s.current != t {
      AheadPositive(s, t);
      WaitBound(s, es, t);
    }
  }

  // A task runs within 310 ticks of its creation.
  lemma SpawnedRuns(s: System, t: int, es: seq<Event>)
    requires Inv(s) && 0 <= t < 32 && s.tasks[t].state == 0 && forall k :: 0 <= k < t ==> s.tasks[k].state != 0
    requires Legal(s, Spawn) && Inv(Step(s, Spawn)) && LegalRun(Step(s, Spawn), es) && TicksOf(es) >= 310
    ensures Runs(Step(s, Spawn), es, t)
  {
    SpawnExact(s, t);
    NoStarvation(Step(s, Spawn), es, t);
  }

  // Some Spawn of the run takes slot t.
  ghost predicate SpawnsInto(s: System, es: seq<Event>, t: int)
    requires Inv(s) && LegalRun(s, es)
    decreases |es|
  {
    es != [] &&
    ((es[0].Spawn? && FreeSlot(s.tasks, 0) == t) || (StepInv(s, es[0]); SpawnsInto(Step(s, es[0]), es[1..], t)))
  }

  lemma TickTasks(s: System)
    requires Inv(s)
    ensures forall t :: 0 <= t < MAX_TASK_NUM && t != s.current ==> Step(s, Tick).tasks[t] == s.tasks[t]
  {
    YieldExact(s);
    TickExact(s);
  }

  lemma StaysFree(s: System, e: Event, t: int)
    requires Inv(s) && Legal(s, e) && 0 <= t < MAX_TASK_NUM && !Present(s, t)
    requires !(e.Spawn? && FreeSlot(s.tasks, 0) == t)
    ensures Inv(Step(s, e)) && !Present(Step(s, e), t)
  {
    StepInv(s, e);
    match e
    case Tick => TickTasks(s);
    case Interrupt => InterruptExact(s);
    case Yield => YieldExact(s);
    case Exit => ExitExact(s);
    case Spawn => SpawnExact(s, FreeSlot(s.tasks, 0));
  }

  // A slot without a task does not run, and stays without, before a Spawn takes it.
  lemma {:induction false} FreeUntilSpawn(s: System, es: seq<Event>, t: int)
    requires Inv(s) && LegalRun(s, es) && 0 <= t < MAX_TASK_NUM && !Present(s, t) && !SpawnsInto(s, es, t)
    ensures !Runs(s, es, t)
    decreases |es|
  {
    if es != [] {
      StaysFree(s, es[0], t);
      FreeUntilSpawn(Step(s, es[0]), es[1..], t);
    }
  }

  // A task that has exited does not run again before its slot is taken anew.
  lemma ExitedIsGone(s: System, es: seq<Event>)
    requires Inv(s) && Legal(s, Exit) && Inv(Step(s, Exit)) && LegalRun(Step(s, Exit), es)
    requires !SpawnsInto(Step(s, Exit), es, s.current)
    ensures !Runs(Step(s, Exit), es, s.current)
  {
    ExitExact(s);
    FreeUntilSpawn(Step(s, Exit), es, s.current);
  }

  ghost function Final(s: System, es: seq<Event>): System
    requires Inv(s) && LegalRun(s, es)
    decreases |es|
  {
    if es == [] then s else (StepInv(s, es[0]); Final(Step(s, es[0]), es[1..]))
  }

  lemma {:induction false} RunInv(s: System, es: seq<Event>)
    requires Inv(s) && LegalRun(s, es)
    ensures Inv(Final(s, es))
    decreases |es|
  {
    if es != [] {
      StepInv(s, es[0]);
      RunInv(Step(s, es[0]), es[1..]);
    }
  }

  // ------------------------------------------------------------ the task table

  class TaskTable {
    const tasks: array<Task>   // task_arr
    var current: int

    ghost function View(): System
      reads this, tasks
    {
      System(tasks[..], current)
    }

    // After boot: task 0 is running and is the only one.
    constructor ()
      ensures Inv(View()) && fresh(tasks) && current == 0
      ensures tasks.Length == 32 && tasks[0] == Task(0, 1, 10) && forall t :: 1 <= t < 32 ==> tasks[t].state == 0
    {
      tasks := new Task[MAX_TASK_NUM](i => if i == 0 then Task(0, TASK_PRESENT, TIME_SLICE) else Task(i, 0, 0));
      current := 0;
    }

    // The kernel stops if no slot is free.
    method GetNextTid() returns (t: int)
      requires FreeSlot(tasks[..], 0) < tasks.Length
      ensures t == FreeSlot(tasks[..], 0)
    {
      t := 0;
      while t < tasks.Length && tasks[t].state != 0
        invariant 0 <= t <= tasks.Length && FreeSlot(tasks[..], t) == FreeSlot(tasks[..], 0)
        decreases tasks.Length - t
      {
        t := t + 1;
      }
    }

    method SpawnTask()
      requires Inv(View()) && Legal(View(), Spawn)
      modifies tasks
      ensures View() == Step(old(View()), Spawn) && Inv(View())
    {
      SpawnStep(View());
      var tid := GetNextTid();
      tasks[tid] := Task(tid, TASK_PRESENT, TIME_SLICE);
    }

    // schedule's search, from the slot after `base` all the way round.
    method FindNext(base: int) returns (next: int)
      requires tasks.Length == MAX_TASK_NUM && NextPresent(tasks[..], base, 1) <= MAX_TASK_NUM
      ensures next == Slot(base, NextPresent(tasks[..], base, 1))
    {
      var i := 1;
      ghost var j := NextPresent(tasks[..], base, 1);
      while i <= MAX_TASK_NUM && tasks[Slot(base, i)].state == 0
        invariant 1 <= i <= j
      {
        assert tasks[..][Slot(base, i)].state == 0;
        i := i + 1;
      }
      assert tasks[..][Slot(base, j)].state != 0;
      next := Slot(base, i);
    }

    method DoSchedule()
      requires CanSchedule(View())
      modifies this, tasks
      ensures View() == Schedule(old(View()))
    {
      var next := FindNext(tasks[current].tid);
      if tasks[current].state != 0 {
        tasks[current] := tasks[current].(state := tasks[current].state & !TASK_NEED_SCHED);
        tasks[current] := tasks[current].(ttl := TIME_SLICE);
      }
      current := next;
    }

    method DoCondSchedule()
      requires CanSchedule(View())
      modifies this, tasks
      ensures View() == CondSchedule(old(View()))
    {
      if tasks[current].state & TASK_NEED_SCHED != 0 {
        DoSchedule();
      }
    }

    // timer_handler
    method DoTimerHandler()
      requires tasks.Length == MAX_TASK_NUM && 0 <= current < MAX_TASK_NUM
      modifies tasks
      ensures View() == TimerHandler(old(View()))
    {
      tasks[current] := tasks[current].(ttl := (tasks[current].ttl - 1) % 0x1_0000_0000);
      if tasks[current].ttl == 0 {
        tasks[current] := tasks[current].(state := tasks[current].state | TASK_NEED_SCHED);
      }
    }

    // The timer interrupt: timer_handler, then cond_schedule.
    method TimerInterrupt()
      requires Inv(View())
      modifies this, tasks
      ensures View() == Step(old(View()), Tick) && Inv(View())
    {
      ghost var s := View();
      StepInv(s, Tick);
      TickCanSchedule(s);
      DoTimerHandler();
      DoCondSchedule();
    }

    method TerminateProcess()
      requires Inv(View()) && Legal(View(), Exit)
      modifies this, tasks
      ensures View() == Step(old(View()), Exit) && Inv(View())
    {
      ghost var s := View();
      StepInv(s, Exit);
      ghost var t :| 0 <= t < MAX_TASK_NUM && t != s.current && Present(s, t);
      CanAlwaysSchedule(Exited(s), t);
      tasks[current] := tasks[current].(state := 0);
      assert View() == Exited(s);
      DoSchedule();
    }
  }
}
