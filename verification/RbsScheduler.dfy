// The restbus scheduler (software/src/engine/rbs/rbs_scheduler.cpp): periodic
// templates over a virtual time base, with a catch-up loop.  What a tick does
// to a task is given in closed form; the loop is proved to compute it.
module RbsScheduler {
  import opened Arith
  import opened BusTypes

  datatype Task = Task(
    msgId: nat,
    channel: nat,
    busType: BusType,
    period: nat,
    dlc: nat,
    data: seq<byte>,
    enabled: bool,
    next: nat)

  predicate Active(t: Task) {
    t.enabled && t.period > 0
  }

  /** The deadlines `next`, `next + period`, ... not after `now`. */
  function Deadlines(next: nat, period: nat, now: nat): nat
    requires period > 0
  {
    if next <= now then (now - next) / period + 1 else 0
  }

  /** How many frames a tick at `now` emits for the task. */
  function DueCount(t: Task, now: nat): nat {
    if Active(t) && t.next > 0 then Deadlines(t.next, t.period, now) else 0
  }

  /** The task after a tick: an unanchored active task is anchored one period
      ahead, an anchored one moves to its first deadline after `now`. */
  function AfterTick(t: Task, now: nat): Task {
    if Active(t) && t.next == 0 then t.(next := now + t.period)
    else t.(next := t.next + DueCount(t, now) * t.period)
  }

  /** `make_frame` of the template, stamped with the tick time. */
  function FrameOf(t: Task, now: nat): BusFrame
    requires |t.data| == MAX_PAYLOAD
  {
    var dlc := if t.dlc > MAX_PAYLOAD then MAX_PAYLOAD else t.dlc;
    BusFrame(now * 10 % TWO_64, t.busType, t.channel, Tx, t.msgId, false, t.busType == CanFd || t.busType == CanXl, dlc,
             t.data[..dlc] + Zeros(MAX_PAYLOAD - dlc), Good)
  }

  function Copies(f: BusFrame, n: nat): seq<BusFrame> {
    seq(n, _ => f)
  }

  function TickAll(ts: seq<Task>, now: nat): (r: seq<Task>)
    ensures |r| == |ts|
  {
    seq(|ts|, i requires 0 <= i < |ts| => AfterTick(ts[i], now))
  }

  /** The frames of one tick, task by task in table order. */
  function EmitAll(ts: seq<Task>, now: nat): seq<BusFrame>
    requires forall t | t in ts :: |t.data| == MAX_PAYLOAD
    decreases |ts|
  {
    if ts == [] then [] else
    var last := ts[|ts| - 1];
    EmitAll(ts[..|ts| - 1], now) + Copies(FrameOf(last, now), DueCount(last, now))
  }

  lemma TickAllStep(ts: seq<Task>, i: nat, now: nat)
    requires i < |ts|
    ensures (TickAll(ts[..i], now) + ts[i..])[i] == ts[i]
    ensures (TickAll(ts[..i], now) + ts[i..])[i := AfterTick(ts[i], now)] == TickAll(ts[..i + 1], now) + ts[i + 1..]
  {
  }

  lemma EmitAllStep(ts: seq<Task>, i: nat, now: nat)
    requires i < |ts| && forall t | t in ts :: |t.data| == MAX_PAYLOAD
    ensures EmitAll(ts[..i + 1], now) == EmitAll(ts[..i], now) + Copies(FrameOf(ts[i], now), DueCount(ts[i], now))
  {
    assert ts[..i + 1][..i] == ts[..i];
  }

  /** `std::vector<BusFrame>`. */
  class FrameList {
    var frames: seq<BusFrame>
    constructor () ensures frames == [] { frames := []; }
  }

  class RbsScheduler {
    var tasks: seq<Task>

    constructor ()
      ensures tasks == []
    {
      tasks := [];
    }

    ghost predicate Valid()
      reads this
    {
      TasksValid(tasks)
    }

    method Reset()
      modifies this
      ensures |tasks| == |old(tasks)|
      ensures forall i | 0 <= i < |tasks| :: tasks[i] == old(tasks)[i].(next := 0)
    {
      var i := 0;
      while i < |tasks|
        invariant 0 <= i <= |tasks| == |old(tasks)|
        invariant forall j | 0 <= j < |tasks| ::
          tasks[j] == if j < i then old(tasks)[j].(next := 0) else old(tasks)[j]
      {
        tasks := tasks[i := tasks[i].(next := 0)];
        i := i + 1;
      }
    }

    method AddTask(task: Task)
      modifies this
      ensures tasks == old(tasks) + [task]
    {
      tasks := tasks + [task];
    }

    /** Removes the first task with this identifier and channel. */
    method RemoveTask(msgId: nat, channel: nat) returns (found: bool)
      modifies this
      ensures found <==> exists t :: t in old(tasks) && t.msgId == msgId && t.channel == channel
      ensures !found ==> tasks == old(tasks)
      ensures found ==> exists i | 0 <= i < |old(tasks)| ::
                          && old(tasks)[i].msgId == msgId && old(tasks)[i].channel == channel
                          && (forall j | 0 <= j < i ::
                                old(tasks)[j].msgId != msgId || old(tasks)[j].channel != channel)
                          && tasks == old(tasks)[..i] + old(tasks)[i + 1..]
    {
      var i := 0;
      while i < |tasks|
        invariant 0 <= i <= |tasks| && tasks == old(tasks)
        invariant forall j | 0 <= j < i :: tasks[j].msgId != msgId || tasks[j].channel != channel
      {
        if tasks[i].msgId == msgId && tasks[i].channel == channel {
          assert old(tasks)[i] in old(tasks);
          tasks := tasks[..i] + tasks[i + 1..];
          return true;
        }
        i := i + 1;
      }
      return false;
    }

    method ClearTasks()
      modifies this
      ensures tasks == []
    {
      tasks := [];
    }

    /** Emits every due frame and moves every task to its next deadline, as
        long as those deadlines fit the 64-bit clock. */
    method Tick(now: nat, out: FrameList?) returns (emitted: nat)
      requires Valid() && DeadlinesFit(tasks, now)
      modifies this, out
      ensures Valid()
      ensures out == null ==> emitted == 0 && tasks == old(tasks)
      ensures out != null ==>
                && tasks == TickAll(old(tasks), now)
                && out.frames == old(out.frames) + EmitAll(old(tasks), now)
                && emitted == |EmitAll(old(tasks), now)|
    {
      if out == null {
        return 0;
      }
      emitted := 0;
      ghost var ts, sent := tasks, [];
      var i := 0;
      while i < |tasks|
        invariant 0 <= i <= |tasks| && Ticked(ts, i, now, tasks, sent)
        invariant out.frames == old(out.frames) + sent && emitted == |sent|
      {
        TickedStep(ts, i, now, tasks, sent);
        var t, more := TickTask(tasks[i], now);
        tasks := tasks[i := t];
        out.frames := out.frames + more;
        emitted := emitted + |more|;
        sent := sent + more;
        i := i + 1;
      }
      TickedAll(ts, now, tasks, sent);
      TickKeepsValid(ts, now);
    }
  }

  ghost predicate Stamped(ts: seq<Task>) {
    forall t | t in ts :: |t.data| == MAX_PAYLOAD
  }

  /** The first `i` tasks have been ticked and have emitted `sent`. */
  ghost predicate Ticked(ts: seq<Task>, i: nat, now: nat, current: seq<Task>, sent: seq<BusFrame>) {
    && Stamped(ts) && i <= |ts|
    && current == TickAll(ts[..i], now) + ts[i..] && sent == EmitAll(ts[..i], now)
  }

  lemma TickedStep(ts: seq<Task>, i: nat, now: nat, current: seq<Task>, sent: seq<BusFrame>)
    requires Ticked(ts, i, now, current, sent) && i < |ts|
    ensures |current| == |ts| && current[i] == ts[i] && ts[i] in ts
    ensures Ticked(ts, i + 1, now, current[i := AfterTick(ts[i], now)],
                   sent + Copies(FrameOf(ts[i], now), DueCount(ts[i], now)))
  {
    TickAllStep(ts, i, now);
    EmitAllStep(ts, i, now);
  }

  lemma TickedAll(ts: seq<Task>, now: nat, current: seq<Task>, sent: seq<BusFrame>)
    requires Ticked(ts, |ts|, now, current, sent)
    ensures current == TickAll(ts, now) && sent == EmitAll(ts, now)
  {
    assert ts[..|ts|] == ts;
  }

  ghost predicate DeadlinesFit(ts: seq<Task>, now: nat) {
    forall t | t in ts :: AfterTick(t, now).next < TWO_64
  }

  ghost predicate TasksValid(ts: seq<Task>) {
    forall t | t in ts :: |t.data| == MAX_PAYLOAD && t.period < TWO_32 && t.next < TWO_64
  }

  lemma TickKeepsValid(ts: seq<Task>, now: nat)
    requires TasksValid(ts) && DeadlinesFit(ts, now)
    ensures TasksValid(TickAll(ts, now))
  {
    forall t | t in TickAll(ts, now)
      ensures |t.data| == MAX_PAYLOAD && t.period < TWO_32 && t.next < TWO_64
    {
      var i :| 0 <= i < |ts| && TickAll(ts, now)[i] == t;
      assert ts[i] in ts;
    }
  }

  /** Lines 34-55 for one task: the deadline advances a period at a time. */
  method TickTask(task: Task, now: nat) returns (t: Task, frames: seq<BusFrame>)
    requires |task.data| == MAX_PAYLOAD && AfterTick(task, now).next < TWO_64
    ensures t == AfterTick(task, now)
    ensures frames == Copies(FrameOf(task, now), DueCount(task, now))
  {
    t, frames := task, [];
    if !t.enabled || t.period == 0 {
      return;
    }
    if t.next == 0 {
      t := t.(next := (now + t.period) % TWO_64);
      return;
    }
    var next;
    next, frames := CatchUp(task, now);
    t := t.(next := next);
  }

  /** Lines 43-55: the deadline advances a period at a time. */
  method CatchUp(task: Task, now: nat) returns (next: nat, frames: seq<BusFrame>)
    requires |task.data| == MAX_PAYLOAD && task.period > 0
    requires FirstAfter(task.next, task.period, now) < TWO_64
    ensures next == FirstAfter(task.next, task.period, now)
    ensures frames == Copies(FrameOf(task, now), Deadlines(task.next, task.period, now))
  {
    var p := task.period;
    next, frames := task.next, [];
    LoopClosedForm(task.next, p, now);
    while next <= now
      invariant frames == Copies(FrameOf(task, now), |frames|)
      invariant |frames| + Rounds(next, p, now) == Rounds(task.next, p, now)
      invariant Landing(next, p, now) == Landing(task.next, p, now)
      decreases if next <= now then now - next + 1 else 0
    {
      frames := frames + [FrameOf(task, now)];
      next := (next + p) % TWO_64;
    }
  }

  /** How often the loop goes round, and where it stops. */
  function Rounds(next: nat, p: nat, now: nat): nat
    requires p > 0
    decreases if next <= now then now - next + 1 else 0
  {
    if next <= now then 1 + Rounds(next + p, p, now) else 0
  }

  function Landing(next: nat, p: nat, now: nat): (r: nat)
    requires p > 0
    ensures r >= next
    decreases if next <= now then now - next + 1 else 0
  {
    if next <= now then Landing(next + p, p, now) else next
  }

  /** The first deadline after `now`. */
  function FirstAfter(next: nat, p: nat, now: nat): nat
    requires p > 0
  {
    next + Deadlines(next, p, now) * p
  }

  lemma {:induction false} LoopClosedForm(next: nat, p: nat, now: nat)
    requires p > 0
    ensures Rounds(next, p, now) == Deadlines(next, p, now)
    ensures Landing(next, p, now) == FirstAfter(next, p, now)
    decreases if next <= now then now - next + 1 else 0
  {
    if next <= now {
      LoopClosedForm(next + p, p, now);
      OneDeadline(next, p, now);
    }
  }

  /** One round of the catch-up loop. */
  lemma OneDeadline(next: nat, p: nat, now: nat)
    requires p > 0 && next <= now
    ensures Deadlines(next, p, now) == 1 + Deadlines(next + p, p, now)
    ensures FirstAfter(next + p, p, now) == FirstAfter(next, p, now)
  {
    var x := now - next;
    if x < p {
      DivModUnique(p, x, 0, x);
    } else {
      DivMod(p, x - p);
      DivModUnique(p, x, (x - p) / p + 1, (x - p) % p);
    }
    MulStep(Deadlines(next + p, p, now), p);
  }

  /** `Deadlines` is the one count that passes `now` by at most a period. */
  lemma LoopCount(next: nat, p: nat, now: nat, n: nat)
    requires p > 0 && next + n * p > now
    requires n > 0 ==> next + n * p <= now + p
    ensures n == Deadlines(next, p, now)
  {
    if n > 0 {
      MulStep(n - 1, p);
      DivModUnique(p, now - next, n - 1, now - next - (n - 1) * p);
    }
  }

  lemma DeadlinesPass(next: nat, p: nat, now: nat)
    requires p > 0
    ensures var n := Deadlines(next, p, now); next + n * p > now && (n > 0 ==> next + n * p <= now + p)
  {
    if next <= now {
      DivBounds(p, now - next);
      var q := (now - next) / p;
      assert (q + 1) * p == p * q + p;
    }
  }

  lemma DeadlinesSplit(next: nat, p: nat, t1: nat, t2: nat)
    requires p > 0 && t1 <= t2
    ensures var n := Deadlines(next, p, t1);
            Deadlines(next, p, t2) == n + Deadlines(next + n * p, p, t2)
  {
    var n := Deadlines(next, p, t1);
    var k := Deadlines(next + n * p, p, t2);
    DeadlinesPass(next, p, t1);
    DeadlinesPass(next + n * p, p, t2);
    assert n * p + k * p == (n + k) * p;
    LoopCount(next, p, t2, n + k);
  }

  // ----- whole runs -----

  function RunTask(t: Task, times: seq<nat>): Task
    decreases |times|
  {
    if times == [] then t else AfterTick(RunTask(t, times[..|times| - 1]), times[|times| - 1])
  }

  /** Frames emitted for a task over a sequence of ticks. */
  function Emitted(t: Task, times: seq<nat>): nat
    decreases |times|
  {
    if times == [] then 0 else
    Emitted(t, times[..|times| - 1]) + DueCount(RunTask(t, times[..|times| - 1]), times[|times| - 1])
  }

  /** The frames themselves. */
  function TaskFrames(t: Task, times: seq<nat>): seq<BusFrame>
    requires |t.data| == MAX_PAYLOAD
    decreases |times|
  {
    if times == [] then [] else
    var front, now := times[..|times| - 1], times[|times| - 1];
    var r := RunTask(t, front);
    RunTaskMovesDeadline(t, front);
    TaskFrames(t, front) + Copies(FrameOf(r, now), DueCount(r, now))
  }

  lemma {:induction false} RunTaskMovesDeadline(t: Task, times: seq<nat>)
    ensures RunTask(t, times) == t.(next := RunTask(t, times).next)
    decreases |times|
  {
    if times != [] { RunTaskMovesDeadline(t, times[..|times| - 1]); }
  }

  /** Frame by frame, time stamps apart, a task emits nothing but its template. */
  lemma {:induction false} OnlyTemplates(t: Task, times: seq<nat>)
    requires |t.data| == MAX_PAYLOAD
    ensures |TaskFrames(t, times)| == Emitted(t, times)
    ensures forall f | f in TaskFrames(t, times) :: f.(timestamp := 0) == FrameOf(t, 0)
    decreases |times|
  {
    if times != [] {
      var front, now := times[..|times| - 1], times[|times| - 1];
      OnlyTemplates(t, front);
      RunTaskMovesDeadline(t, front);
      var r := RunTask(t, front);
      assert FrameOf(r, now).(timestamp := 0) == FrameOf(t, 0);
      assert forall f | f in Copies(FrameOf(r, now), DueCount(r, now)) :: f == FrameOf(r, now);
    }
  }

  function Max(times: seq<nat>): (m: nat)
    requires times != []
    ensures m in times && forall x | x in times :: x <= m
    decreases |times|
  {
    if |times| == 1 then times[0] else
    var rest := Max(times[..|times| - 1]);
    assert forall x | x in times :: x in times[..|times| - 1] || x == times[|times| - 1];
    if times[|times| - 1] > rest then times[|times| - 1] else rest
  }

  lemma GridPoint(n: nat, d: nat, p: nat)
    ensures (n + 1) * p + d * p == (n + d + 1) * p == p * (n + d) + p == p * (n + d + 1)
  {
  }

  /** Deadlines lie on the grid `a + k * p`: counting from the grid point
      after `n` frames gives the whole periods since `a`. */
  lemma DeadlinesOnGrid(a: nat, p: nat, n: nat, m: nat, now: nat)
    requires p > 0 && a <= m && n == (m - a) / p
    ensures var top := if now > m then now else m;
            n + Deadlines(a + (n + 1) * p, p, now) == (top - a) / p
            && a + ((top - a) / p + 1) * p > top
  {
    DivBounds(p, m - a);
    var next := a + (n + 1) * p;
    var d := Deadlines(next, p, now);
    DeadlinesPass(next, p, now);
    GridPoint(n, d, p);
    GridPoint(n, 0, p);
    var top := if now > m then now else m;
    DivModUnique(p, top - a, n + d, top - a - p * (n + d));
  }

  /** One more tick of a task that has emitted `n` frames since `a`, the
      latest tick having been at `m`. */
  lemma ClosedFormStep(t: Task, a: nat, m: nat, n: nat, now: nat)
    requires Active(t) && a <= m && n == (m - a) / t.period && t.next == a + (n + 1) * t.period
    ensures var top := if now > m then now else m;
            var k := n + DueCount(t, now);
            && k == (top - a) / t.period
            && AfterTick(t, now) == t.(next := a + (k + 1) * t.period)
            && AfterTick(t, now).next > top
  {
    var p, d := t.period, DueCount(t, now);
    assert (n + 1) * p >= p;
    DeadlinesOnGrid(a, p, n, m, now);
    assert (n + 1) * p + d * p == (n + d + 1) * p;
  }

  /** `n` frames since the anchor `a`, the latest tick having been at `m`. */
  ghost predicate OnSchedule(t: Task, r: Task, a: nat, m: nat, n: nat)
    requires Active(t)
  {
    a <= m && n == (m - a) / t.period && r == t.(next := a + (n + 1) * t.period) && r.next > m
  }

  lemma AnchorOnSchedule(t: Task, a: nat)
    requires Active(t) && t.next == 0
    ensures OnSchedule(t, AfterTick(t, a), a, a, 0)
  {
    DivModUnique(t.period, 0, 0, 0);
  }

  lemma StepOnSchedule(t: Task, r: Task, a: nat, m: nat, n: nat, now: nat)
    requires Active(t) && OnSchedule(t, r, a, m, n)
    ensures OnSchedule(t, AfterTick(r, now), a, if now > m then now else m, n + DueCount(r, now))
  {
    ClosedFormStep(r, a, m, n, now);
  }

  /** Closed form over any ticks, in any order: an active task first ticked at
      `a` has emitted one frame per whole period up to the latest time seen. */
  lemma {:induction false} EmittedClosedForm(t: Task, times: seq<nat>)
    requires t.enabled && t.period > 0 && t.next == 0 && times != []
    ensures OnSchedule(t, RunTask(t, times), times[0], Max(times), Emitted(t, times))
    decreases |times|
  {
    var front, now := times[..|times| - 1], times[|times| - 1];
    if |times| == 1 {
      assert RunTask(t, front) == t && Emitted(t, front) == 0;
      AnchorOnSchedule(t, now);
    } else {
      EmittedClosedForm(t, front);
      StepOnSchedule(t, RunTask(t, front), times[0], Max(front), Emitted(t, front), now);
    }
  }

  lemma NextIsBeyond(t: Task, now: nat)
    requires Active(t) && t.next > 0
    ensures AfterTick(t, now).next > now && AfterTick(t, now).next >= t.next
  {
    DeadlinesPass(t.next, t.period, now);
  }

  lemma {:induction false} InactiveEmitsNothing(t: Task, times: seq<nat>)
    requires !t.enabled || t.period == 0
    ensures Emitted(t, times) == 0 && RunTask(t, times) == t
    decreases |times|
  {
    if times != [] {
      InactiveEmitsNothing(t, times[..|times| - 1]);
    }
  }

  // ----- splitting ticks -----

  predicate Anchored(t: Task) {
    Active(t) ==> t.next > 0
  }

  lemma AnchoredSplit(t: Task, t1: nat, t2: nat)
    requires Anchored(t) && t1 <= t2
    ensures AfterTick(AfterTick(t, t1), t2) == AfterTick(t, t2)
    ensures DueCount(t, t1) + DueCount(AfterTick(t, t1), t2) == DueCount(t, t2)
    ensures Anchored(AfterTick(t, t1))
  {
    if Active(t) {
      DeadlinesSplit(t.next, t.period, t1, t2);
      var n, k := DueCount(t, t1), DueCount(AfterTick(t, t1), t2);
      assert n * t.period + k * t.period == (n + k) * t.period;
    }
  }

  /** A tick may be split in two exactly when the task is anchored, inactive,
      or both ticks happen at the same time. */
  lemma SplitIffAnchored(t: Task, t1: nat, t2: nat)
    requires t1 <= t2
    ensures (AfterTick(AfterTick(t, t1), t2) == AfterTick(t, t2)
             && DueCount(t, t1) + DueCount(AfterTick(t, t1), t2) == DueCount(t, t2))
            <==> Anchored(t) || t1 == t2
  {
    if Anchored(t) {
      AnchoredSplit(t, t1, t2);
    } else if t1 < t2 {
      var mid := AfterTick(t, t1);
      if t2 >= mid.next {
        assert DueCount(mid, t2) >= 1;
      } else {
        assert AfterTick(mid, t2).next == t1 + t.period;
      }
    }
  }

  function RunAll(ts: seq<Task>, times: seq<nat>): (r: seq<Task>)
    ensures |r| == |ts|
    decreases |times|
  {
    if times == [] then ts else TickAll(RunAll(ts, times[..|times| - 1]), times[|times| - 1])
  }

  lemma {:induction false} RunAllIsPerTask(ts: seq<Task>, times: seq<nat>, i: nat)
    requires i < |ts|
    ensures RunAll(ts, times)[i] == RunTask(ts[i], times)
    decreases |times|
  {
    if times != [] {
      RunAllIsPerTask(ts, times[..|times| - 1], i);
    }
  }

  /** A tick not later than one already made does nothing to an anchored task. */
  lemma LateTickIsIdle(t: Task, earlier: nat, m: nat)
    requires Anchored(t) && earlier <= m
    ensures AfterTick(AfterTick(t, m), earlier) == AfterTick(t, m)
    ensures DueCount(AfterTick(t, m), earlier) == 0
  {
    if Active(t) { NextIsBeyond(t, m); }
  }

  lemma {:induction false} RunTaskIsLatestTick(t: Task, times: seq<nat>)
    requires Anchored(t) && times != []
    ensures RunTask(t, times) == AfterTick(t, Max(times))
    ensures Emitted(t, times) == DueCount(t, Max(times))
    decreases |times|
  {
    var front, now := times[..|times| - 1], times[|times| - 1];
    if |times| == 1 {
      assert RunTask(t, front) == t && Emitted(t, front) == 0;
    } else {
      RunTaskIsLatestTick(t, front);
      if now > Max(front) {
        AnchoredSplit(t, Max(front), now);
      } else {
        LateTickIsIdle(t, now, Max(front));
      }
    }
  }

  /** Once every active task is anchored, any schedule of ticks leaves the
      table, and emits for every task as many frames, as one tick at the
      latest of its times. */
  lemma ScheduleIrrelevant(ts: seq<Task>, times: seq<nat>)
    requires times != [] && forall t | t in ts :: Anchored(t)
    ensures RunAll(ts, times) == TickAll(ts, Max(times))
    ensures forall i | 0 <= i < |ts| :: Emitted(ts[i], times) == DueCount(ts[i], Max(times))
  {
    forall i | 0 <= i < |ts|
      ensures RunAll(ts, times)[i] == TickAll(ts, Max(times))[i]
      ensures Emitted(ts[i], times) == DueCount(ts[i], Max(times))
    {
      assert ts[i] in ts;
      RunAllIsPerTask(ts, times, i);
      RunTaskIsLatestTick(ts[i], times);
    }
  }

  // ----- bursts -----

  /** The clock has not run a whole period past the task's deadline. */
  predicate KeepsUp(t: Task, now: nat) {
    !Active(t) || t.next == 0 || now < t.next + t.period
  }

  /** A tick emits at most one frame of a task exactly when it keeps up. */
  lemma NoBurstIff(t: Task, now: nat)
    ensures DueCount(t, now) <= 1 <==> KeepsUp(t, now)
  {
    if Active(t) && t.next > 0 && t.next <= now {
      var p, late := t.period, now - t.next;
      if late < p {
        DivModUnique(p, late, 0, late);
      } else {
        DivMonotone(p, p, late);
        DivModUnique(p, p, 1, 0);
      }
    }
  }

  /** Where in a tick's output the frames of task i begin. */
  function Offset(ts: seq<Task>, now: nat, i: nat): nat
    requires Stamped(ts) && i <= |ts|
  {
    |EmitAll(ts[..i], now)|
  }

  /** The whole tick: no task bursts exactly when every task keeps up. */
  lemma TickBurstFreeIff(ts: seq<Task>, now: nat)
    requires Stamped(ts)
    ensures (forall i: nat | i < |ts| :: Offset(ts, now, i + 1) - Offset(ts, now, i) <= 1)
            <==> forall i: nat | i < |ts| :: KeepsUp(ts[i], now)
  {
    forall i: nat | i < |ts|
      ensures Offset(ts, now, i + 1) - Offset(ts, now, i) <= 1 <==> KeepsUp(ts[i], now)
    {
      EmitAllStep(ts, i, now);
      NoBurstIff(ts[i], now);
    }
    if forall i: nat | i < |ts| :: Offset(ts, now, i + 1) - Offset(ts, now, i) <= 1 {
      forall i: nat | i < |ts| ensures KeepsUp(ts[i], now) {
        assert Offset(ts, now, i + 1) - Offset(ts, now, i) <= 1;
      }
    }
  }

  /** A stall: a 1 kHz task anchored at 0 and next ticked after 5 ms sends five
      frames at once. */
  lemma StallBursts(t: Task)
    requires |t.data| == MAX_PAYLOAD && t.enabled && t.period == 1000 && t.next == 0
    ensures EmitAll(TickAll([t], 0), 5000) == Copies(FrameOf(t, 5000), 5)
    ensures !KeepsUp(AfterTick(t, 0), 5000)
  {
    var r := TickAll([t], 0);
    assert r == [AfterTick(t, 0)] && r[..1] == r && r[..0] == [];
    EmitAllStep(r, 0, 5000);
    assert FrameOf(r[0], 5000) == FrameOf(t, 5000);
  }

  // ----- what the frames say -----

  /** A frame of the task at time `now`, in the task's own fields: identifier,
      channel and bus, sent, standard identifier, FD on CAN FD and CAN XL, at most
      64 payload bytes with zeros behind them, stamped in units of 100 ns. */
  ghost predicate Carries(f: BusFrame, t: Task, now: nat)
    requires |t.data| == 64
  {
    && f.id == t.msgId && f.channel == t.channel && f.busType == t.busType && f.dir == Tx && !f.extended
    && (f.fd <==> t.busType == CanFd || t.busType == CanXl)
    && f.dlc == (if t.dlc > 64 then 64 else t.dlc) && |f.data| == 64
    && (forall j | 0 <= j < 64 :: f.data[j] == if j < t.dlc then t.data[j] else 0)
    && f.timestamp == now * 10 % 0x1_0000_0000_0000_0000 && f.status == Good
  }

  lemma FrameCarriesTheTask(t: Task, now: nat)
    requires |t.data| == 64
    ensures Carries(FrameOf(t, now), t, now)
  {
  }

  /** A whole tick: task i's frames come after those of the tasks before it, one
      per deadline passed, and each is its template at the time of the tick. */
  lemma TickOutput(ts: seq<Task>, now: nat, i: nat, k: nat)
    requires Stamped(ts) && i < |ts| && Offset(ts, now, i) <= k < Offset(ts, now, i + 1)
    ensures Offset(ts, now, i + 1) == Offset(ts, now, i) + DueCount(ts[i], now)
    ensures Offset(ts, now, |ts|) == |EmitAll(ts, now)| && k < |EmitAll(ts, now)|
    ensures ts[i] in ts && Carries(EmitAll(ts, now)[k], ts[i], now)
  {
    EmitAllStep(ts, i, now);
    EmitPrefix(ts, now, i + 1);
    FrameCarriesTheTask(ts[i], now);
    assert ts[..|ts|] == ts;
  }

  lemma {:induction false} EmitPrefix(ts: seq<Task>, now: nat, i: nat)
    requires Stamped(ts) && i <= |ts|
    ensures Stamped(ts[..i]) && EmitAll(ts[..i], now) <= EmitAll(ts, now)
    decreases |ts| - i
  {
    if i < |ts| {
      EmitAllStep(ts, i, now);
      EmitPrefix(ts, now, i + 1);
    } else {
      assert ts[..i] == ts;
    }
  }
}
