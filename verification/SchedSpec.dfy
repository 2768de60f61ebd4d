/** scheduler/task.c as a state machine on values. A task is named by its slot in the task table, which is its PID;
    each API call or timer tick is one atomic step, and the context switch is the change of `cur`. */
module SchedSpec {
  import opened Machine
  import opened Wrappers
  import opened Links

  const TIME_SLICE: nat := 10
  const REAP_PERIOD: nat := 100
  datatype TaskState = READY | RUNNING | BLOCKED | SLEEPING | TERMINATED

  datatype Task = Task(pid: nat, state: TaskState, slice: nat, runtime: nat, wake: nat)

  type Table = seq<Option<Task>>

  datatype Sched = Sched(table: Table, size: nat, cur: nat, idle: nat, ready: seq<nat>, sleep: seq<nat>, reap: nat)

  predicate Live(t: Table, p: nat) {
    p < |t| && t[p].Some?
  }

  function TaskAt(t: Table, p: nat): Task {
    if Live(t, p) then t[p].value else Task(p, TERMINATED, 0, 0, 0)
  }

  function Upd(t: Table, p: nat, k: Task): (r: Table)
    ensures |r| == |t|
  {
    if p < |t| then t[p := Some(k)] else t
  }

  function CountSome(t: Table): (n: nat)
    ensures n <= |t|
  {
    if t == [] then 0 else CountSome(t[..|t| - 1]) + (if t[|t| - 1].Some? then 1 else 0)
  }

  // ---------------------------------------------------------------- steps

  /** The tasks of q whose wake time has come, in order. */
  function Expired(t: Table, q: seq<nat>, now: nat): seq<nat> {
    if q == [] then []
    else
      var r := Expired(t, q[..|q| - 1], now);
      if TaskAt(t, q[|q| - 1]).wake <= now then r + [q[|q| - 1]] else r
  }

  /** The tasks of q that keep sleeping, in order. */
  function Pending(t: Table, q: seq<nat>, now: nat): seq<nat> {
    if q == [] then []
    else
      var r := Pending(t, q[..|q| - 1], now);
      if TaskAt(t, q[|q| - 1]).wake <= now then r else r + [q[|q| - 1]]
  }

  function MarkReady(t: Table, q: seq<nat>): (r: Table)
    ensures |r| == |t|
    ensures forall i :: 0 <= i < |t| ==>
        r[i] == if t[i].Some? && i in q then Some(t[i].value.(state := READY)) else t[i]
  {
    seq(|t|, i requires 0 <= i < |t| =>
      if t[i].Some? && i in q then Some(t[i].value.(state := READY)) else t[i])
  }

  /** scheduler_check_sleeping_tasks */
  function Wake(s: Sched, now: nat): Sched {
    var e := Expired(s.table, s.sleep, now);
    s.(table := MarkReady(s.table, e), ready := s.ready + e, sleep := Pending(s.table, s.sleep, now))
  }

  predicate Reapable(t: Table, i: nat, cur: nat) {
    Live(t, i) && t[i].value.state == TERMINATED && i != cur
  }

  function ReapTable(t: Table, cur: nat): (r: Table)
    ensures |r| == |t|
    ensures forall i :: 0 <= i < |t| ==> r[i] == if Reapable(t, i, cur) then None else t[i]
  {
    seq(|t|, i requires 0 <= i < |t| => if Reapable(t, i, cur) then None else t[i])
  }

  /** scheduler_reap_terminated, on every REAP_PERIOD-th tick */
  function Reap(s: Sched): Sched {
    if s.reap + 1 >= REAP_PERIOD then
      var t := ReapTable(s.table, s.cur);
      s.(table := t, size := CountSome(t), reap := 0)
    else s.(reap := s.reap + 1)
  }

  /** The slice and runtime accounting of scheduler_tick. */
  function Account(s: Sched): Sched {
    var k := TaskAt(s.table, s.cur);
    s.(table := Upd(s.table, s.cur, k.(slice := if k.slice > 0 then k.slice - 1 else 0, runtime := k.runtime + 1)))
  }

  /** scheduler_pick_next: the head of the ready queue, or the idle task. */
  function Picked(s: Sched): nat {
    if s.ready == [] then s.idle else s.ready[0]
  }

  /** The ready queue without the picked task. */
  function Dequeue(s: Sched): Sched {
    if s.ready == [] then s else s.(ready := s.ready[1..])
  }

  /** The switch to the picked task; the outgoing one goes back to the queue if it is still running. */
  function Resume(s: Sched, next: nat): Sched {
    var last := TaskAt(s.table, s.cur);
    if next == s.cur then
      s.(table := Upd(s.table, s.cur, last.(slice := TIME_SLICE)))
    else
      var s1 := if last.state == RUNNING then
                  s.(table := Upd(s.table, s.cur, last.(state := READY, slice := TIME_SLICE)),
                     ready := s.ready + [s.cur])
                else s;
      s1.(table := Upd(s1.table, next, TaskAt(s1.table, next).(state := RUNNING, slice := TIME_SLICE)), cur := next)
  }

  /** The end of scheduler_tick, once the slice is used up. */
  function Switch(s: Sched): Sched {
    Resume(Dequeue(s), Picked(s))
  }

  /** scheduler_tick */
  function Tick(s: Sched, now: nat): Sched {
    var s1 := Account(Reap(Wake(s, now)));
    if TaskAt(s1.table, s1.cur).slice == 0 then Switch(s1) else s1
  }

  /** scheduler_add_task */
  function Enqueue(s: Sched, p: nat): Sched {
    s.(table := Upd(s.table, p, TaskAt(s.table, p).(state := READY)), ready := s.ready + [p])
  }

  /** task_unblock */
  function Unblock(s: Sched, p: nat): Sched {
    if TaskAt(s.table, p).state != BLOCKED then s else Enqueue(s, p)
  }

  /** task_destroy */
  function Destroy(s: Sched, p: nat): Sched {
    if p == s.cur || p >= |s.table| then s
    else
      var t := s.table[p := None];
      s.(table := t, size := CountSome(t), ready := Remove(s.ready, p), sleep := Remove(s.sleep, p))
  }

  /** The first empty slot of the table, or its length. */
  function FreeSlot(t: Table): (i: nat)
    ensures i <= |t|
    ensures forall j :: 0 <= j < i ==> t[j].Some?
    ensures i < |t| ==> t[i].None?
  {
    if t == [] || t[0].None? then 0 else 1 + FreeSlot(t[1..])
  }

  /** The table after task_find_free_slot: doubled when it is full and memory allows. */
  function Grow(t: Table, mem: bool): Table {
    if FreeSlot(t) == |t| && mem then t + seq(|t|, _ => None) else t
  }

  /** task_create; `tableMem` and `taskMem` say whether the allocations for a larger table and for the task succeed. */
  function Create(s: Sched, tableMem: bool, taskMem: bool): (Sched, Option<nat>) {
    var p := FreeSlot(s.table);
    var t := Grow(s.table, tableMem);
    if p >= |t| || !taskMem then (s.(table := t), None)
    else
      var t' := t[p := Some(Task(p, READY, TIME_SLICE, 0, 0))];
      (s.(table := t', size := CountSome(t')), Some(p))
  }

  // ---------------------------------------------------------------- runs

  datatype Op =
    | TickOp(now: nat)
    | YieldOp(now: nat)
    | BlockOp(now: nat)
    | SleepOp(ticks: nat, now: nat)
    | ExitOp(now: nat)
    | CreateOp(tableMem: bool, taskMem: bool)
    | AddOp(p: nat)
    | UnblockOp(p: nat)
    | DestroyOp(p: nat)

  /** The operations that run scheduler_tick. task_sleep returns at once for zero ticks and for the idle task; task_exit
      of the idle task only halts until the next interrupt, over and over, as the idle task does anyway. */
  predicate Ticks(s: Sched, op: Op) {
    || op.TickOp? || op.YieldOp? || op.BlockOp?
    || (op.ExitOp? && s.cur != s.idle)
    || (op.SleepOp? && op.ticks != 0 && s.cur != s.idle)
  }

  /** The time of a ticking operation. */
  function TimeOf(op: Op): nat
    requires op.TickOp? || op.YieldOp? || op.BlockOp? || op.ExitOp? || op.SleepOp?
  {
    op.now
  }

  /** The current task's record when task_yield, task_block, task_exit or task_sleep calls scheduler_tick. */
  function Departing(k: Task, op: Op): Task {
    match op
    case YieldOp(_) => k.(slice := 0)
    case BlockOp(_) => k.(state := BLOCKED, slice := 0)
    case ExitOp(_) => k.(state := TERMINATED, slice := 0)
    case SleepOp(ticks, now) => k.(state := SLEEPING, slice := 0, wake := (now + ticks) % WORD)
    case _ => k
  }

  /** The state with the current task's record replaced, and that task on the sleep queue if it sleeps. */
  function Leaving(s: Sched, k: Task): Sched {
    s.(table := Upd(s.table, s.cur, k), sleep := if k.state == SLEEPING then [s.cur] + s.sleep else s.sleep)
  }

  /** The state in which a ticking operation calls scheduler_tick; task_exit first takes the task out of the ready
      queue, where it never is. */
  function Entry(s: Sched, op: Op): Sched {
    if op.TickOp? then s
    else Leaving(if op.ExitOp? then s.(ready := Remove(s.ready, s.cur)) else s, Departing(TaskAt(s.table, s.cur), op))
  }

  function Step(s: Sched, op: Op): Sched {
    if Ticks(s, op) then Tick(Entry(s, op), TimeOf(op))
    else match op
      case CreateOp(m1, m2) => Create(s, m1, m2).0
      case AddOp(p) => Enqueue(s, p)
      case UnblockOp(p) => Unblock(s, p)
      case DestroyOp(p) => Destroy(s, p)
      case _ => s
  }

  /** Pointers are to live tasks. */
  predicate Callable(s: Sched, op: Op) {
    op.AddOp? || op.UnblockOp? || op.DestroyOp? ==> Live(s.table, op.p)
  }

  /** What callers must keep to, and the code does not test: the idle task does not block and is not destroyed while it
      is queued, and scheduler_add_task is for tasks that are neither current nor queued. */
  predicate Legal(s: Sched, op: Op) {
    && Callable(s, op)
    && match op
       case BlockOp(_) => s.cur != s.idle
       case AddOp(p) => p != s.cur && p !in s.ready && p !in s.sleep
       case DestroyOp(p) => p != s.idle || p == s.cur
       case _ => true
  }

  function Run(s: Sched, ops: seq<Op>): Sched
    decreases |ops|
  {
    if ops == [] then s else Run(Step(s, ops[0]), ops[1..])
  }

  ghost predicate LegalRun(s: Sched, ops: seq<Op>)
    decreases |ops|
  {
    ops == [] || (Legal(s, ops[0]) && LegalRun(Step(s, ops[0]), ops[1..]))
  }

  /** The state after task_init and scheduler_init: eight slots, the idle task running in slot 0. */
  function Boot(): Sched {
    Sched([Some(Task(0, RUNNING, TIME_SLICE, 0, 0)), None, None, None, None, None, None, None], 1, 0, 0, [], [], 0)
  }
}
