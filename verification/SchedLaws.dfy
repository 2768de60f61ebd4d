/** What each scheduler call and tick does to the caller, to the tasks it names and to all others. */
module SchedLaws {
  import opened Machine
  import opened Wrappers
  import opened Links
  import opened SchedSpec
  import opened SchedProofs

  // ---------------------------------------------------------------- waking keeps the order of the sleep queue

  lemma {:induction false} ExpiredConcat(t: Table, a: seq<nat>, b: seq<nat>, now: nat)
    ensures Expired(t, a + b, now) == Expired(t, a, now) + Expired(t, b, now)
    ensures Pending(t, a + b, now) == Pending(t, a, now) + Pending(t, b, now)
    decreases |b|
  {
    if b == [] {
      assert a + b == a;
    } else {
      var c := b[..|b| - 1];
      assert (a + b)[..|a + b| - 1] == a + c;
      ExpiredConcat(t, a, c, now);
    }
  }

  /** The due sleepers join the ready queue, and the others stay asleep, in the order of the sleep queue. */
  lemma WakeInOrder(t: Table, a: seq<nat>, p: nat, b: seq<nat>, now: nat)
    ensures Expired(t, a + [p] + b, now) ==
            Expired(t, a, now) + (if TaskAt(t, p).wake <= now then [p] else []) + Expired(t, b, now)
    ensures Pending(t, a + [p] + b, now) ==
            Pending(t, a, now) + (if TaskAt(t, p).wake <= now then [] else [p]) + Pending(t, b, now)
  {
    ExpiredConcat(t, a + [p], b, now);
    ExpiredConcat(t, a, [p], now);
    assert [p][..0] == [];
  }

  // ---------------------------------------------------------------- a tick

  /** The record of task p after a tick has woken the sleepers. */
  function Woken(s: Sched, now: nat, p: nat): Task {
    if p in s.sleep && TaskAt(s.table, p).wake <= now && Live(s.table, p)
    then TaskAt(s.table, p).(state := READY) else TaskAt(s.table, p)
  }

  /** The ready queue after a tick has woken the sleepers. */
  function Queue(s: Sched, now: nat): seq<nat> {
    s.ready + Expired(s.table, s.sleep, now)
  }

  /** The state of a tick before it decides whether to switch. */
  ghost predicate Accounted(s: Sched, now: nat, s': Sched) {
    && s'.cur == s.cur && s'.idle == s.idle && s'.ready == Queue(s, now)
    && s'.sleep == Pending(s.table, s.sleep, now)
    && (forall p: nat :: Live(s'.table, p) <==> Live(s.table, p) && !Reaped(s, p))
    && (forall p: nat :: Live(s'.table, p) && p != s.cur ==> TaskAt(s'.table, p) == Woken(s, now, p))
    && var k := Woken(s, now, s.cur);
       TaskAt(s'.table, s.cur) == k.(slice := if k.slice > 0 then k.slice - 1 else 0, runtime := k.runtime + 1)
  }

  lemma TickAccounts(s: Sched, now: nat)
    requires Entering(s)
    ensures Accounted(s, now, Account(Reap(Wake(s, now)))) && Ticking(Account(Reap(Wake(s, now))))
  {
    WakeKeeps(s, now);
    ReapKeeps(Wake(s, now));
    AccountKeeps(Reap(Wake(s, now)));
    TickRecords(s, now);
  }

  lemma TickRecords(s: Sched, now: nat)
    requires Entering(s) && Ticking(Wake(s, now)) && Ticking(Reap(Wake(s, now)))
    ensures Accounted(s, now, Account(Reap(Wake(s, now))))
  {
    WakeRecords(s, now);
    WokenNotReaped(s, now);
    ReapRecords(Wake(s, now));
    AccountRecords(Reap(Wake(s, now)));
    RecordsCompose(s, now, Wake(s, now), Reap(Wake(s, now)), Account(Reap(Wake(s, now))));
  }

  lemma RecordsCompose(s: Sched, now: nat, s1: Sched, s2: Sched, s3: Sched)
    requires s1.cur == s2.cur == s3.cur == s.cur && s1.idle == s2.idle == s3.idle == s.idle
    requires s1.ready == s2.ready == s3.ready == Queue(s, now)
    requires s1.sleep == s2.sleep == s3.sleep == Pending(s.table, s.sleep, now)
    requires forall p: nat :: Live(s1.table, p) <==> Live(s.table, p)
    requires forall p: nat :: TaskAt(s1.table, p) == Woken(s, now, p)
    requires forall p: nat :: Live(s2.table, p) <==> Live(s1.table, p) && !Reaped(s, p)
    requires forall p: nat :: Live(s2.table, p) ==> TaskAt(s2.table, p) == TaskAt(s1.table, p)
    requires forall p: nat :: Live(s3.table, p) <==> Live(s2.table, p)
    requires forall p: nat :: p != s.cur ==> TaskAt(s3.table, p) == TaskAt(s2.table, p)
    requires Live(s2.table, s.cur)
    requires var k := TaskAt(s2.table, s.cur);
             TaskAt(s3.table, s.cur) ==
             k.(slice := if k.slice > 0 then k.slice - 1 else 0, runtime := k.runtime + 1)
    ensures Accounted(s, now, s3)
  {
  }

  lemma AccountRecords(s: Sched)
    requires Live(s.table, s.cur)
    ensures forall p: nat :: Live(Account(s).table, p) <==> Live(s.table, p)
    ensures forall p: nat :: p != s.cur ==> TaskAt(Account(s).table, p) == TaskAt(s.table, p)
    ensures var k := TaskAt(s.table, s.cur);
            TaskAt(Account(s).table, s.cur) ==
            k.(slice := if k.slice > 0 then k.slice - 1 else 0, runtime := k.runtime + 1)
  {
    var k := TaskAt(s.table, s.cur);
    UpdFacts(s.table, s.cur, k.(slice := if k.slice > 0 then k.slice - 1 else 0, runtime := k.runtime + 1));
  }

  lemma WokenNotReaped(s: Sched, now: nat)
    requires Entering(s)
    ensures forall p: nat :: Reaped(Wake(s, now), p) <==> Reaped(s, p)
  {
    WakeRecords(s, now);
  }

  /** A timer tick within the slice: the task keeps the processor, has one tick less left and one more behind it, and no
      other record changes but those of woken tasks, which become ready, and of reaped ones, which are gone. */
  lemma TickInSlice(s: Sched, now: nat)
    requires Inv(s) && TaskAt(s.table, s.cur).slice > 1
    ensures var s', k := Step(s, TickOp(now)), TaskAt(s.table, s.cur);
            && s'.cur == s.cur && Live(s'.table, s.cur)
            && TaskAt(s'.table, s.cur) == k.(slice := k.slice - 1, runtime := k.runtime + 1)
            && s'.ready == Queue(s, now) && s'.sleep == Pending(s.table, s.sleep, now)
            && (forall p: nat :: Live(s'.table, p) <==> Live(s.table, p) && !Reaped(s, p))
            && (forall p: nat :: Live(s'.table, p) && p != s.cur ==> TaskAt(s'.table, p) == Woken(s, now, p))
  {
    TickAccounts(s, now);
  }

  /** The tick that uses up the slice: the head of the queue runs next with a full slice, and the outgoing task goes to
      the tail; with nothing ready the idle task goes on. */
  lemma TickEndsSlice(s: Sched, now: nat)
    requires Inv(s) && TaskAt(s.table, s.cur).slice == 1
    ensures var s', k, q := Step(s, TickOp(now)), TaskAt(s.table, s.cur), Queue(s, now);
            && (q == [] ==> s'.cur == s.cur == s.idle && TaskAt(s'.table, s.cur).slice == TIME_SLICE)
            && (q != [] ==>
                  && s'.cur == q[0] && s'.ready == q[1..] + [s.cur]
                  && TaskAt(s'.table, s'.cur).state == RUNNING && TaskAt(s'.table, s'.cur).slice == TIME_SLICE
                  && TaskAt(s'.table, s.cur) == k.(state := READY, slice := TIME_SLICE, runtime := k.runtime + 1))
  {
    TickAccounts(s, now);
    var s3 := Account(Reap(Wake(s, now)));
    SwitchKeeps(s3);
    if s3.ready == [] {
      UpdFacts(s3.table, s3.cur, TaskAt(s3.table, s3.cur).(slice := TIME_SLICE));
    } else {
      SwitchAway(s3);
    }
  }

  // ---------------------------------------------------------------- the caller of a call

  /** A tick with the slice used up and a task ready: the head of the queue runs with a full slice, and the outgoing
      task goes to the tail if it was running and is left as it is otherwise. */
  lemma TickAway(s: Sched, now: nat)
    requires Entering(s) && TaskAt(s.table, s.cur).slice == 0 && s.ready != []
    ensures var s', k := Tick(s, now), Woken(s, now, s.cur);
            && s'.cur == s.ready[0] != s.cur
            && TaskAt(s'.table, s'.cur).state == RUNNING && TaskAt(s'.table, s'.cur).slice == TIME_SLICE
            && s'.ready == Queue(s, now)[1..] + (if k.state == RUNNING then [s.cur] else [])
            && TaskAt(s'.table, s.cur) ==
               (if k.state == RUNNING then k.(state := READY, slice := TIME_SLICE, runtime := k.runtime + 1)
                else k.(runtime := k.runtime + 1))
  {
    TickAccounts(s, now);
    SwitchAway(Account(Reap(Wake(s, now))));
  }

  /** The state in which a call enters the tick. */
  lemma CallEnters(s: Sched, op: Op)
    requires Inv(s) && Ticks(s, op) && !op.TickOp? && s.cur != s.idle
    ensures Entering(Entry(s, op)) && Entry(s, op).cur == s.cur && Entry(s, op).ready == s.ready != []
    ensures TaskAt(Entry(s, op).table, s.cur) == Departing(TaskAt(s.table, s.cur), op)
    ensures Entry(s, op).sleep == if op.SleepOp? then [s.cur] + s.sleep else s.sleep
    ensures s.cur !in s.sleep && s.cur !in s.ready
  {
    EntryEntering(s, op);
    EntryIsLeaving(s, op);
    UpdFacts(s.table, s.cur, Departing(TaskAt(s.table, s.cur), op));
  }

  /** Who runs after task_yield, task_block, task_exit or task_sleep, and what the caller has become. */
  lemma CallerAfter(s: Sched, op: Op, s': Sched)
    requires Inv(s) && Ticks(s, op) && !op.TickOp? && s.cur != s.idle && s' == Step(s, op)
    ensures s.ready != [] && s'.cur == s.ready[0] != s.cur
    ensures TaskAt(s'.table, s'.cur).state == RUNNING && TaskAt(s'.table, s'.cur).slice == TIME_SLICE
    ensures op.YieldOp? ==> TaskAt(s'.table, s.cur).state == READY && TaskAt(s'.table, s.cur).slice == TIME_SLICE
    ensures op.YieldOp? ==> s'.ready != [] && s'.ready[|s'.ready| - 1] == s.cur
    ensures op.BlockOp? ==> TaskAt(s'.table, s.cur).state == BLOCKED
    ensures op.ExitOp? ==> TaskAt(s'.table, s.cur).state == TERMINATED
    ensures op.SleepOp? && (op.now + op.ticks) % WORD > op.now ==> TaskAt(s'.table, s.cur).state == SLEEPING
    ensures op.SleepOp? ==> TaskAt(s'.table, s.cur).wake == (op.now + op.ticks) % WORD
    ensures TaskAt(s'.table, s.cur).runtime == TaskAt(s.table, s.cur).runtime + 1
  {
    CallEnters(s, op);
    TickAway(Entry(s, op), TimeOf(op));
  }

  // ---------------------------------------------------------------- the other calls

  /** Adding a task: it is ready, at the tail of the queue; nothing else changes. */
  lemma AddedIsReady(s: Sched, p: nat)
    requires Inv(s) && Legal(s, AddOp(p))
    ensures var s' := Step(s, AddOp(p));
            && s'.ready == s.ready + [p] && s'.sleep == s.sleep && s'.cur == s.cur
            && TaskAt(s'.table, p) == TaskAt(s.table, p).(state := READY)
            && (forall q: nat :: Live(s'.table, q) <==> Live(s.table, q))
            && (forall q: nat :: q != p ==> TaskAt(s'.table, q) == TaskAt(s.table, q))
  {
    UpdFacts(s.table, p, TaskAt(s.table, p).(state := READY));
  }

  /** Unblocking a blocked task makes it ready, at the tail of the queue; any other task is left alone. */
  lemma UnblockedIsReady(s: Sched, p: nat)
    requires Inv(s) && Live(s.table, p)
    ensures var s' := Step(s, UnblockOp(p));
            if TaskAt(s.table, p).state == BLOCKED
            then s' == Step(s, AddOp(p)) && p in s'.ready && TaskAt(s'.table, p).state == READY
            else s' == s
  {
    UpdFacts(s.table, p, TaskAt(s.table, p).(state := READY));
  }

  /** A destroyed task is gone from the table and the queues, which keep the order of the others; the current task is
      refused. */
  lemma DestroyedIsGone(s: Sched, p: nat)
    requires Inv(s) && Live(s.table, p)
    ensures var s' := Step(s, DestroyOp(p));
            && s'.cur == s.cur && (p == s.cur ==> s' == s)
            && (p != s.cur ==> !Live(s'.table, p) && p !in s'.ready && p !in s'.sleep)
            && (forall q: nat :: q != p ==> (Live(s'.table, q) <==> Live(s.table, q)))
            && (forall q: nat :: q != p ==> TaskAt(s'.table, q) == TaskAt(s.table, q))
            && (p != s.cur ==> s'.ready == Without(s.ready, p) && s'.sleep == Without(s.sleep, p))
  {
    RemoveMembers(s.ready, p);
    RemoveMembers(s.sleep, p);
    WithoutIsRemove(s.ready, p);
    WithoutIsRemove(s.sleep, p);
  }

  /** The elements of q other than p, in order. */
  function Without(q: seq<nat>, p: nat): seq<nat> {
    if q == [] then [] else (if q[0] == p then [] else [q[0]]) + Without(q[1..], p)
  }

  lemma {:induction false} WithoutIsRemove(q: seq<nat>, p: nat)
    requires NoDup(q)
    ensures Remove(q, p) == Without(q, p)
  {
    if q != [] {
      NoDupTail(q);
      WithoutIsRemove(q[1..], p);
      if q[0] == p {
        RemoveAbsent(q[1..], p);
      }
    }
  }

  /** task_create succeeds exactly when there is memory for the task and a free slot, or memory for a table twice as
      large; the new task has a full slice and has not run. */
  lemma CreateSucceeds(s: Sched, tableMem: bool, taskMem: bool)
    requires Inv(s)
    ensures var (s', r) := Create(s, tableMem, taskMem);
            && (r.Some? <==> taskMem && (tableMem || exists p: nat :: p < |s.table| && !Live(s.table, p)))
            && (r.Some? ==> TaskAt(s'.table, r.value) == Task(r.value, READY, TIME_SLICE, 0, 0))
            && |s'.table| == (if tableMem && (forall p: nat :: p < |s.table| ==> Live(s.table, p)) then 2 * |s.table|
                              else |s.table|)
  {
    var p := FreeSlot(s.table);
    if p < |s.table| {
      assert !Live(s.table, p);
    }
  }

  /** The scheduler starts with eight slots and the idle task in slot 0. */
  lemma BootState()
    ensures var s := Boot();
            && |s.table| == 8 && s.cur == s.idle == 0 && s.ready == [] && s.sleep == []
            && (forall p: nat :: Live(s.table, p) <==> p == 0)
            && TaskAt(s.table, 0).state == RUNNING && TaskAt(s.table, 0).slice == TIME_SLICE
  {
  }

  // ---------------------------------------------------------------- a slice is kept

  /** Not a call by the current task. */
  predicate Quiet(op: Op) {
    !op.YieldOp? && !op.BlockOp? && !op.ExitOp? && !op.SleepOp?
  }

  /** The number of timer ticks in a run. */
  function TimerTicks(ops: seq<Op>): nat {
    if ops == [] then 0 else (if ops[0].TickOp? then 1 else 0) + TimerTicks(ops[1..])
  }

  /** Calls that the current task does not make leave its record alone. */
  lemma QuietStep(s: Sched, op: Op)
    requires Inv(s) && Legal(s, op) && Quiet(op) && !op.TickOp?
    ensures Step(s, op).cur == s.cur && TaskAt(Step(s, op).table, s.cur) == TaskAt(s.table, s.cur)
  {
    match op
    case CreateOp(m1, m2) => CreateKeeps(s, m1, m2);
    case AddOp(p) => AddedIsReady(s, p);
    case UnblockOp(p) =>
      if TaskAt(s.table, p).state == BLOCKED {
        UpdFacts(s.table, p, TaskAt(s.table, p).(state := READY));
      }
    case DestroyOp(p) => DestroyedIsGone(s, p);
  }

  /** Over every run in which the current task makes no call and that has fewer timer ticks than its slice, it keeps the
      processor; each tick is charged to it, one by one. */
  lemma {:induction false} KeepsProcessor(s: Sched, ops: seq<Op>)
    requires Inv(s) && LegalRun(s, ops) && (forall i :: 0 <= i < |ops| ==> Quiet(ops[i]))
    requires TimerTicks(ops) < TaskAt(s.table, s.cur).slice
    ensures var s', k := Run(s, ops), TaskAt(s.table, s.cur);
            && s'.cur == s.cur && TaskAt(s'.table, s.cur).slice == k.slice - TimerTicks(ops)
            && TaskAt(s'.table, s.cur).runtime == k.runtime + TimerTicks(ops)
    decreases |ops|
  {
    if ops != [] {
      StepKeepsIff(s, ops[0]);
      if ops[0].TickOp? {
        TickInSlice(s, ops[0].now);
      } else {
        QuietStep(s, ops[0]);
      }
      KeepsProcessor(Step(s, ops[0]), ops[1..]);
    }
  }

  /** A task that a tick has switched to stays current through nine timer ticks if it makes no call, and the tenth takes
      the processor away exactly when another task is ready. */
  lemma FullSlice(s: Sched, op: Op, ops: seq<Op>, now: nat)
    requires Inv(s) && Legal(s, op) && Step(s, op).cur != s.cur
    requires LegalRun(Step(s, op), ops) && (forall i :: 0 <= i < |ops| ==> Quiet(ops[i])) && TimerTicks(ops) == 9
    ensures var s1 := Step(s, op);
            var s2 := Run(s1, ops);
            && s2.cur == s1.cur && TaskAt(s2.table, s2.cur).slice == 1
            && (Queue(s2, now) == [] ==> Step(s2, TickOp(now)).cur == s2.cur)
            && (Queue(s2, now) != [] ==> Step(s2, TickOp(now)).cur == Queue(s2, now)[0])
  {
    StepKeepsIff(s, op);
    NewSlice(s, op);
    KeepsProcessor(Step(s, op), ops);
    RunKeeps(Step(s, op), ops);
    TickEndsSlice(Run(Step(s, op), ops), now);
  }

  /** Whoever a step switches to has a full slice. */
  lemma NewSlice(s: Sched, op: Op)
    requires Inv(s) && Legal(s, op) && Step(s, op).cur != s.cur
    ensures TaskAt(Step(s, op).table, Step(s, op).cur).slice == TIME_SLICE
  {
    if Ticks(s, op) {
      EntryEntering(s, op);
      TickNewSlice(Entry(s, op), TimeOf(op));
    }
  }

  lemma TickNewSlice(s: Sched, now: nat)
    requires Entering(s)
    ensures Tick(s, now).cur != s.cur ==> TaskAt(Tick(s, now).table, Tick(s, now).cur).slice == TIME_SLICE
  {
    TickAccounts(s, now);
    var s3 := Account(Reap(Wake(s, now)));
    if s3.ready != [] {
      SwitchAway(s3);
    }
  }
}
