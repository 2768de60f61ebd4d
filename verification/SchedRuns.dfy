/** Liveness-style results about whole scheduler runs: bounded waiting, sleeping and reaping. */
module SchedRuns {
  import opened Machine
  import opened Wrappers
  import opened Links
  import opened SchedSpec
  import opened SchedProofs

  /** The number of scheduler ticks in a run. */
  ghost function TickCount(s: Sched, ops: seq<Op>): nat
    decreases |ops|
  {
    if ops == [] then 0 else (if Ticks(s, ops[0]) then 1 else 0) + TickCount(Step(s, ops[0]), ops[1..])
  }

  lemma RunPrefix(s: Sched, ops: seq<Op>, k: nat)
    requires ops != [] && k <= |ops| - 1
    ensures Run(s, ops[..k + 1]) == Run(Step(s, ops[0]), ops[1..][..k])
  {
    assert ops[..k + 1][0] == ops[0];
    assert ops[..k + 1][1..] == ops[1..][..k];
  }

  // ---------------------------------------------------------------- positions in the ready queue

  function Pos(q: seq<nat>, p: nat): nat {
    if q == [] || q[0] == p then 0 else 1 + Pos(q[1..], p)
  }

  lemma {:induction false} PosAppend(q: seq<nat>, r: seq<nat>, p: nat)
    requires p in q
    ensures Pos(q + r, p) == Pos(q, p) && p in q + r
  {
    if q[0] != p {
      PosAppend(q[1..], r, p);
      assert (q + r)[1..] == q[1..] + r;
    }
  }

  lemma {:induction false} PosRemove(q: seq<nat>, x: nat, p: nat)
    requires p in q && p != x
    ensures p in Remove(q, x) && Pos(Remove(q, x), p) <= Pos(q, p)
  {
    if q[0] == x {
      assert Remove(q, x) == q[1..];
    } else if q[0] != p {
      PosRemove(q[1..], x, p);
      assert Remove(q, x)[1..] == Remove(q[1..], x);
    }
  }

  // ---------------------------------------------------------------- bounded waiting

  /** Ten ticks for each task ahead in the queue, plus what is left of the current slice. */
  ghost function Wait(s: Sched, p: nat): nat {
    TIME_SLICE * Pos(s.ready, p) + TaskAt(s.table, s.cur).slice
  }

  /** p runs, or still waits with a measure that has not grown and, after a tick, has shrunk. */
  ghost predicate Progress(s: Sched, s': Sched, p: nat, ticked: bool) {
    s'.cur == p || (p in s'.ready && Wait(s', p) <= Wait(s, p) && (ticked ==> Wait(s', p) < Wait(s, p)))
  }

  lemma SwitchProgress(s: Sched, p: nat)
    requires Ticking(s) && p in s.ready
    ensures Switch(s).cur == p ||
            (p in Switch(s).ready && Wait(Switch(s), p) <= TIME_SLICE * Pos(s.ready, p))
  {
    SwitchKeeps(s);
    if s.ready[0] != p {
      PosAppend(s.ready[1..], [s.cur], p);
    }
  }

  /** A tick that starts with the given slice leaves p running or the measure below ten per task ahead plus it. */
  lemma TickProgress(s: Sched, now: nat, p: nat)
    requires Entering(s) && p in s.ready
    ensures var s' := Tick(s, now);
            s'.cur == p || (p in s'.ready &&
              (if TaskAt(s.table, s.cur).slice <= 1 then Wait(s', p) <= TIME_SLICE * Pos(s.ready, p)
               else Wait(s', p) < Wait(s, p)))
  {
    WakeKeeps(s, now);
    var s1 := Wake(s, now);
    ExpiredFacts(s.table, s.sleep, now);
    PosAppend(s.ready, Expired(s.table, s.sleep, now), p);
    ReapKeeps(s1);
    var s2 := Reap(s1);
    AccountKeeps(s2);
    var s3 := Account(s2);
    assert TaskAt(s2.table, s.cur).slice == TaskAt(s.table, s.cur).slice;
    if TaskAt(s3.table, s3.cur).slice == 0 {
      SwitchProgress(s3, p);
    }
  }

  /** Before its tick, a ticking operation changes the current task's record and no other, and only task_sleep adds to
      a queue. */
  lemma EntryFacts(s: Sched, op: Op)
    requires Inv(s) && Ticks(s, op)
    ensures Entry(s, op).reap == s.reap && Entry(s, op).cur == s.cur && Entry(s, op).ready == s.ready
    ensures Entry(s, op).sleep == (if op.SleepOp? then [s.cur] + s.sleep else s.sleep)
    ensures forall p: nat :: p != s.cur ==> TaskAt(Entry(s, op).table, p) == TaskAt(s.table, p)
    ensures forall p: nat :: Live(Entry(s, op).table, p) <==> Live(s.table, p)
    ensures if op.TickOp? then Entry(s, op) == s else TaskAt(Entry(s, op).table, s.cur).slice == 0
  {
    if !op.TickOp? {
      EntryIsLeaving(s, op);
      UpdFacts(s.table, s.cur, Departing(TaskAt(s.table, s.cur), op));
    }
  }

  lemma EnqueueProgress(s: Sched, q: nat, p: nat)
    requires Inv(s) && Live(s.table, q) && q != s.cur && p in s.ready
    ensures Progress(s, Enqueue(s, q), p, false)
  {
    UpdFacts(s.table, q, TaskAt(s.table, q).(state := READY));
    PosAppend(s.ready, [q], p);
  }

  /** Whatever the step is, short of destroying p. */
  lemma StepProgress(s: Sched, op: Op, p: nat)
    requires Inv(s) && Legal(s, op) && p in s.ready && op != DestroyOp(p)
    ensures Progress(s, Step(s, op), p, Ticks(s, op))
  {
    if Ticks(s, op) {
      EntryEntering(s, op);
      EntryFacts(s, op);
      TickProgress(Entry(s, op), TimeOf(op), p);
    } else {
      match op
      case CreateOp(m1, m2) => CreateKeeps(s, m1, m2);
      case AddOp(q) => EnqueueProgress(s, q, p);
      case UnblockOp(q) =>
        if TaskAt(s.table, q).state == BLOCKED {
          EnqueueProgress(s, q, p);
        }
      case DestroyOp(q) => PosRemove(s.ready, q, p);
      case _ =>
    }
  }

  /** One step of the wait: the invariant is kept, and p runs or its measure pays for the tick. */
  lemma WaitStep(s: Sched, op: Op, p: nat)
    requires Inv(s) && Legal(s, op) && p in s.ready && op != DestroyOp(p)
    ensures Inv(Step(s, op))
    ensures Step(s, op).cur == p ||
            (p in Step(s, op).ready && Wait(Step(s, op), p) + (if Ticks(s, op) then 1 else 0) <= Wait(s, p))
  {
    StepKeepsIff(s, op);
    StepProgress(s, op, p);
  }

  /** Round robin is fair: a task at position k of the ready queue runs within 10 * (k + 1) scheduler ticks, whatever
      the other tasks do, unless it is destroyed. */
  lemma {:induction false} BoundedWait(s: Sched, ops: seq<Op>, p: nat) returns (k: nat)
    requires Inv(s) && LegalRun(s, ops) && p in s.ready
    requires forall i :: 0 <= i < |ops| ==> ops[i] != DestroyOp(p)
    requires TickCount(s, ops) >= Wait(s, p)
    ensures Wait(s, p) <= 10 * (Pos(s.ready, p) + 1)
    ensures k <= |ops| && Run(s, ops[..k]).cur == p
    decreases |ops|
  {
    var s' := Step(s, ops[0]);
    WaitStep(s, ops[0], p);
    if s'.cur == p {
      k := 1;
      RunPrefix(s, ops, 0);
    } else {
      k := BoundedWait(s', ops[1..], p);
      RunPrefix(s, ops, k);
      k := k + 1;
    }
  }

  // ---------------------------------------------------------------- sleeping

  lemma {:induction false} ExpiredConserves(t: Table, q: seq<nat>, now: nat)
    ensures multiset(Expired(t, q, now)) + multiset(Pending(t, q, now)) == multiset(q)
  {
    if q != [] {
      ExpiredConserves(t, q[..|q| - 1], now);
      assert q == q[..|q| - 1] + [q[|q| - 1]];
    }
  }

  /** Waking loses and duplicates no task, and leaves no sleeper whose time has come. */
  lemma WakeConserves(s: Sched, now: nat)
    requires NoDup(s.sleep)
    ensures var s' := Wake(s, now);
            && multiset(s'.ready) + multiset(s'.sleep) == multiset(s.ready) + multiset(s.sleep)
            && s.ready <= s'.ready
            && forall p :: p in s'.sleep ==> TaskAt(s.table, p).wake > now
  {
    ExpiredFacts(s.table, s.sleep, now);
    ExpiredConserves(s.table, s.sleep, now);
  }

  lemma TickSleepers(s: Sched, now: nat)
    requires Entering(s)
    ensures var s' := Tick(s, now);
            && s'.sleep == Pending(s.table, s.sleep, now)
            && forall p :: p in s'.sleep ==> TaskAt(s'.table, p).wake == TaskAt(s.table, p).wake
  {
    WakeKeeps(s, now);
    ExpiredFacts(s.table, s.sleep, now);
    var s1 := Wake(s, now);
    ReapKeeps(s1);
    var s2 := Reap(s1);
    AccountKeeps(s2);
    var s3 := Account(s2);
    if TaskAt(s3.table, s3.cur).slice == 0 {
      SwitchSleepers(s3);
    }
  }

  /** Switching changes no sleep queue and no wake time. */
  lemma SwitchSleepers(s: Sched)
    requires Common(s)
    ensures Switch(s).sleep == s.sleep
    ensures forall p: nat :: TaskAt(Switch(s).table, p).wake == TaskAt(s.table, p).wake
  {
  }

  /** A sleeper leaves the sleep queue at a tick at or after its wake time, or by being destroyed, and in no other
      way; after every tick the wake times of all sleepers lie in the future. */
  lemma SleepIsExact(s: Sched, op: Op, p: nat)
    requires Inv(s) && Legal(s, op) && p in s.sleep
    ensures p !in Step(s, op).sleep <==>
              op == DestroyOp(p) || (Ticks(s, op) && TimeOf(op) >= TaskAt(s.table, p).wake)
    ensures p in Step(s, op).sleep ==> TaskAt(Step(s, op).table, p).wake == TaskAt(s.table, p).wake
  {
    if Ticks(s, op) {
      EntryEntering(s, op);
      EntryFacts(s, op);
      TickSleepers(Entry(s, op), TimeOf(op));
      ExpiredFacts(Entry(s, op).table, Entry(s, op).sleep, TimeOf(op));
    } else if op.DestroyOp? {
      DestroySleepers(s, op.p, p);
    } else if op.CreateOp? {
      CreateKeeps(s, op.tableMem, op.taskMem);
    }
  }

  lemma StepIsTick(s: Sched, op: Op)
    requires Ticks(s, op)
    ensures Step(s, op) == Tick(Entry(s, op), TimeOf(op))
  {
  }

  /** A task that goes to sleep is on the sleep queue afterwards if and only if its wake time lies in the future, that
      is, if and only if it has not wrapped around. */
  lemma SleepersSleep(s: Sched, ticks: nat, now: nat, wake: nat)
    requires Inv(s) && s.cur != s.idle && now < WORD && 0 < ticks < WORD && wake == (now + ticks) % WORD
    ensures s.cur in Step(s, SleepOp(ticks, now)).sleep <==> wake > now
    ensures wake > now <==> now + ticks < WORD
  {
    WakeLater(ticks, now, wake);
    SleeperStep(s, SleepOp(ticks, now), wake);
  }

  lemma SleeperStep(s: Sched, op: Op, wake: nat)
    requires Inv(s) && op.SleepOp? && Ticks(s, op) && wake == (op.now + op.ticks) % WORD
    ensures s.cur in Step(s, op).sleep <==> wake > op.now
  {
    StepIsTick(s, op);
    SleeperTick(s, op, Step(s, op), wake);
  }

  lemma SleeperTick(s: Sched, op: Op, s': Sched, wake: nat)
    requires Inv(s) && op.SleepOp? && Ticks(s, op) && s' == Tick(Entry(s, op), TimeOf(op))
    requires wake == (op.now + op.ticks) % WORD
    ensures s.cur in s'.sleep <==> wake > op.now
  {
    SleeperRecorded(s, op);
    SleeperStays(s, op, Entry(s, op));
  }

  lemma SleeperStays(s: Sched, op: Op, e: Sched)
    requires Inv(s) && op.SleepOp? && Ticks(s, op) && e == Entry(s, op) && s.cur in e.sleep
    ensures s.cur in Tick(e, op.now).sleep <==> TaskAt(e.table, s.cur).wake > op.now
  {
    EntryEntering(s, op);
    TickSleeper(e, op.now, s.cur);
  }

  lemma TickSleeper(s: Sched, now: nat, p: nat)
    requires Entering(s) && p in s.sleep
    ensures p in Tick(s, now).sleep <==> TaskAt(s.table, p).wake > now
  {
    TickSleepers(s, now);
    ExpiredFacts(s.table, s.sleep, now);
  }

  lemma SleeperRecorded(s: Sched, op: Op)
    requires Inv(s) && Ticks(s, op) && op.SleepOp?
    ensures s.cur in Entry(s, op).sleep && TaskAt(Entry(s, op).table, s.cur).wake == (op.now + op.ticks) % WORD
  {
    EntryIsLeaving(s, op);
    UpdFacts(s.table, s.cur, Departing(TaskAt(s.table, s.cur), op));
  }

  lemma WakeLater(ticks: nat, now: nat, wake: nat)
    requires now < WORD && 0 < ticks < WORD && wake == (now + ticks) % WORD
    ensures wake > now <==> now + ticks < WORD
  {
    if now + ticks >= WORD {
      assert wake == now + ticks - WORD;
    }
  }

  lemma DestroySleepers(s: Sched, q: nat, p: nat)
    requires Inv(s) && p in s.sleep
    ensures p !in Destroy(s, q).sleep <==> p == q
    ensures p != q ==> TaskAt(Destroy(s, q).table, p) == TaskAt(s.table, p)
  {
    if q in s.sleep {
      RemoveFacts(s.sleep, q);
    } else {
      RemoveAbsent(s.sleep, q);
    }
  }

  lemma NoOverdueSleeper(s: Sched, op: Op)
    requires Inv(s) && Legal(s, op) && Ticks(s, op)
    ensures forall p :: p in Step(s, op).sleep ==> TaskAt(Step(s, op).table, p).wake > TimeOf(op)
  {
    EntryEntering(s, op);
    EntryFacts(s, op);
    TickSleepers(Entry(s, op), TimeOf(op));
    ExpiredFacts(Entry(s, op).table, Entry(s, op).sleep, TimeOf(op));
  }

  // ---------------------------------------------------------------- reaping

  predicate Terminated(s: Sched, p: nat) {
    Live(s.table, p) && TaskAt(s.table, p).state == TERMINATED
  }

  lemma TickReaps(s: Sched, now: nat, p: nat)
    requires Entering(s) && Terminated(s, p) && p != s.cur
    ensures var s' := Tick(s, now);
            if s.reap + 1 >= REAP_PERIOD then !Live(s'.table, p) else Terminated(s', p) && s'.reap == s.reap + 1
  {
    WakeKeeps(s, now);
    ExpiredFacts(s.table, s.sleep, now);
    var s1 := Wake(s, now);
    ReapKeeps(s1);
    var s2 := Reap(s1);
    AccountKeeps(s2);
    var s3 := Account(s2);
    assert Live(s3.table, p) <==> s.reap + 1 < REAP_PERIOD;
    if TaskAt(s3.table, s3.cur).slice == 0 {
      SwitchKeeps(s3);
      SwitchOthers(s3, p);
    }
  }

  lemma SwitchOthers(s: Sched, p: nat)
    requires Ticking(s) && p != s.cur && p !in s.ready
    ensures Live(Switch(s).table, p) <==> Live(s.table, p)
    ensures TaskAt(Switch(s).table, p) == TaskAt(s.table, p)
    ensures Switch(s).reap == s.reap
  {
  }

  /** An exited task is gone after the tick that completes the reap period, and by being destroyed, and in no other way
      short of being enqueued again; every other tick brings the reaper one closer. */
  lemma StepReaps(s: Sched, op: Op, p: nat)
    requires Inv(s) && Legal(s, op) && Terminated(s, p) && op != AddOp(p)
    ensures var s' := Step(s, op);
            && (!Live(s'.table, p) <==> op == DestroyOp(p) || (Ticks(s, op) && s.reap + 1 >= REAP_PERIOD))
            && (Live(s'.table, p) ==> Terminated(s', p) && s'.reap == s.reap + (if Ticks(s, op) then 1 else 0))
  {
    if Ticks(s, op) {
      EntryEntering(s, op);
      EntryFacts(s, op);
      TickReaps(Entry(s, op), TimeOf(op), p);
    } else if op.CreateOp? {
      CreateKeeps(s, op.tableMem, op.taskMem);
    } else if op.AddOp? || op.UnblockOp? {
      UpdFacts(s.table, op.p, TaskAt(s.table, op.p).(state := READY));
    }
  }

  /** Every terminated task is gone from the table within REAP_PERIOD scheduler ticks. */
  lemma {:induction false} ReapedInTime(s: Sched, ops: seq<Op>, p: nat) returns (k: nat)
    requires Inv(s) && LegalRun(s, ops) && Terminated(s, p)
    requires forall i :: 0 <= i < |ops| ==> ops[i] != AddOp(p)
    requires TickCount(s, ops) >= 100 - s.reap
    ensures k <= |ops| && !Live(Run(s, ops[..k]).table, p)
    decreases |ops|
  {
    var s' := Step(s, ops[0]);
    StepKeepsIff(s, ops[0]);
    StepReaps(s, ops[0], p);
    if !Live(s'.table, p) {
      k := 1;
      RunPrefix(s, ops, 0);
    } else {
      k := ReapedInTime(s', ops[1..], p);
      RunPrefix(s, ops, k);
      k := k + 1;
    }
  }
}
