/** What every scheduler step keeps, and what follows for whole runs. */
module SchedProofs {
  import opened Wrappers
  import opened Links
  import opened SchedSpec

  // ---------------------------------------------------------------- the invariant

  /** The task table: slot i holds the task with PID i, and the size field counts the occupied slots. */
  ghost predicate TableOk(s: Sched) {
    && (forall p: nat :: Live(s.table, p) ==> TaskAt(s.table, p).pid == p)
    && s.size == CountSome(s.table)
  }

  /** The queues hold, without repetition, live tasks of the matching state; sleeping tasks are all queued, and only
      the current task runs. */
  ghost predicate QueuesOk(s: Sched) {
    && NoDup(s.ready) && NoDup(s.sleep)
    && (forall p :: p in s.ready ==> Live(s.table, p) && TaskAt(s.table, p).state == READY)
    && (forall p :: p in s.sleep ==> Live(s.table, p) && TaskAt(s.table, p).state == SLEEPING)
    && (forall p: nat :: Live(s.table, p) && TaskAt(s.table, p).state == SLEEPING ==> p in s.sleep)
    && (forall p: nat :: Live(s.table, p) && TaskAt(s.table, p).state == RUNNING ==> p == s.cur)
  }

  ghost predicate Common(s: Sched) {
    && TableOk(s) && QueuesOk(s)
    && Live(s.table, s.cur) && Live(s.table, s.idle)
    && (s.idle == s.cur || s.idle in s.ready)
    && s.reap < REAP_PERIOD
  }

  /** Between steps. */
  ghost predicate Inv(s: Sched) {
    && Common(s)
    && TaskAt(s.table, s.cur).state == RUNNING
    && 1 <= TaskAt(s.table, s.cur).slice <= TIME_SLICE
  }

  /** While scheduler_tick runs: the current task may have left the running state, with its slice used up. It is ready
      only when it has just been woken, and then it is not the one that runs next. */
  ghost predicate Ticking(s: Sched) {
    && Common(s)
    && var k := TaskAt(s.table, s.cur);
       && k.slice <= TIME_SLICE
       && (k.state != RUNNING ==> k.slice == 0)
       && (k.state == READY ==> s.cur != s.idle && s.cur in s.ready && s.ready[0] != s.cur)
  }

  /** On entry to scheduler_tick. */
  ghost predicate Entering(s: Sched) {
    && Ticking(s)
    && TaskAt(s.table, s.cur).state != READY
    && (TaskAt(s.table, s.cur).state == SLEEPING ==> s.cur != s.idle)
  }

  /** The idle task is not what leaves the running state. */
  predicate IdleStays(s: Sched) {
    TaskAt(s.table, s.cur).state == RUNNING || s.cur != s.idle
  }

  /** Where a task is. */
  datatype Place = Current | ReadyQueue | SleepQueue | Nowhere

  ghost function PlaceOf(s: Sched, p: nat): Place {
    if p == s.cur then Current else if p in s.ready then ReadyQueue else if p in s.sleep then SleepQueue else Nowhere
  }

  /** Every live task is in exactly one place, and its state says which: a task outside the queues is blocked,
      terminated, or new and not yet enqueued. */
  lemma ExactlyOnePlace(s: Sched, p: nat)
    requires Inv(s) && Live(s.table, p)
    ensures p == s.cur ==> p !in s.ready && p !in s.sleep
    ensures p in s.ready ==> p !in s.sleep
    ensures match TaskAt(s.table, p).state
            case RUNNING => PlaceOf(s, p) == Current
            case READY => PlaceOf(s, p) == ReadyQueue || PlaceOf(s, p) == Nowhere
            case SLEEPING => PlaceOf(s, p) == SleepQueue
            case _ => PlaceOf(s, p) == Nowhere
  {
  }

  // ---------------------------------------------------------------- waking

  lemma {:induction false} ExpiredFacts(t: Table, q: seq<nat>, now: nat)
    requires NoDup(q)
    ensures NoDup(Expired(t, q, now)) && NoDup(Pending(t, q, now))
    ensures forall p :: p in Expired(t, q, now) <==> p in q && TaskAt(t, p).wake <= now
    ensures forall p :: p in Pending(t, q, now) <==> p in q && TaskAt(t, p).wake > now
    ensures |Expired(t, q, now)| + |Pending(t, q, now)| == |q|
  {
    if q != [] {
      var r := q[..|q| - 1];
      assert q == r + [q[|q| - 1]];
      ExpiredFacts(t, r, now);
      assert q[|q| - 1] !in r;
    }
  }

  lemma NoDupConcat(a: seq<nat>, b: seq<nat>)
    requires NoDup(a) && NoDup(b) && forall x :: x in a ==> x !in b
    ensures NoDup(a + b)
  {
    var c := a + b;
    forall i, j | 0 <= i < j < |c|
      ensures c[i] != c[j]
    {
      if i < |a| <= j {
        assert c[i] in a && c[j] in b;
      }
    }
  }

  lemma {:induction false} CountSame(t: Table, u: Table)
    requires |t| == |u| && forall i :: 0 <= i < |t| ==> t[i].Some? == u[i].Some?
    ensures CountSome(t) == CountSome(u)
  {
    if t != [] {
      CountSame(t[..|t| - 1], u[..|u| - 1]);
    }
  }

  lemma WakeRecords(s: Sched, now: nat)
    requires NoDup(s.sleep)
    ensures forall p: nat :: Live(Wake(s, now).table, p) <==> Live(s.table, p)
    ensures forall p: nat :: TaskAt(Wake(s, now).table, p) ==
              if p in s.sleep && TaskAt(s.table, p).wake <= now && Live(s.table, p)
              then TaskAt(s.table, p).(state := READY) else TaskAt(s.table, p)
    ensures CountSome(Wake(s, now).table) == CountSome(s.table)
  {
    ExpiredFacts(s.table, s.sleep, now);
    CountSame(s.table, Wake(s, now).table);
  }

  /** Waking keeps the queues right even when the current task, asleep since this call, is woken at once because its
      wake time has wrapped around. */
  lemma WakeKeeps(s: Sched, now: nat)
    requires Entering(s)
    ensures Ticking(Wake(s, now)) && (IdleStays(Wake(s, now)) <==> IdleStays(s))
    ensures forall p :: p in Wake(s, now).sleep ==> TaskAt(Wake(s, now).table, p).wake > now
  {
    ExpiredFacts(s.table, s.sleep, now);
    WakeRecords(s, now);
    NoDupConcat(s.ready, Expired(s.table, s.sleep, now));
  }

  // ---------------------------------------------------------------- reaping, accounting, switching

  /** Task p is taken out of the table by this tick. */
  predicate Reaped(s: Sched, p: nat) {
    s.reap + 1 >= REAP_PERIOD && Live(s.table, p) && TaskAt(s.table, p).state == TERMINATED && p != s.cur
  }

  lemma ReapRecords(s: Sched)
    ensures forall p: nat :: Live(Reap(s).table, p) <==> Live(s.table, p) && !Reaped(s, p)
    ensures forall p: nat :: Live(Reap(s).table, p) ==>
        Live(s.table, p) && TaskAt(Reap(s).table, p) == TaskAt(s.table, p)
    ensures forall p: nat :: Live(s.table, p) && (TaskAt(s.table, p).state != TERMINATED || p == s.cur) ==>
        Live(Reap(s).table, p)
  {
  }

  /** Reaping removes only terminated tasks, hence never the current or a queued task. */
  lemma ReapKeeps(s: Sched)
    requires Ticking(s)
    ensures Ticking(Reap(s)) && (IdleStays(Reap(s)) <==> IdleStays(s))
    ensures Reap(s).ready == s.ready && Reap(s).sleep == s.sleep && Reap(s).cur == s.cur
    ensures forall p: nat :: Live(Reap(s).table, p) ==>
        Live(s.table, p) && TaskAt(Reap(s).table, p) == TaskAt(s.table, p)
    ensures forall p: nat :: Live(s.table, p) && TaskAt(s.table, p).state != TERMINATED ==> Live(Reap(s).table, p)
  {
    ReapRecords(s);
    var s' := Reap(s);
    assert Live(s'.table, s.cur);
    assert Live(s'.table, s.idle) by {
      assert s.idle in s.ready || s.idle == s.cur;
    }
    forall p: nat | Live(s'.table, p)
      ensures TaskAt(s'.table, p).pid == p
    {
      assert Live(s.table, p) && TaskAt(s'.table, p) == TaskAt(s.table, p);
    }
    forall p | p in s.ready || p in s.sleep
      ensures Live(s'.table, p) && TaskAt(s'.table, p) == TaskAt(s.table, p)
    {
    }
  }

  lemma UpdFacts(t: Table, p: nat, k: Task)
    requires Live(t, p)
    ensures forall q: nat :: Live(Upd(t, p, k), q) <==> Live(t, q)
    ensures forall q: nat :: TaskAt(Upd(t, p, k), q) == if q == p then k else TaskAt(t, q)
    ensures CountSome(Upd(t, p, k)) == CountSome(t)
  {
    CountSame(t, Upd(t, p, k));
  }

  lemma AccountKeeps(s: Sched)
    requires Ticking(s)
    ensures Ticking(Account(s)) && (IdleStays(Account(s)) <==> IdleStays(s))
  {
    var k := TaskAt(s.table, s.cur);
    UpdFacts(s.table, s.cur, k.(slice := if k.slice > 0 then k.slice - 1 else 0, runtime := k.runtime + 1));
  }

  /** s' is the state after a switch from s to the head of the ready queue. */
  ghost predicate SwitchedAway(s: Sched, s': Sched)
    requires s.ready != []
  {
    var k, next := TaskAt(s.table, s.cur), s.ready[0];
    && next != s.cur && s'.cur == next && s'.sleep == s.sleep && s'.idle == s.idle && s'.reap == s.reap
    && s'.size == s.size && CountSome(s'.table) == CountSome(s.table)
    && s'.ready == (if k.state == RUNNING then s.ready[1..] + [s.cur] else s.ready[1..])
    && (forall p: nat :: Live(s'.table, p) <==> Live(s.table, p))
    && (forall p: nat :: TaskAt(s'.table, p) ==
          if p == next then TaskAt(s.table, p).(state := RUNNING, slice := TIME_SLICE)
          else if p == s.cur && k.state == RUNNING then k.(state := READY, slice := TIME_SLICE)
          else TaskAt(s.table, p))
  }

  lemma SwitchAway(s: Sched)
    requires Ticking(s) && s.ready != []
    ensures SwitchedAway(s, Switch(s))
  {
    var k, next := TaskAt(s.table, s.cur), s.ready[0];
    assert next in s.ready;
    var t1 := if k.state == RUNNING then Upd(s.table, s.cur, k.(state := READY, slice := TIME_SLICE)) else s.table;
    UpdFacts(s.table, s.cur, k.(state := READY, slice := TIME_SLICE));
    UpdFacts(t1, next, TaskAt(t1, next).(state := RUNNING, slice := TIME_SLICE));
  }

  lemma QueuesAfter(s: Sched, s': Sched)
    requires Ticking(s) && s.ready != [] && SwitchedAway(s, s')
    ensures QueuesOk(s')
    ensures s.idle != s'.cur && (s.idle in s.ready || TaskAt(s.table, s.cur).state == RUNNING) ==> s.idle in s'.ready
    ensures s.idle == s.cur && TaskAt(s.table, s.cur).state != RUNNING ==> s.idle !in s'.ready
  {
    RotateFacts(s.ready, s.cur);
  }

  lemma RotateFacts(q: seq<nat>, c: nat)
    requires q != [] && NoDup(q)
    ensures NoDup(q[1..]) && q[0] !in q[1..] && (forall p :: p in q <==> p == q[0] || p in q[1..])
    ensures c !in q ==> NoDup(q[1..] + [c])
  {
    NoDupTail(q);
    if c !in q {
      NoDupConcat(q[1..], [c]);
    }
  }

  lemma SwitchedKeeps(s: Sched, s': Sched)
    requires Ticking(s) && s.ready != [] && SwitchedAway(s, s')
    ensures Inv(s') <==> IdleStays(s)
  {
    QueuesAfter(s, s');
    assert s.ready[0] in s.ready;
  }

  /** The switch restores the invariant unless the idle task has left the running state. The current task is picked
      again only when it is the idle task and nothing is ready. */
  lemma SwitchKeeps(s: Sched)
    requires Ticking(s)
    ensures Inv(Switch(s)) <==> IdleStays(s)
    ensures s.ready == [] ==> s.cur == s.idle && Switch(s).cur == s.cur
    ensures s.ready != [] ==> Switch(s).cur == s.ready[0]
    ensures Switch(s).sleep == s.sleep
  {
    if s.ready == [] {
      UpdFacts(s.table, s.cur, TaskAt(s.table, s.cur).(slice := TIME_SLICE));
    } else {
      SwitchAway(s);
      SwitchedKeeps(s, Switch(s));
    }
  }

  /** A tick restores the invariant if and only if the idle task has not left the running state. */
  lemma TickKeeps(s: Sched, now: nat)
    requires Entering(s)
    ensures Inv(Tick(s, now)) <==> IdleStays(s)
  {
    WakeKeeps(s, now);
    ReapKeeps(Wake(s, now));
    AccountKeeps(Reap(Wake(s, now)));
    var s1 := Account(Reap(Wake(s, now)));
    if TaskAt(s1.table, s1.cur).slice == 0 {
      SwitchKeeps(s1);
    }
  }

  // ---------------------------------------------------------------- the other operations

  lemma {:induction false} RemoveAbsent(q: seq<nat>, p: nat)
    requires p !in q
    ensures Remove(q, p) == q
  {
    if q != [] {
      RemoveAbsent(q[1..], p);
    }
  }

  /** Replacing the current task's record by one that has left the running state, or used up its slice. */
  lemma EnteringFrom(s: Sched, k: Task)
    requires Inv(s) && k.pid == TaskAt(s.table, s.cur).pid && k.slice == 0 && k.state != READY
    requires k.state == SLEEPING ==> s.cur != s.idle
    ensures Entering(Leaving(s, k)) && (IdleStays(Leaving(s, k)) <==> k.state == RUNNING || s.cur != s.idle)
  {
    UpdFacts(s.table, s.cur, k);
    NoDupConcat([s.cur], s.sleep);
  }

  /** The current task is in no queue, so taking it out of the ready queue does nothing. */
  lemma EntryIsLeaving(s: Sched, op: Op)
    requires Inv(s) && Ticks(s, op) && !op.TickOp?
    ensures Entry(s, op) == Leaving(s, Departing(TaskAt(s.table, s.cur), op))
  {
    RemoveAbsent(s.ready, s.cur);
    assert s.(ready := s.ready) == s;
  }

  /** Every ticking operation enters scheduler_tick properly; only task_block can take the idle task out of the running
      state. */
  lemma EntryEntering(s: Sched, op: Op)
    requires Inv(s) && Ticks(s, op)
    ensures Entering(Entry(s, op)) && (IdleStays(Entry(s, op)) <==> Legal(s, op))
  {
    if !op.TickOp? {
      EntryIsLeaving(s, op);
      EnteringFrom(s, Departing(TaskAt(s.table, s.cur), op));
    }
  }

  /** Enqueuing a task keeps the invariant if and only if it is neither current nor queued. */
  lemma EnqueueKeeps(s: Sched, p: nat)
    requires Inv(s) && Live(s.table, p)
    ensures Inv(Enqueue(s, p)) <==> p != s.cur && p !in s.ready && p !in s.sleep
  {
    UpdFacts(s.table, p, TaskAt(s.table, p).(state := READY));
    var r := s.ready + [p];
    if p in s.ready {
      var i :| 0 <= i < |s.ready| && s.ready[i] == p;
      assert r[i] == r[|s.ready|];
    } else {
      NoDupConcat(s.ready, [p]);
    }
  }

  lemma {:induction false} RemoveMembers(q: seq<nat>, p: nat)
    requires NoDup(q)
    ensures NoDup(Remove(q, p)) && forall x :: x in Remove(q, p) <==> x in q && x != p
  {
    if p in q {
      RemoveFacts(q, p);
    } else {
      RemoveAbsent(q, p);
    }
  }

  /** Destroying a task keeps the invariant unless it is the idle task in the ready queue. */
  lemma DestroyKeeps(s: Sched, p: nat)
    requires Inv(s)
    ensures Inv(Destroy(s, p)) <==> p != s.idle || p == s.cur
  {
    var t := Destroy(s, p).table;
    assert forall q: nat :: Live(t, q) ==> Live(s.table, q) && TaskAt(t, q) == TaskAt(s.table, q);
    assert forall q: nat :: Live(s.table, q) && q != p ==> Live(t, q);
    RemoveMembers(s.ready, p);
    RemoveMembers(s.sleep, p);
  }

  lemma {:induction false} CountGrown(t: Table, n: nat)
    ensures CountSome(t + seq(n, _ => None)) == CountSome(t)
  {
    var u := t + seq(n, _ => None);
    if n == 0 {
      assert u == t;
    } else {
      CountGrown(t, n - 1);
      assert u[..|u| - 1] == t + seq(n - 1, _ => None);
    }
  }

  /** The table of task_create before the new task: every entry is preserved, and its first free slot is the old one. */
  lemma GrowKeeps(t: Table, mem: bool)
    ensures var u := Grow(t, mem);
            && CountSome(u) == CountSome(t) && |t| <= |u|
            && (forall p: nat :: Live(u, p) <==> Live(t, p))
            && (forall p: nat :: TaskAt(u, p) == TaskAt(t, p))
  {
    CountGrown(t, |t|);
  }

  lemma PlaceTask(t: Table, p: nat, k: Task)
    requires p < |t|
    ensures forall q: nat :: Live(t[p := Some(k)], q) <==> Live(t, q) || q == p
    ensures forall q: nat :: TaskAt(t[p := Some(k)], q) == if q == p then k else TaskAt(t, q)
  {
    var u := t[p := Some(k)];
    forall q: nat
      ensures (Live(u, q) <==> Live(t, q) || q == p) && TaskAt(u, q) == if q == p then k else TaskAt(t, q)
    {
      assert q < |t| && q != p ==> u[q] == t[q];
    }
  }

  /** Task creation fills the lowest free slot and touches no other entry; growth preserves every entry. */
  lemma CreateKeeps(s: Sched, m1: bool, m2: bool)
    requires Inv(s)
    ensures var (s', r) := Create(s, m1, m2);
            && Inv(s')
            && (forall p: nat :: Live(s.table, p) ==> Live(s'.table, p) && TaskAt(s'.table, p) == TaskAt(s.table, p))
            && (r.Some? ==> !Live(s.table, r.value) && Live(s'.table, r.value) &&
                            (forall p: nat :: p < r.value ==> Live(s.table, p)) &&
                            PlaceOf(s', r.value) == Nowhere && TaskAt(s'.table, r.value).state == READY)
  {
    GrowKeeps(s.table, m1);
    var (s', r) := Create(s, m1, m2);
    if r.Some? {
      var k := Task(r.value, READY, TIME_SLICE, 0, 0);
      PlaceTask(Grow(s.table, m1), r.value, k);
      assert s'.table == Grow(s.table, m1)[r.value := Some(k)];
      forall p: nat | Live(s'.table, p)
        ensures TaskAt(s'.table, p).pid == p
      {
        assert p != r.value ==> Live(Grow(s.table, m1), p) && TaskAt(s'.table, p) == TaskAt(Grow(s.table, m1), p);
      }
    }
  }

  // ---------------------------------------------------------------- steps and runs

  /** A call or tick keeps the invariant if and only if the caller keeps to the three rules that the code does not
      test. */
  lemma StepKeepsIff(s: Sched, op: Op)
    requires Inv(s) && Callable(s, op)
    ensures Inv(Step(s, op)) <==> Legal(s, op)
  {
    if Ticks(s, op) {
      EntryEntering(s, op);
      TickKeeps(Entry(s, op), TimeOf(op));
    } else {
      match op
      case CreateOp(m1, m2) => CreateKeeps(s, m1, m2);
      case AddOp(p) => EnqueueKeeps(s, p);
      case UnblockOp(p) =>
        if TaskAt(s.table, p).state == BLOCKED {
          EnqueueKeeps(s, p);
        }
      case DestroyOp(p) => DestroyKeeps(s, p);
      case _ =>
    }
  }

  lemma BootInv()
    ensures Inv(Boot())
  {
    var t := Boot().table;
    assert t == [t[0]] + seq(7, _ => None);
    CountGrown([t[0]], 7);
    assert [t[0]][..0] == [];
  }

  /** Over every legal run of the scheduler. */
  lemma {:induction false} RunKeeps(s: Sched, ops: seq<Op>)
    requires Inv(s) && LegalRun(s, ops)
    ensures Inv(Run(s, ops))
    decreases |ops|
  {
    if ops != [] {
      StepKeepsIff(s, ops[0]);
      RunKeeps(Step(s, ops[0]), ops[1..]);
    }
  }
}
