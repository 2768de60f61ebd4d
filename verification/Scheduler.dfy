/** scheduler/task.c: the task table, the ready queue and the sleep queue updated in place, proved against SchedSpec.
    A task pointer is the task's slot; both queues run through the one `next` field of the tasks. */
module Scheduler {
  import opened Machine
  import opened Wrappers
  import opened Links
  import opened SchedSpec
  import opened SchedProofs

  /** Appending p to the list l leaves a disjoint list m alone. */
  lemma AppendChains(next: seq<int>, l: seq<nat>, head: int, m: seq<nat>, mhead: int, p: nat)
    requires Chain(next, l, head) && Chain(next, m, mhead) && NoDup(l) && p < |next| && p !in l && p !in m
    requires forall y :: y in l ==> y !in m
    ensures var n := next[p := NULL];
            var n' := if l == [] then n else n[l[|l| - 1] := p];
            Chain(n', l + [p], if l == [] then p else head) && Chain(n', m, mhead)
    ensures NoDup(l + [p])
  {
    ChainAppend(next, l, head, p);
    NoDupConcat(l, [p]);
    var n := next[p := NULL];
    assert l != [] ==> l[|l| - 1] in l;
    ChainFrame(next, if l == [] then n else n[l[|l| - 1] := p], m, mhead);
  }

  /** Popping the head of l leaves a disjoint list m alone. */
  lemma PopChains(next: seq<int>, l: seq<nat>, head: int, m: seq<nat>, mhead: int)
    requires Chain(next, l, head) && Chain(next, m, mhead) && NoDup(l) && l != []
    requires forall y :: y in l ==> y !in m
    ensures head == l[0] && next[head] == At(l[1..], 0)
    ensures var n := next[head := NULL]; Chain(n, l[1..], next[head]) && Chain(n, m, mhead)
    ensures NoDup(l[1..]) && forall y :: y in l[1..] ==> y in l
  {
    ChainUnlink(next, l, head, 0, l[1..]);
    NoDupTail(l);
    assert l[0] in l;
    ChainFrame(next, next[head := NULL], l[1..], next[head]);
    ChainFrame(next, next[head := NULL], m, mhead);
  }

  class Scheduler {
    var table: Table
    var next: seq<int>
    var size: nat
    var current: nat
    var idle: nat
    var readyHead: int
    var readyTail: int
    var sleepHead: int
    var reapCounter: nat
    ghost var ready: seq<nat>
    ghost var sleep: seq<nat>

    /** The two queues are disjoint, acyclic chains through `next`, and the tail pointer is right. */
    ghost predicate Shape()
      reads this
    {
      && |next| == |table|
      && NoDup(ready) && NoDup(sleep)
      && (forall p :: p in ready ==> p !in sleep)
      && Chain(next, ready, readyHead)
      && Chain(next, sleep, sleepHead)
      && readyTail == At(ready, |ready| - 1)
    }

    ghost function View(): Sched
      reads this
    {
      Sched(table, size, current, idle, ready, sleep, reapCounter)
    }

    ghost predicate Valid()
      reads this
    {
      Shape() && Inv(View())
    }

    /** task_init and scheduler_init */
    constructor ()
      ensures Valid() && View() == Boot()
    {
      table := [Some(Task(0, RUNNING, TIME_SLICE, 0, 0)), None, None, None, None, None, None, None];
      next := [NULL, NULL, NULL, NULL, NULL, NULL, NULL, NULL];
      size := 1;
      current := 0;
      idle := 0;
      readyHead := NULL;
      readyTail := NULL;
      sleepHead := NULL;
      reapCounter := 0;
      ready := [];
      sleep := [];
      BootInv();
    }

    // -------------------------------------------------------------- the ready queue

    /** The pointer updates of scheduler_add_task. */
    method LinkTail(p: nat)
      requires Shape() && p < |next| && p !in ready && p !in sleep
      modifies this`next, this`readyHead, this`readyTail, this`ready
      ensures Shape() && ready == old(ready) + [p]
    {
      AppendChains(next, ready, readyHead, sleep, sleepHead, p);
      next := next[p := NULL];
      if readyHead == NULL {
        readyHead := p;
        readyTail := p;
      } else {
        next := next[readyTail := p];
        readyTail := p;
      }
      ready := ready + [p];
      assert readyTail == At(ready, |ready| - 1);
    }

    /** scheduler_add_task */
    method AddTask(p: nat)
      requires Shape() && Live(table, p) && p !in ready && p !in sleep
      modifies this`table, this`next, this`readyHead, this`readyTail, this`ready
      ensures Shape() && View() == Enqueue(old(View()), p)
    {
      table := table[p := Some(table[p].value.(state := READY))];
      LinkTail(p);
    }

    /** The removal of scheduler_pick_next, and of scheduler_remove_task at the head. */
    method PopReady() returns (p: nat)
      requires Shape() && ready != []
      modifies this`next, this`readyHead, this`readyTail, this`ready
      ensures Shape() && p == old(ready)[0] && ready == old(ready)[1..]
    {
      PopChains(next, ready, readyHead, sleep, sleepHead);
      p := readyHead;
      readyHead := next[p];
      if readyHead == NULL {
        readyTail := NULL;
      }
      next := next[p := NULL];
      ready := ready[1..];
    }

    /** scheduler_remove_task */
    method RemoveTask(p: nat)
      requires Shape() && p < |next|
      modifies this`next, this`readyHead, this`readyTail, this`ready
      ensures Shape() && ready == Remove(old(ready), p)
      ensures p !in old(ready) ==> next == old(next)
    {
      if readyHead == NULL {
        return;
      }
      if readyHead == p {
        var _ := PopReady();
        return;
      }
      var prev := readyHead;
      var curr := next[readyHead];
      ghost var k := 1;
      while curr != NULL && curr != p
        invariant 1 <= k <= |ready| && prev == At(ready, k - 1) && curr == At(ready, k)
        invariant p !in ready[..k]
        decreases |ready| - k
      {
        prev := curr;
        assert next[ready[k]] == At(ready, k + 1);
        curr := next[curr];
        assert ready[..k + 1] == ready[..k] + [ready[k]];
        k := k + 1;
      }
      if curr == NULL {
        assert ready[..k] == ready;
        RemoveAbsent(ready, p);
        return;
      }
      DropReady(prev, p, k);
    }

    /** Unlinks the task at position k > 0 of the ready queue. */
    method DropReady(prev: nat, p: nat, ghost k: nat)
      requires Shape() && 0 < k < |ready| && p == ready[k] && prev == ready[k - 1]
      modifies this`next, this`readyTail, this`ready
      ensures Shape() && ready == Remove(old(ready), p)
    {
      RemoveAt(ready, k);
      RemoveFacts(ready, p);
      ghost var m := ready[..k] + ready[k + 1..];
      ChainUnlink(next, ready, readyHead, k, m);
      assert p in ready && prev in ready;
      next := next[prev := next[p]];
      if readyTail == p {
        readyTail := prev;
      }
      ghost var n := next;
      next := next[p := NULL];
      ready := m;
      ChainFrame(n, next, ready, readyHead);
      ChainFrame(old(next), next, sleep, sleepHead);
    }

    // -------------------------------------------------------------- the sleep queue

    /** Unlinks the task at position k of the sleep queue, given its predecessor. */
    method DropSleep(prev: int, p: nat, ghost k: nat)
      requires Shape() && k < |sleep| && p == sleep[k] && prev == At(sleep, k - 1)
      modifies this`next, this`sleepHead, this`sleep
      ensures Shape() && sleep == old(sleep)[..k] + old(sleep)[k + 1..] && p !in sleep
      ensures sleep == Remove(old(sleep), p)
    {
      RemoveAt(sleep, k);
      RemoveFacts(sleep, p);
      ghost var m := sleep[..k] + sleep[k + 1..];
      ChainUnlink(next, sleep, sleepHead, k, m);
      assert k > 0 ==> sleep[k - 1] in sleep;
      if prev != NULL {
        next := next[prev := next[p]];
      } else {
        sleepHead := next[p];
      }
      sleep := m;
      ChainFrame(old(next), next, ready, readyHead);
    }

    /** Moves the task at position k of the sleep queue to the ready queue. */
    method WakeTask(prev: int, p: nat, ghost k: nat)
      requires Shape() && k < |sleep| && p == sleep[k] && prev == At(sleep, k - 1) && Live(table, p)
      modifies this`table, this`next, this`readyHead, this`readyTail, this`ready, this`sleepHead, this`sleep
      ensures Shape() && sleep == old(sleep)[..k] + old(sleep)[k + 1..] && ready == old(ready) + [p]
      ensures table == old(table)[p := Some(old(table)[p].value.(state := READY))]
    {
      assert p in sleep;
      DropSleep(prev, p, k);
      AddTask(p);
    }

    /** The link out of the task at position k of the sleep queue. */
    method SleepNext(p: nat, ghost k: nat) returns (n: int)
      requires Shape() && k < |sleep| && p == sleep[k]
      ensures n == At(sleep, k + 1)
    {
      n := next[p];
    }

    /** The state after the first i sleepers have been visited; prev is the last one kept. */
    ghost predicate Visited(t0: Table, q: seq<nat>, r0: seq<nat>, i: nat, now: nat, prev: int)
      reads this
    {
      && i <= |q| && Shape()
      && var kept, moved := Pending(t0, q[..i], now), Expired(t0, q[..i], now);
         sleep == kept + q[i..] && ready == r0 + moved && table == MarkReady(t0, moved) && prev == At(kept, |kept| - 1)
    }

    /** The loop body of scheduler_check_sleeping_tasks. */
    method VisitSleeper(prev: int, curr: nat, now: nat, ghost t0: Table, ghost q: seq<nat>, ghost r0: seq<nat>,
        ghost i: nat)
      returns (prev': int, nxt: int)
      requires Visited(t0, q, r0, i, now, prev) && i < |q| && curr == q[i] && forall p :: p in q ==> Live(t0, p)
      modifies this`table, this`next, this`readyHead, this`readyTail, this`ready, this`sleepHead, this`sleep
      ensures Visited(t0, q, r0, i + 1, now, prev') && nxt == At(q, i + 1)
    {
      var due;
      nxt, due := InspectSleeper(curr, now, t0, q, r0, i, prev);
      if due {
        WakeVisited(prev, curr, now, t0, q, r0, i);
        prev' := prev;
      } else {
        KeepVisited(t0, q, r0, i, now, prev);
        prev' := curr;
      }
    }

    /** The link out of the sleeper under inspection, and whether its time has come. */
    method InspectSleeper(curr: nat, now: nat, ghost t0: Table, ghost q: seq<nat>, ghost r0: seq<nat>, ghost i: nat,
        ghost prev: int)
      returns (nxt: int, due: bool)
      requires Visited(t0, q, r0, i, now, prev) && i < |q| && curr == q[i] && Live(t0, curr)
      ensures nxt == At(q, i + 1) && (due <==> TaskAt(t0, curr).wake <= now)
    {
      ghost var kept, moved := Pending(t0, q[..i], now), Expired(t0, q[..i], now);
      Shift(kept, q, i);
      nxt := SleepNext(curr, |kept|);
      MarkedTask(t0, moved, curr);
      due := now >= table[curr].value.wake;
    }

    /** The sleeper is moved to the ready queue. */
    method WakeVisited(prev: int, curr: nat, ghost now: nat, ghost t0: Table, ghost q: seq<nat>, ghost r0: seq<nat>,
        ghost i: nat)
      requires Visited(t0, q, r0, i, now, prev) && i < |q| && curr == q[i] && Live(t0, curr)
      requires TaskAt(t0, curr).wake <= now
      modifies this`table, this`next, this`readyHead, this`readyTail, this`ready, this`sleepHead, this`sleep
      ensures Visited(t0, q, r0, i + 1, now, prev)
    {
      ghost var kept, moved := Pending(t0, q[..i], now), Expired(t0, q[..i], now);
      WakeOne(t0, q, i, now);
      MarkOne(t0, moved, curr);
      MarkedTask(t0, moved, curr);
      Shift(kept, q, i);
      WakeTask(prev, curr, |kept|);
      assert ready == r0 + (moved + [q[i]]);
    }

    /** The sleeper stays, and becomes the predecessor of the next. */
    lemma KeepVisited(t0: Table, q: seq<nat>, r0: seq<nat>, i: nat, now: nat, prev: int)
      requires Visited(t0, q, r0, i, now, prev) && i < |q| && Live(t0, q[i]) && TaskAt(t0, q[i]).wake > now
      ensures Visited(t0, q, r0, i + 1, now, q[i])
    {
      WakeOne(t0, q, i, now);
      Shift(Pending(t0, q[..i], now), q, i);
    }

    /** scheduler_check_sleeping_tasks: in-place removal while appending to the ready queue. */
    method CheckSleeping(now: nat)
      requires Shape() && forall p :: p in sleep ==> Live(table, p)
      modifies this`table, this`next, this`readyHead, this`readyTail, this`ready, this`sleepHead, this`sleep
      ensures Shape() && View() == Wake(old(View()), now)
    {
      VisitStart(table, sleep, ready, now);
      VisitEnd(table, sleep, now);
      ghost var last := VisitSleepers(now, table, sleep, ready);
    }

    /** The loop of scheduler_check_sleeping_tasks. */
    method VisitSleepers(now: nat, ghost t0: Table, ghost q: seq<nat>, ghost r0: seq<nat>) returns (ghost prev': int)
      requires Visited(t0, q, r0, 0, now, NULL) && forall p :: p in q ==> Live(t0, p)
      modifies this`table, this`next, this`readyHead, this`readyTail, this`ready, this`sleepHead, this`sleep
      ensures Visited(t0, q, r0, |q|, now, prev')
    {
      ghost var i := 0;
      var prev := NULL;
      var curr := FirstSleeper(now, t0, q, r0);
      while curr != NULL
        invariant i <= |q| && curr == At(q, i)
        invariant Visited(t0, q, r0, i, now, prev)
        decreases |q| - i
      {
        prev, curr := VisitSleeper(prev, curr, now, t0, q, r0, i);
        i := i + 1;
      }
      prev' := prev;
    }

    method FirstSleeper(ghost now: nat, ghost t0: Table, ghost q: seq<nat>, ghost r0: seq<nat>) returns (p: int)
      requires Visited(t0, q, r0, 0, now, NULL)
      ensures p == At(q, 0)
    {
      VisitStart(t0, q, r0, now);
      p := sleepHead;
    }

    // -------------------------------------------------------------- the tick

    /** scheduler_reap_terminated */
    method ReapTerminated()
      requires size == CountSome(table)
      modifies this`table, this`size
      ensures table == ReapTable(old(table), current) && size == CountSome(table)
    {
      ghost var t0 := table;
      for i := 0 to |table|
        invariant |table| == |t0| && size == CountSome(table)
        invariant forall j :: 0 <= j < i ==> table[j] == ReapTable(t0, current)[j]
        invariant forall j :: i <= j < |t0| ==> table[j] == t0[j]
      {
        if table[i].Some? && table[i].value.state == TERMINATED && i != current {
          CountClear(table, i);
          table := table[i := None];
          size := size - 1;
        }
      }
      assert table == ReapTable(t0, current);
    }

    /** Puts the outgoing task back in the queue if it is still running. */
    method Requeue(last: nat)
      requires Shape() && Live(table, last)
      requires table[last].value.state == RUNNING ==> last !in ready && last !in sleep
      modifies this`table, this`next, this`readyHead, this`readyTail, this`ready
      ensures Shape()
      ensures if old(table)[last].value.state == RUNNING
              then table == old(table)[last := Some(old(table)[last].value.(state := READY, slice := TIME_SLICE))] &&
                   ready == old(ready) + [last]
              else table == old(table) && ready == old(ready)
    {
      if table[last].value.state == RUNNING {
        table := table[last := Some(table[last].value.(slice := TIME_SLICE))];
        AddTask(last);
      }
    }

    /** scheduler_pick_next */
    method PickNext() returns (pick: nat)
      requires Shape()
      modifies this`readyHead, this`readyTail, this`ready, this`next
      ensures Shape() && View() == Dequeue(old(View())) && pick == Picked(old(View()))
    {
      pick := idle;
      if readyHead != NULL {
        pick := PopReady();
      }
    }

    /** The switch of scheduler_tick. */
    method ResumeTask(pick: nat)
      requires Shape() && Live(table, current) && Live(table, pick)
      requires table[current].value.state == RUNNING ==> current !in ready && current !in sleep
      modifies this`table, this`next, this`current, this`readyHead, this`readyTail, this`ready
      ensures Shape() && View() == Resume(old(View()), pick)
    {
      if pick != current {
        Requeue(current);
        table := table[pick := Some(table[pick].value.(state := RUNNING, slice := TIME_SLICE))];
        current := pick;
      } else {
        table := table[current := Some(table[current].value.(slice := TIME_SLICE))];
      }
    }

    /** scheduler_pick_next and the switch of scheduler_tick */
    method SwitchTask()
      requires Shape() && CanSwitch(View())
      modifies this`table, this`next, this`current, this`readyHead, this`readyTail, this`ready
      ensures Shape() && View() == Switch(old(View()))
    {
      PickedIsLive(View());
      var pick := PickNext();
      ResumeTask(pick);
    }

    /** The periodic reaping of scheduler_tick. */
    method MaybeReap()
      requires Shape() && size == CountSome(table)
      modifies this`table, this`size, this`reapCounter
      ensures Shape() && View() == Reap(old(View()))
    {
      reapCounter := reapCounter + 1;
      if reapCounter >= REAP_PERIOD {
        reapCounter := 0;
        ReapTerminated();
      }
    }

    /** The accounting of scheduler_tick. */
    method Charge()
      requires Shape() && Live(table, current)
      modifies this`table
      ensures Shape() && View() == Account(old(View()))
    {
      var k := table[current].value;
      table := table[current := Some(k.(slice := if k.slice > 0 then k.slice - 1 else 0, runtime := k.runtime + 1))];
    }

    /** scheduler_tick */
    method SchedulerTick(now: nat)
      requires Shape() && Entering(View())
      modifies this
      ensures Shape() && View() == Tick(old(View()), now) && (Valid() <==> old(IdleStays(View())))
    {
      TickPhases(View(), now);
      TickBody(now);
    }

    /** scheduler_tick up to the decision to switch. */
    method Prepare(now: nat)
      requires Shape() && forall p :: p in sleep ==> Live(table, p)
      requires Wake(View(), now).size == CountSome(Wake(View(), now).table)
      requires Live(Reap(Wake(View(), now)).table, Reap(Wake(View(), now)).cur)
      modifies this
      ensures Shape() && View() == Account(Reap(Wake(old(View()), now)))
    {
      CheckSleeping(now);
      MaybeReap();
      Charge();
    }

    method TickBody(now: nat)
      requires Shape() && PhasesOk(View(), now)
      modifies this
      ensures Shape() && View() == Tick(old(View()), now)
    {
      Prepare(now);
      SwitchIfDue();
    }

    method SwitchIfDue()
      requires Shape() && CanSwitch(View())
      modifies this
      ensures Shape()
      ensures View() == if TaskAt(old(table), old(current)).slice == 0 then Switch(old(View())) else old(View())
    {
      if table[current].value.slice == 0 {
        SwitchTask();
      }
    }

    // -------------------------------------------------------------- the task API

    /** The timer interrupt. */
    method OnTimer(now: nat)
      requires Valid()
      modifies this
      ensures Valid() && View() == Step(old(View()), TickOp(now))
    {
      SchedulerTick(now);
    }

    /** Records the current task's new state with an empty slice. */
    method Leave(st: TaskState)
      requires Live(table, current) && Shape() && st != SLEEPING
      modifies this`table
      ensures Shape() && View() == Leaving(old(View()), TaskAt(old(table), current).(state := st, slice := 0))
    {
      table := table[current := Some(table[current].value.(state := st, slice := 0))];
    }

    /** task_yield */
    method TaskYield(now: nat)
      requires Valid()
      modifies this
      ensures Valid() && View() == Step(old(View()), YieldOp(now))
    {
      LeavingEnters(View(), YieldOp(now), TaskAt(table, current).(slice := 0));
      Leave(table[current].value.state);
      SchedulerTick(now);
    }

    /** task_block */
    method TaskBlock(now: nat)
      requires Valid()
      modifies this
      ensures Shape() && View() == Step(old(View()), BlockOp(now)) && (Valid() <==> old(Legal(View(), BlockOp(now))))
    {
      LeavingEnters(View(), BlockOp(now), TaskAt(table, current).(state := BLOCKED, slice := 0));
      Leave(BLOCKED);
      SchedulerTick(now);
    }

    /** task_exit */
    method TaskExit(now: nat)
      requires Valid()
      modifies this
      ensures Valid() && View() == Step(old(View()), ExitOp(now))
    {
      if current == idle {
        return;
      }
      LeavingEnters(View(), ExitOp(now), TaskAt(table, current).(state := TERMINATED, slice := 0));
      LeaveReady();
      SchedulerTick(now);
    }

    /** task_exit up to the tick. */
    method LeaveReady()
      requires Shape() && Live(table, current) && current !in ready
      modifies this`table, this`next, this`readyHead, this`readyTail, this`ready
      ensures Shape()
      ensures View() == Leaving(old(View()), TaskAt(old(table), current).(state := TERMINATED, slice := 0))
    {
      RemoveAbsent(ready, current);
      Leave(TERMINATED);
      RemoveTask(current);
    }

    /** task_sleep up to the tick. */
    method LeaveToSleep(wake: nat)
      requires Shape() && Live(table, current) && current !in ready && current !in sleep
      modifies this`table, this`next, this`sleepHead, this`sleep
      ensures Shape()
      ensures View() == Leaving(old(View()), TaskAt(old(table), current).(state := SLEEPING, slice := 0, wake := wake))
    {
      table := table[current := Some(table[current].value.(state := SLEEPING, slice := 0, wake := wake))];
      PushSleep(current);
    }

    /** The push onto the sleep queue in task_sleep. */
    method PushSleep(p: nat)
      requires Shape() && p < |next| && p !in ready && p !in sleep
      modifies this`next, this`sleepHead, this`sleep
      ensures Shape() && sleep == [p] + old(sleep)
    {
      NoDupConcat([p], sleep);
      next := next[p := sleepHead];
      sleepHead := p;
      ghost var q := sleep;
      sleep := [p] + sleep;
      PushChain(old(next), q, old(sleepHead), p);
      ChainFrame(old(next), next, ready, readyHead);
    }

    /** task_sleep */
    method TaskSleep(ticks: nat, now: nat)
      requires Valid()
      modifies this
      ensures Valid() && View() == Step(old(View()), SleepOp(ticks, now))
    {
      if ticks == 0 || current == idle {
        return;
      }
      var wake := (now + ticks) % WORD;
      LeavingEnters(View(), SleepOp(ticks, now), TaskAt(table, current).(state := SLEEPING, slice := 0, wake := wake));
      LeaveToSleep(wake);
      SchedulerTick(now);
    }

    /** scheduler_add_task on a task that is neither current nor queued */
    method StartTask(p: nat)
      requires Valid() && Legal(View(), AddOp(p))
      modifies this
      ensures Valid() && View() == Step(old(View()), AddOp(p))
    {
      EnqueueKeeps(View(), p);
      AddTask(p);
    }

    /** task_unblock */
    method TaskUnblock(p: nat)
      requires Valid() && Legal(View(), UnblockOp(p))
      modifies this
      ensures Valid() && View() == Step(old(View()), UnblockOp(p))
    {
      if table[p].value.state != BLOCKED {
        return;
      }
      EnqueueKeeps(View(), p);
      AddTask(p);
    }

    /** The sleep-queue search of task_destroy. */
    method RemoveSleeper(p: nat)
      requires Shape()
      modifies this`next, this`sleepHead, this`sleep
      ensures Shape() && sleep == Remove(old(sleep), p)
    {
      if sleepHead == p {
        DropSleep(NULL, p, 0);
        return;
      }
      var prev := NULL;
      var curr := sleepHead;
      ghost var k := 0;
      while curr != NULL && curr != p
        invariant 0 <= k <= |sleep| && prev == At(sleep, k - 1) && curr == At(sleep, k) && p !in sleep[..k]
        decreases |sleep| - k
      {
        prev := curr;
        assert next[sleep[k]] == At(sleep, k + 1);
        curr := next[curr];
        assert sleep[..k + 1] == sleep[..k] + [sleep[k]];
        k := k + 1;
      }
      if curr == NULL {
        assert sleep[..k] == sleep;
        RemoveAbsent(sleep, p);
        return;
      }
      DropSleep(prev, p, k);
    }

    /** task_destroy */
    method TaskDestroy(p: nat)
      requires Valid() && Live(table, p)
      modifies this
      ensures Shape() && View() == Step(old(View()), DestroyOp(p)) && (Valid() <==> old(Legal(View(), DestroyOp(p))))
    {
      if p == current {
        return;
      }
      DestroyKeeps(View(), p);
      FreeTask(p);
    }

    /** The removal of task_destroy. */
    method FreeTask(p: nat)
      requires Shape() && Live(table, p) && table[p].value.pid == p && size == CountSome(table)
      modifies this
      ensures Shape() && table == old(table)[p := None] && size == CountSome(table)
      ensures ready == Remove(old(ready), p) && sleep == Remove(old(sleep), p)
      ensures current == old(current) && idle == old(idle) && reapCounter == old(reapCounter)
    {
      Unqueue(p);
      CountClear(table, p);
      var slot := table[p].value.pid;
      table := table[slot := None];
      size := size - 1;
    }

    /** The queue removals of task_destroy. */
    method Unqueue(p: nat)
      requires Shape() && p < |next|
      modifies this`next, this`readyHead, this`readyTail, this`ready, this`sleepHead, this`sleep
      ensures Shape() && ready == Remove(old(ready), p) && sleep == Remove(old(sleep), p)
    {
      RemoveTask(p);
      RemoveSleeper(p);
    }

    /** task_find_free_slot, with task_table_grow when the table is full; the slot is past the end when that fails. */
    method FindFreeSlot(mem: bool) returns (p: nat)
      requires Shape()
      modifies this`table, this`next
      ensures Shape() && p == FreeSlot(old(table)) && table == Grow(old(table), mem)
    {
      p := 0;
      while p < |table| && table[p].Some?
        invariant p <= |table| && FreeSlot(table) == p + FreeSlot(table[p..])
      {
        assert table[p..][1..] == table[p + 1..];
        p := p + 1;
      }
      if p < |table| {
        return;
      }
      if mem {
        var n := |table|;
        table := table + seq(n, _ => None);
        next := next + seq(n, _ => NULL);
        ChainFrame(old(next), next, ready, readyHead);
        ChainFrame(old(next), next, sleep, sleepHead);
      }
    }

    /** task_create */
    method TaskCreate(tableMem: bool, taskMem: bool) returns (r: Option<nat>)
      requires Valid()
      modifies this
      ensures Valid() && View() == Step(old(View()), CreateOp(tableMem, taskMem))
      ensures r == Create(old(View()), tableMem, taskMem).1
    {
      CreateKeeps(View(), tableMem, taskMem);
      r := MakeTask(tableMem, taskMem);
    }

    /** The slot search and table update of task_create. */
    method MakeTask(tableMem: bool, taskMem: bool) returns (r: Option<nat>)
      requires Shape() && size == CountSome(table)
      modifies this`table, this`next, this`size
      ensures Shape() && View() == Create(old(View()), tableMem, taskMem).0
      ensures r == Create(old(View()), tableMem, taskMem).1
    {
      GrowCount(table, tableMem);
      var p := FindFreeSlot(tableMem);
      if p >= |table| || !taskMem {
        return None;
      }
      Occupy(p);
      return Some(p);
    }

    /** The table update of task_create. */
    method Occupy(p: nat)
      requires Shape() && p < |table| && table[p].None? && size == CountSome(table)
      modifies this`table, this`size
      ensures Shape() && table == old(table)[p := Some(Task(p, READY, TIME_SLICE, 0, 0))] && size == CountSome(table)
    {
      var t := table[p := Some(Task(p, READY, TIME_SLICE, 0, 0))];
      CountClear(t, p);
      assert t[p := None] == table;
      table := t;
      size := size + 1;
    }
  }

  lemma CurrentUnqueued(s: Sched)
    requires Inv(s)
    ensures Live(s.table, s.cur) && s.cur !in s.ready && s.cur !in s.sleep
  {
  }

  /** What task_yield, task_block, task_exit and task_sleep rely on before they call scheduler_tick. */
  lemma LeavingEnters(s: Sched, op: Op, k: Task)
    requires Inv(s) && Ticks(s, op) && !op.TickOp? && k == Departing(TaskAt(s.table, s.cur), op)
    ensures Entering(Leaving(s, k)) && (IdleStays(Leaving(s, k)) <==> Legal(s, op))
    ensures Step(s, op) == Tick(Leaving(s, k), TimeOf(op))
    ensures Live(s.table, s.cur) && s.cur !in s.ready && s.cur !in s.sleep
  {
    CurrentUnqueued(s);
    EntryIsLeaving(s, op);
    EntryEntering(s, op);
  }

  lemma PushChain(next: seq<int>, l: seq<nat>, head: int, p: nat)
    requires Chain(next, l, head) && p < |next| && p !in l
    ensures Chain(next[p := head], [p] + l, p)
  {
    var n, m := next[p := head], [p] + l;
    forall i {:trigger n[m[i]]} | 0 <= i < |m|
      ensures n[m[i]] == At(m, i + 1)
    {
      if i > 0 {
        assert m[i] == l[i - 1] && l[i - 1] in l;
        assert next[l[i - 1]] == At(l, i);
      }
    }
  }

  lemma GrowCount(t: Table, mem: bool)
    ensures CountSome(Grow(t, mem)) == CountSome(t)
  {
    CountGrown(t, |t|);
  }

  ghost predicate CanSwitch(s: Sched) {
    && Live(s.table, s.cur) && Live(s.table, s.idle)
    && (forall p :: p in s.ready ==> Live(s.table, p))
    && (s.table[s.cur].value.state == RUNNING ==> s.cur !in s.ready && s.cur !in s.sleep)
  }

  lemma PickedIsLive(s: Sched)
    requires CanSwitch(s)
    ensures Live(s.table, Picked(s))
    ensures s.table[s.cur].value.state == RUNNING ==> s.cur !in Dequeue(s).ready
  {
    assert s.ready != [] ==> s.ready[0] in s.ready;
  }

  /** What each phase of scheduler_tick relies on. */
  ghost predicate PhasesOk(s: Sched, now: nat) {
    && (forall p :: p in s.sleep ==> Live(s.table, p))
    && Wake(s, now).size == CountSome(Wake(s, now).table)
    && Live(Reap(Wake(s, now)).table, Reap(Wake(s, now)).cur)
    && CanSwitch(Account(Reap(Wake(s, now))))
  }

  lemma TickPhases(s: Sched, now: nat)
    requires Entering(s)
    ensures PhasesOk(s, now)
    ensures Inv(Tick(s, now)) <==> IdleStays(s)
  {
    WakeKeeps(s, now);
    ReapKeeps(Wake(s, now));
    AccountKeeps(Reap(Wake(s, now)));
    TickKeeps(s, now);
  }

  lemma {:induction false} CountClear(t: Table, i: nat)
    requires i < |t| && t[i].Some?
    ensures CountSome(t) == CountSome(t[i := None]) + 1
  {
    var u := t[i := None];
    if i < |t| - 1 {
      CountClear(t[..|t| - 1], i);
      assert u[..|t| - 1] == t[..|t| - 1][i := None];
    } else {
      assert u[..|t| - 1] == t[..|t| - 1];
    }
  }

  lemma Shift(kept: seq<nat>, q: seq<nat>, i: nat)
    requires i < |q|
    ensures var s, k := kept + q[i..], |kept|;
            && s[k] == q[i] && At(s, k + 1) == At(q, i + 1) && At(s, k - 1) == At(kept, k - 1)
            && s[..k] + s[k + 1..] == kept + q[i + 1..]
            && s == kept + [q[i]] + q[i + 1..]
    ensures At(kept + [q[i]], |kept|) == q[i]
  {
  }

  lemma VisitStart(t: Table, q: seq<nat>, r: seq<nat>, now: nat)
    ensures Pending(t, q[..0], now) == [] == Expired(t, q[..0], now)
    ensures [] + q[0..] == q && r + [] == r && MarkReady(t, []) == t
  {
  }

  lemma VisitEnd(t: Table, q: seq<nat>, now: nat)
    ensures Pending(t, q[..|q|], now) + q[|q|..] == Pending(t, q, now)
    ensures Expired(t, q[..|q|], now) == Expired(t, q, now)
  {
    assert q[..|q|] == q;
  }

  lemma WakeOne(t: Table, q: seq<nat>, i: nat, now: nat)
    requires i < |q|
    ensures var r := q[..i + 1];
            Expired(t, r, now) == Expired(t, q[..i], now) + (if TaskAt(t, q[i]).wake <= now then [q[i]] else []) &&
            Pending(t, r, now) == Pending(t, q[..i], now) + (if TaskAt(t, q[i]).wake <= now then [] else [q[i]])
  {
    assert q[..i + 1][..i] == q[..i];
  }

  lemma MarkedTask(t: Table, moved: seq<nat>, p: nat)
    requires Live(t, p)
    ensures Live(MarkReady(t, moved), p) && TaskAt(MarkReady(t, moved), p).wake == TaskAt(t, p).wake
  {
  }

  lemma MarkOne(t: Table, moved: seq<nat>, p: nat)
    requires Live(t, p)
    ensures MarkReady(t, moved + [p]) ==
            MarkReady(t, moved)[p := Some(TaskAt(MarkReady(t, moved), p).(state := READY))]
  {
  }
}
