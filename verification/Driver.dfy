/** drivers/driver.c: the driver registry and the multi-pass initialisation in priority order. */
module Driver {
  import opened Errno
  import opened Links

  const MAX_DRIVERS: nat := 32

  datatype Status = UNINITIALIZED | INITIALIZED | ENABLED | DISABLED | FAILED

  datatype Driver = Driver(name: string, priority: nat, dependsOn: string, status: Status)

  type Drivers = seq<Driver>

  // ---------------------------------------------------------------- dependencies

  /** driver_get_by_name: the first driver of that name, or the number of drivers. */
  function Find(ds: Drivers, nm: string): (i: nat)
    ensures i <= |ds|
    ensures i < |ds| ==> ds[i].name == nm
    ensures forall j :: 0 <= j < i ==> ds[j].name != nm
  {
    if ds == [] || ds[0].name == nm then 0 else 1 + Find(ds[1..], nm)
  }

  predicate Ready(s: Status) {
    s == INITIALIZED || s == ENABLED
  }

  /** driver_dependencies_met */
  predicate DependenciesMet(ds: Drivers, i: nat)
    requires i < |ds|
  {
    ds[i].dependsOn == "" || (var j := Find(ds, ds[i].dependsOn); j < |ds| && Ready(ds[j].status))
  }

  /** With different names, a dependency is met exactly when there is none or the driver it names is initialised or
      enabled. */
  lemma MetExactly(ds: Drivers, i: nat)
    requires i < |ds| && forall a, b :: 0 <= a < b < |ds| ==> ds[a].name != ds[b].name
    ensures DependenciesMet(ds, i) <==>
            ds[i].dependsOn == "" ||
            exists j :: 0 <= j < |ds| && ds[j].name == ds[i].dependsOn &&
                        (ds[j].status == INITIALIZED || ds[j].status == ENABLED)
  {
    var j := Find(ds, ds[i].dependsOn);
    if k :| 0 <= k < |ds| && ds[k].name == ds[i].dependsOn {
      assert j == k;
    }
  }

  /** Driver i can be attempted within k rounds: it is uninitialised, and its dependency is absent, is ready from the
      start, or is itself attempted earlier with success. */
  ghost predicate Attemptable(ds: Drivers, ok: seq<bool>, i: nat, k: nat)
    requires |ok| == |ds|
    decreases k
  {
    && i < |ds| && ds[i].status == UNINITIALIZED
    && (ds[i].dependsOn == "" ||
        (var j := Find(ds, ds[i].dependsOn);
         j < |ds| && (Ready(ds[j].status) || (k > 0 && ok[j] && Attemptable(ds, ok, j, k - 1)))))
  }

  /** The least set closed under "its dependency has been met". */
  ghost predicate Reached(ds: Drivers, ok: seq<bool>, i: nat)
    requires |ok| == |ds|
  {
    exists k: nat :: Attemptable(ds, ok, i, k)
  }

  /** The status every driver ends with. */
  ghost function FinalStatus(ds: Drivers, ok: seq<bool>, i: nat): Status
    requires |ok| == |ds| && i < |ds|
  {
    if Reached(ds, ok, i) then (if ok[i] then INITIALIZED else FAILED) else ds[i].status
  }

  // ---------------------------------------------------------------- the priority queue

  /** Before in the queue: lower priority number first, then registration order. */
  predicate Before(ds: Drivers, x: nat, y: nat)
    requires x < |ds| && y < |ds|
  {
    ds[x].priority < ds[y].priority || (ds[x].priority == ds[y].priority && x < y)
  }

  /** A stable priority-sorted permutation of the first n drivers. */
  ghost predicate StableQueue(ds: Drivers, q: seq<nat>, n: nat) {
    && |q| == n <= |ds|
    && (forall i :: 0 <= i < n ==> q[i] < n)
    && (forall i, j :: 0 <= i < j < n ==> Before(ds, q[i], q[j]))
    && (forall d: nat :: d < n ==> d in q)
  }

  /** Position i of the queue once n has been inserted at position p. */
  function Inserted(q: seq<nat>, n: nat, p: nat, i: nat): nat
    requires p <= |q| && i <= |q|
  {
    if i < p then q[i] else if i == p then n else q[i - 1]
  }

  lemma InsertOrder(ds: Drivers, q: seq<nat>, n: nat, p: nat, i: nat, j: nat)
    requires n < |ds| && StableQueue(ds, q, n) && p <= n && i < j <= n
    requires forall i :: 0 <= i < p ==> ds[q[i]].priority <= ds[n].priority
    requires p < n ==> ds[q[p]].priority > ds[n].priority
    ensures Before(ds, Inserted(q, n, p, i), Inserted(q, n, p, j))
  {
    if i == p {
      assert p == j - 1 || Before(ds, q[p], q[j - 1]);
    }
  }

  lemma InsertKeeps(ds: Drivers, q: seq<nat>, n: nat, p: nat, r: seq<nat>)
    requires n < |ds| && StableQueue(ds, q, n) && p <= n
    requires forall i :: 0 <= i < p ==> ds[q[i]].priority <= ds[n].priority
    requires p < n ==> ds[q[p]].priority > ds[n].priority
    requires |r| == n + 1 && forall i :: 0 <= i <= n ==> r[i] == Inserted(q, n, p, i)
    ensures StableQueue(ds, r, n + 1)
  {
    forall i, j | 0 <= i < j < n + 1
      ensures Before(ds, r[i], r[j])
    {
      InsertOrder(ds, q, n, p, i, j);
    }
    forall d: nat | d < n + 1
      ensures d in r
    {
      if d < n {
        assert d in q;
        var i :| 0 <= i < n && q[i] == d;
        assert r[if i < p then i else i + 1] == d;
      } else {
        assert r[p] == d;
      }
    }
  }

  /** The insertion sort of driver_init_all, in place in a fixed array. */
  method BuildQueue(ds: Drivers) returns (q: seq<nat>)
    requires |ds| <= MAX_DRIVERS
    ensures StableQueue(ds, q, |ds|)
  {
    var a := new nat[MAX_DRIVERS];
    for i := 0 to |ds|
      invariant StableQueue(ds, a[..i], i)
    {
      Insert(ds, a, i);
    }
    q := a[..|ds|];
  }

  /** The insertion of driver i among the first i: the search for its position, the shift and the store. */
  method Insert(ds: Drivers, a: array<nat>, i: nat)
    requires i < |ds| <= a.Length && StableQueue(ds, a[..i], i)
    modifies a
    ensures StableQueue(ds, a[..i + 1], i + 1)
  {
    ghost var s := a[..i];
    var pos := 0;
    while pos < i && ds[a[pos]].priority <= ds[i].priority
      invariant pos <= i && forall j :: 0 <= j < pos ==> ds[s[j]].priority <= ds[i].priority
    {
      pos := pos + 1;
    }
    ShiftRight(a, pos, i);
    a[pos] := i;
    assert forall j :: 0 <= j <= i ==> a[..i + 1][j] == a[j];
    InsertKeeps(ds, s, i, pos, a[..i + 1]);
  }

  /** Moves a[pos..i] up by one. */
  method ShiftRight(a: array<nat>, pos: nat, i: nat)
    requires pos <= i < a.Length
    modifies a
    ensures forall j :: 0 <= j < pos ==> a[j] == old(a[j])
    ensures forall j :: pos < j <= i ==> a[j] == old(a[j - 1])
  {
    var j := i;
    while j > pos
      invariant pos <= j <= i
      invariant forall k :: 0 <= k <= j ==> a[k] == old(a[k])
      invariant forall k :: j < k <= i ==> a[k] == old(a[k - 1])
    {
      a[j] := a[j - 1];
      j := j - 1;
    }
  }

  // ---------------------------------------------------------------- progress of the passes

  /** ds is ds0 with some reached drivers attempted. */
  ghost predicate Progressed(ds0: Drivers, ds: Drivers, ok: seq<bool>) {
    && |ds| == |ds0| == |ok|
    && forall i {:trigger ds[i]} :: 0 <= i < |ds| ==>
         || ds[i] == ds0[i]
         || (Reached(ds0, ok, i) && ds[i] == ds0[i].(status := if ok[i] then INITIALIZED else FAILED))
  }

  lemma {:induction false} FindSame(ds0: Drivers, ds: Drivers, nm: string)
    requires |ds| == |ds0| && forall i :: 0 <= i < |ds| ==> ds[i].name == ds0[i].name
    ensures Find(ds, nm) == Find(ds0, nm)
  {
    if ds != [] {
      FindSame(ds0[1..], ds[1..], nm);
    }
  }

  /** Whatever a pass attempts belongs to the least fixpoint. */
  lemma AttemptIsReached(ds0: Drivers, ds: Drivers, ok: seq<bool>, i: nat)
    requires Progressed(ds0, ds, ok) && i < |ds| && ds[i].status == UNINITIALIZED && DependenciesMet(ds, i)
    ensures Reached(ds0, ok, i) && ds[i] == ds0[i]
  {
    assert ds[i] == ds0[i];
    if ds[i].dependsOn == "" {
      assert Attemptable(ds0, ok, i, 0);
    } else {
      FindSame(ds0, ds, ds[i].dependsOn);
      var j := Find(ds, ds[i].dependsOn);
      if ds[j] == ds0[j] {
        assert Attemptable(ds0, ok, i, 0);
      } else {
        var k: nat :| Attemptable(ds0, ok, j, k);
        assert Attemptable(ds0, ok, i, k + 1);
      }
    }
  }

  /** No uninitialised driver has its dependency met. */
  predicate Closed(ds: Drivers) {
    forall i :: 0 <= i < |ds| ==> !(ds[i].status == UNINITIALIZED && DependenciesMet(ds, i))
  }

  /** When nothing more can be attempted, everything in the least fixpoint has been. */
  lemma {:induction false} ClosedIsComplete(ds0: Drivers, ds: Drivers, ok: seq<bool>, i: nat, k: nat)
    requires Progressed(ds0, ds, ok) && Closed(ds) && Attemptable(ds0, ok, i, k)
    ensures ds[i].status != UNINITIALIZED
    decreases k
  {
    if ds[i].dependsOn != "" {
      FindSame(ds0, ds, ds[i].dependsOn);
      var j := Find(ds0, ds[i].dependsOn);
      if !Ready(ds0[j].status) {
        ClosedIsComplete(ds0, ds, ok, j, k - 1);
      }
    }
  }

  lemma FixpointReached(ds0: Drivers, ds: Drivers, ok: seq<bool>)
    requires Progressed(ds0, ds, ok) && Closed(ds)
    ensures forall i :: 0 <= i < |ds| ==> ds[i] == ds0[i].(status := FinalStatus(ds0, ok, i))
  {
    forall i | 0 <= i < |ds|
      ensures ds[i] == ds0[i].(status := FinalStatus(ds0, ok, i))
    {
      if Reached(ds0, ok, i) {
        var k: nat :| Attemptable(ds0, ok, i, k);
        ClosedIsComplete(ds0, ds, ok, i, k);
      }
    }
  }

  lemma ReachedStep(ds0: Drivers, ok: seq<bool>, i: nat)
    requires |ok| == |ds0| && i < |ds0| && ds0[i].status == UNINITIALIZED
    requires ds0[i].dependsOn == "" ||
             (var j := Find(ds0, ds0[i].dependsOn);
              j < |ds0| && (Ready(ds0[j].status) || (ok[j] && Reached(ds0, ok, j))))
    ensures Reached(ds0, ok, i)
  {
    var j := Find(ds0, ds0[i].dependsOn);
    if ds0[i].dependsOn == "" || Ready(ds0[j].status) {
      assert Attemptable(ds0, ok, i, 0);
    } else {
      var k: nat :| Attemptable(ds0, ok, j, k);
      assert Attemptable(ds0, ok, i, k + 1);
    }
  }

  /** A driver left uninitialised has a dependency that is missing, not ready or failed, or is left uninitialised too.
      */
  lemma LeftOver(ds0: Drivers, ok: seq<bool>, i: nat)
    requires |ok| == |ds0| && i < |ds0| && FinalStatus(ds0, ok, i) == UNINITIALIZED
    ensures ds0[i].dependsOn != ""
    ensures var j := Find(ds0, ds0[i].dependsOn); j == |ds0| || !Ready(FinalStatus(ds0, ok, j))
  {
    var j := Find(ds0, ds0[i].dependsOn);
    if ds0[i].dependsOn == "" || (j < |ds0| && (Ready(ds0[j].status) || (ok[j] && Reached(ds0, ok, j)))) {
      ReachedStep(ds0, ok, i);
      assert false;
    }
  }

  /** The k-th dependency of driver i, or the number of drivers where the chain leads to no registered driver. */
  function Dep(ds: Drivers, i: nat, k: nat): (j: nat)
    requires i <= |ds|
    ensures j <= |ds|
  {
    if k == 0 then i
    else
      var j := Dep(ds, i, k - 1);
      if j >= |ds| || ds[j].dependsOn == "" then |ds| else Find(ds, ds[j].dependsOn)
  }

  /** The k-th driver on the chain of dependencies from i is registered and left uninitialised. */
  ghost predicate Waits(ds: Drivers, ok: seq<bool>, i: nat, k: nat)
    requires |ok| == |ds| && i < |ds|
  {
    Dep(ds, i, k) < |ds| && FinalStatus(ds, ok, Dep(ds, i, k)) == UNINITIALIZED
  }

  /** The k-th dependency on the chain from i cannot be met: it is not registered, has failed or is disabled. */
  ghost predicate Unmet(ds: Drivers, ok: seq<bool>, i: nat, k: nat)
    requires |ok| == |ds| && i < |ds|
  {
    var j := Dep(ds, i, k);
    j == |ds| || FinalStatus(ds, ok, j) == FAILED || FinalStatus(ds, ok, j) == DISABLED
  }

  predicate SameDep(ds: Drivers, i: nat, m: nat, k: nat)
    requires i < |ds|
  {
    Dep(ds, i, m) == Dep(ds, i, k)
  }

  /** The k-th driver on the chain from i has been there before. */
  ghost predicate Cycle(ds: Drivers, i: nat, k: nat)
    requires i < |ds|
  {
    exists m :: 0 <= m < k && SameDep(ds, i, m, k)
  }

  lemma NextOnChain(ds: Drivers, ok: seq<bool>, i: nat, k: nat)
    requires |ok| == |ds| && i < |ds| && Waits(ds, ok, i, k)
    ensures Unmet(ds, ok, i, k + 1) || Waits(ds, ok, i, k + 1)
  {
    LeftOver(ds, ok, Dep(ds, i, k));
    assert Dep(ds, i, k + 1) == Find(ds, ds[Dep(ds, i, k)].dependsOn);
  }

  /** Follows the chain past the drivers on `path`, all distinct, which number at most as many as there are drivers. */
  lemma {:induction false} FollowChain(ds: Drivers, ok: seq<bool>, i: nat, path: seq<nat>) returns (n: nat)
    requires |ok| == |ds| && i < |ds| && path != [] && NoDup(path) && OnChain(ds, ok, i, path)
    ensures 0 < n <= |ds| && forall m :: 0 <= m < n ==> Waits(ds, ok, i, m)
    ensures Unmet(ds, ok, i, n) || Cycle(ds, i, n)
    decreases |ds| - |path|
  {
    n := |path|;
    DistinctBound(path, |ds|);
    NextOnChain(ds, ok, i, n - 1);
    var j := Dep(ds, i, n);
    if j in path {
      var m :| 0 <= m < n && path[m] == j;
      assert SameDep(ds, i, m, n);
    } else if !Unmet(ds, ok, i, n) {
      LongerPath(ds, ok, i, path);
      DistinctBound(path + [j], |ds|);
      n := FollowChain(ds, ok, i, path + [j]);
    }
  }

  lemma LongerPath(ds: Drivers, ok: seq<bool>, i: nat, path: seq<nat>)
    requires |ok| == |ds| && i < |ds| && NoDup(path) && OnChain(ds, ok, i, path)
    requires Waits(ds, ok, i, |path|) && Dep(ds, i, |path|) !in path
    ensures NoDup(path + [Dep(ds, i, |path|)]) && OnChain(ds, ok, i, path + [Dep(ds, i, |path|)])
  {
    var l := path + [Dep(ds, i, |path|)];
    forall m, n | 0 <= m < n < |l|
      ensures l[m] != l[n]
    {
      assert l[m] in path;
    }
  }

  /** The path names the first drivers on the chain from i, all left uninitialised. */
  ghost predicate OnChain(ds: Drivers, ok: seq<bool>, i: nat, path: seq<nat>)
    requires |ok| == |ds| && i < |ds|
  {
    forall m :: 0 <= m < |path| ==> path[m] == Dep(ds, i, m) && path[m] < |ds| && Waits(ds, ok, i, m)
  }

  /** Pigeonhole: distinct numbers below n are at most n. */
  lemma {:induction false} DistinctBound(l: seq<nat>, n: nat)
    requires NoDup(l) && forall i :: 0 <= i < |l| ==> l[i] < n
    ensures |l| <= n
    decreases n
  {
    if n > 0 {
      if n - 1 in l {
        var r := Remove(l, n - 1);
        RemoveFacts(l, n - 1);
        assert forall i :: 0 <= i < |r| ==> r[i] in r;
        DistinctBound(r, n - 1);
      } else {
        assert forall i :: 0 <= i < |l| ==> l[i] in l;
        DistinctBound(l, n - 1);
      }
    }
  }

  /** Every driver left uninitialised has a missing, failed or disabled driver on its chain of dependencies, or the
      chain runs into a cycle, with only uninitialised drivers in between. */
  lemma LeftOverCause(ds: Drivers, ok: seq<bool>, i: nat) returns (k: nat)
    requires |ok| == |ds| && i < |ds| && FinalStatus(ds, ok, i) == UNINITIALIZED
    ensures 0 < k <= |ds| && forall m :: 0 <= m < k ==> Waits(ds, ok, i, m)
    ensures Unmet(ds, ok, i, k) || Cycle(ds, i, k)
  {
    k := FollowChain(ds, ok, i, [i]);
  }

  // ---------------------------------------------------------------- counting

  function CountUninit(ds: Drivers): (n: nat)
    ensures n <= |ds|
  {
    if ds == [] then 0 else CountUninit(ds[..|ds| - 1]) + (if ds[|ds| - 1].status == UNINITIALIZED then 1 else 0)
  }

  lemma {:induction false} CountSet(ds: Drivers, i: nat, s: Status)
    requires i < |ds| && ds[i].status == UNINITIALIZED && s != UNINITIALIZED
    ensures CountUninit(ds) == CountUninit(ds[i := ds[i].(status := s)]) + 1
  {
    var t := ds[i := ds[i].(status := s)];
    if i < |ds| - 1 {
      CountSet(ds[..|ds| - 1], i, s);
      assert t[..|ds| - 1] == ds[..|ds| - 1][i := ds[i].(status := s)];
    } else {
      assert t[..|ds| - 1] == ds[..|ds| - 1];
    }
  }

  lemma {:induction false} CountZero(ds: Drivers)
    requires CountUninit(ds) == 0
    ensures forall i :: 0 <= i < |ds| ==> ds[i].status != UNINITIALIZED
  {
    if ds != [] {
      CountZero(ds[..|ds| - 1]);
      assert forall i :: 0 <= i < |ds| - 1 ==> ds[..|ds| - 1][i] == ds[i];
    }
  }

  lemma NoneLeft(ds: Drivers)
    requires CountUninit(ds) == 0
    ensures Closed(ds)
  {
    CountZero(ds);
  }

  // ---------------------------------------------------------------- the registry

  /** In the order of attempts, every driver's dependency was ready to begin with or had been attempted before with
      success. */
  ghost predicate InOrder(ds0: Drivers, ok: seq<bool>, trace: seq<nat>)
    requires |ok| == |ds0|
  {
    forall n :: 0 <= n < |trace| ==>
      trace[n] < |ds0| &&
      (ds0[trace[n]].dependsOn == "" ||
       (var j := Find(ds0, ds0[trace[n]].dependsOn);
        j < |ds0| && (Ready(ds0[j].status) || (ok[j] && j in trace[..n]))))
  }

  class Registry {
    var drivers: Drivers

    ghost predicate Valid()
      reads this
    {
      && |drivers| <= MAX_DRIVERS
      && forall i, j :: 0 <= i < j < |drivers| ==> drivers[i].name != drivers[j].name
    }

    /** driver_registry_init */
    constructor ()
      ensures Valid() && drivers == []
    {
      drivers := [];
    }

    /** driver_register */
    method Register(d: Driver) returns (err: Kerr)
      requires Valid()
      modifies this
      ensures Valid()
      ensures err == (if |old(drivers)| >= MAX_DRIVERS then E_NOMEM
                      else if Find(old(drivers), d.name) < |old(drivers)| then E_EXISTS else E_OK)
      ensures drivers == if err == E_OK then old(drivers) + [d.(status := UNINITIALIZED)] else old(drivers)
    {
      if |drivers| >= MAX_DRIVERS {
        return E_NOMEM;
      }
      for i := 0 to |drivers|
        invariant forall j :: 0 <= j < i ==> drivers[j].name != d.name
      {
        if drivers[i].name == d.name {
          return E_EXISTS;
        }
      }
      drivers := drivers + [d.(status := UNINITIALIZED)];
      return E_OK;
    }

    /** Initialises one driver of the queue if it is due. */
    method Attempt(i: nat, ok: seq<bool>, ghost ds0: Drivers, ghost trace: seq<nat>)
      returns (done: bool, ghost trace': seq<nat>)
      requires i < |drivers| && Progressed(ds0, drivers, ok) && Traced(ds0, drivers, trace) && InOrder(ds0, ok, trace)
      modifies this
      ensures |drivers| == |ds0| && Progressed(ds0, drivers, ok) && Traced(ds0, drivers, trace')
      ensures InOrder(ds0, ok, trace')
      ensures done == old(drivers[i].status == UNINITIALIZED && DependenciesMet(drivers, i))
      ensures CountUninit(drivers) + (if done then 1 else 0) == CountUninit(old(drivers))
      ensures drivers == if done then Set(old(drivers), ok, i) else old(drivers)
      ensures trace' == if done then trace + [i] else trace
    {
      trace' := trace;
      if drivers[i].status != UNINITIALIZED {
        return false, trace;
      }
      if !DependenciesMet(drivers, i) {
        return false, trace;
      }
      AttemptIsReached(ds0, drivers, ok, i);
      AttemptInOrder(ds0, drivers, ok, trace, i);
      var status := if ok[i] then INITIALIZED else FAILED;
      CountSet(drivers, i, status);
      TracedStep(ds0, drivers, trace, i, status);
      drivers := drivers[i := drivers[i].(status := status)];
      return true, trace + [i];
    }

    /** The visit of one place of the queue. */
    method Visit(q: seq<nat>, n: nat, ok: seq<bool>, ghost ds0: Drivers, ghost before: Drivers, ghost trace: seq<nat>,
                 ghost now: seq<nat>)
      returns (done: bool, ghost now': seq<nat>)
      requires n < |q| && StableQueue(ds0, q, |ds0|) && Progressed(ds0, drivers, ok)
      requires Traced(ds0, drivers, now) && InOrder(ds0, ok, now) && MidPass(ds0, before, drivers, trace, now, q, n)
      modifies this
      ensures |drivers| == |ds0| && Progressed(ds0, drivers, ok)
      ensures Traced(ds0, drivers, now') && InOrder(ds0, ok, now')
      ensures CountUninit(drivers) + (if done then 1 else 0) == CountUninit(old(drivers))
      ensures !done ==> drivers == old(drivers)
      ensures MidPass(ds0, before, drivers, trace, now', q, n + 1)
    {
      ghost var ds := drivers;
      done, now' := Attempt(q[n], ok, ds0, now);
      MidStep(ds0, before, ds, drivers, trace, now, now', q, n, ok);
    }

    /** One pass over the queue: it attempts in queue order, and attempts at least every driver that was due when it
        began. */
    method Pass(q: seq<nat>, ok: seq<bool>, ghost ds0: Drivers, ghost trace: seq<nat>)
      returns (count: nat, ghost trace': seq<nat>)
      requires StableQueue(ds0, q, |ds0|) && Progressed(ds0, drivers, ok)
      requires Traced(ds0, drivers, trace) && InOrder(ds0, ok, trace)
      modifies this
      ensures |drivers| == |ds0| && Progressed(ds0, drivers, ok) && Traced(ds0, drivers, trace')
      ensures InOrder(ds0, ok, trace') && InQueueOrder(ds0, trace, trace')
      ensures CountUninit(drivers) + count == CountUninit(old(drivers))
      ensures count == 0 ==> Closed(drivers)
      ensures forall i: nat :: Due(old(drivers), i) ==> i < |drivers| && drivers[i].status != UNINITIALIZED
    {
      ghost var before := drivers;
      count := 0;
      trace' := trace;
      for n := 0 to |q|
        invariant |drivers| == |ds0| == |q|
        invariant Progressed(ds0, drivers, ok) && Traced(ds0, drivers, trace') && InOrder(ds0, ok, trace')
        invariant CountUninit(drivers) + count == CountUninit(before)
        invariant count == 0 ==> drivers == before
        invariant MidPass(ds0, before, drivers, trace, trace', q, n)
      {
        var done;
        done, trace' := Visit(q, n, ok, ds0, before, trace, trace');
        if done {
          count := count + 1;
        }
      }
      PassComplete(before, drivers, q);
    }

    /** driver_init_all. The statuses end at the least fixpoint whatever the priorities, the attempts respect the
        dependencies, and the pass limit is not what ends the loop. */
    method InitAll(ok: seq<bool>) returns (passes: nat, ghost trace: seq<nat>, ghost marks: seq<nat>)
      requires Valid() && |ok| == |drivers|
      modifies this
      ensures |drivers| == |old(drivers)|
      ensures forall i :: 0 <= i < |drivers| ==>
                drivers[i] == old(drivers)[i].(status := FinalStatus(old(drivers), ok, i))
      ensures InOrder(old(drivers), ok, trace) && Traced(old(drivers), drivers, trace)
      ensures NoDup(trace) && forall i: nat :: i in trace <==> Reached(old(drivers), ok, i)
      ensures passes <= |drivers| && |marks| == passes + 1 && Rounds(old(drivers), trace, marks)
    {
      ghost var ds0 := drivers;
      var q := BuildQueue(drivers);
      passes, trace, marks := Passes(q, ok, ds0);
      FixpointReached(ds0, drivers, ok);
      TraceIsReached(ds0, drivers, ok, trace);
    }

    /** The loop of driver_init_all, which ends with nothing left to attempt. */
    method Passes(q: seq<nat>, ok: seq<bool>, ghost ds0: Drivers)
      returns (passes: nat, ghost trace: seq<nat>, ghost marks: seq<nat>)
      requires drivers == ds0 && |ok| == |ds0| && StableQueue(ds0, q, |ds0|)
      modifies this
      ensures Progressed(ds0, drivers, ok) && InOrder(ds0, ok, trace) && Traced(ds0, drivers, trace) && Closed(drivers)
      ensures passes <= |drivers| && |marks| == passes + 1 && Rounds(ds0, trace, marks)
    {
      var count := 0;
      var max := 2 * |drivers|;
      passes := 0;
      trace, marks := [], [0];
      var progress := true;
      while count < |drivers| && passes < max && progress
        invariant |drivers| == |ds0| && Progressed(ds0, drivers, ok) && Traced(ds0, drivers, trace)
        invariant InOrder(ds0, ok, trace) && StableQueue(ds0, q, |ds0|)
        invariant |marks| == passes + 1 && Rounds(ds0, trace, marks)
        invariant count + CountUninit(drivers) <= |drivers|
        invariant progress ==> passes <= count
        invariant !progress ==> passes <= count + 1 && count < |drivers| && Closed(drivers)
        decreases max - passes
      {
        passes := passes + 1;
        var n;
        ghost var before := trace;
        n, trace := Pass(q, ok, ds0, trace);
        RoundsStep(ds0, before, trace, marks);
        marks := marks + [|trace|];
        count := count + n;
        progress := n > 0;
      }
      if progress {
        NoneLeft(drivers);
      }
    }
  }

  /** Driver i has been attempted. */
  predicate Attempted(ds0: Drivers, ds: Drivers, i: nat) {
    i < |ds0| && i < |ds| && ds0[i].status == UNINITIALIZED && ds[i].status != UNINITIALIZED
  }

  /** The trace names, once each, exactly the drivers that have been attempted. */
  ghost predicate Traced(ds0: Drivers, ds: Drivers, trace: seq<nat>) {
    |ds| == |ds0| && NoDup(trace) && forall i: nat :: i in trace <==> Attempted(ds0, ds, i)
  }

  lemma TracedStep(ds0: Drivers, ds: Drivers, trace: seq<nat>, i: nat, s: Status)
    requires Traced(ds0, ds, trace) && i < |ds| && ds[i] == ds0[i] && ds[i].status == UNINITIALIZED
    requires s != UNINITIALIZED
    ensures Traced(ds0, ds[i := ds[i].(status := s)], trace + [i])
  {
    var ds' := ds[i := ds[i].(status := s)];
    assert i !in trace;
    forall j: nat
      ensures j in trace + [i] <==> Attempted(ds0, ds', j)
    {
      assert Attempted(ds0, ds', j) <==> Attempted(ds0, ds, j) || j == i;
    }
  }

  /** In the end the trace names, once each, exactly the drivers of the least fixpoint. */
  lemma TraceIsReached(ds0: Drivers, ds: Drivers, ok: seq<bool>, trace: seq<nat>)
    requires Progressed(ds0, ds, ok) && Closed(ds) && Traced(ds0, ds, trace)
    ensures forall i: nat :: i in trace <==> Reached(ds0, ok, i)
  {
    forall i: nat
      ensures Attempted(ds0, ds, i) <==> Reached(ds0, ok, i)
    {
      if Reached(ds0, ok, i) {
        var k: nat :| Attemptable(ds0, ok, i, k);
        ClosedIsComplete(ds0, ds, ok, i, k);
      }
    }
  }

  lemma AttemptInOrder(ds0: Drivers, ds: Drivers, ok: seq<bool>, trace: seq<nat>, i: nat)
    requires Progressed(ds0, ds, ok) && Traced(ds0, ds, trace) && InOrder(ds0, ok, trace)
    requires i < |ds| && ds[i].status == UNINITIALIZED && DependenciesMet(ds, i)
    ensures InOrder(ds0, ok, trace + [i])
  {
    AttemptIsReached(ds0, ds, ok, i);
    FindSame(ds0, ds, ds[i].dependsOn);
    var t := trace + [i];
    forall n | 0 <= n < |t|
      ensures t[n] < |ds0|
      ensures ds0[t[n]].dependsOn == "" ||
              (var j := Find(ds0, ds0[t[n]].dependsOn); j < |ds0| && (Ready(ds0[j].status) || (ok[j] && j in t[..n])))
    {
      if n < |trace| {
        assert t[..n] == trace[..n];
      } else {
        assert t[..n] == trace;
      }
    }
  }

  // ---------------------------------------------------------------- the order of the attempts

  /** The drivers after an attempt at i. */
  function Set(ds: Drivers, ok: seq<bool>, i: nat): Drivers
    requires i < |ds| == |ok|
  {
    ds[i := ds[i].(status := if ok[i] then INITIALIZED else FAILED)]
  }

  /** Driver i can be attempted now. */
  predicate Due(ds: Drivers, i: nat) {
    i < |ds| && ds[i].status == UNINITIALIZED && DependenciesMet(ds, i)
  }

  /** ds is ds0 with some uninitialised drivers attempted. */
  ghost predicate Evolved(ds0: Drivers, ds: Drivers) {
    |ds| == |ds0| && forall i {:trigger ds[i]} :: 0 <= i < |ds| ==>
      ds[i].name == ds0[i].name && (ds[i] == ds0[i] ||
          (ds0[i].status == UNINITIALIZED && ds[i].status != UNINITIALIZED))
  }

  /** A driver that was due and has not been attempted still is. */
  lemma DueStays(ds0: Drivers, ds: Drivers, i: nat)
    requires Evolved(ds0, ds) && Due(ds0, i) && ds[i] == ds0[i]
    ensures Due(ds, i)
  {
    FindSame(ds0, ds, ds0[i].dependsOn);
  }

  /** The first n drivers of the queue have been visited: those that were due have been attempted, and the rest of the
      queue is untouched. */
  ghost predicate Visited(ds0: Drivers, ds: Drivers, q: seq<nat>, n: nat)
    requires n <= |q| == |ds| == |ds0| && forall i :: 0 <= i < |q| ==> q[i] < |q|
  {
    && (forall m :: 0 <= m < n && Due(ds0, q[m]) ==> ds[q[m]].status != UNINITIALIZED)
    && (forall m :: n <= m < |q| ==> ds[q[m]] == ds0[q[m]])
  }

  lemma VisitStep(before: Drivers, ds: Drivers, ok: seq<bool>, q: seq<nat>, n: nat, ds0: Drivers)
    requires StableQueue(ds0, q, |ds0|) && |before| == |ds| == |ds0| == |ok| && n < |q|
    requires Evolved(before, ds) && Visited(before, ds, q, n)
    ensures var ds' := if Due(ds, q[n]) then Set(ds, ok, q[n]) else ds;
            Evolved(before, ds') && Visited(before, ds', q, n + 1)
  {
    QueueDistinct(ds0, q);
    if Due(before, q[n]) {
      DueStays(before, ds, q[n]);
    }
  }

  lemma QueueDistinct(ds: Drivers, q: seq<nat>)
    requires StableQueue(ds, q, |ds|)
    ensures NoDup(q)
  {
    forall i, j | 0 <= i < j < |q|
      ensures q[i] != q[j]
    {
      assert Before(ds, q[i], q[j]);
    }
  }

  lemma PassComplete(before: Drivers, ds: Drivers, q: seq<nat>)
    requires |before| == |ds| == |q| && (forall i :: 0 <= i < |q| ==>
        q[i] < |q|) && (forall i: nat :: i < |q| ==> i in q)
    requires Visited(before, ds, q, |q|)
    ensures forall i: nat :: Due(before, i) ==> i < |ds| && ds[i].status != UNINITIALIZED
    ensures ds == before ==> Closed(ds)
  {
    forall i: nat | Due(before, i)
      ensures ds[i].status != UNINITIALIZED
    {
      assert i in q;
    }
  }

  /** Entries a and b of the trace are in queue order. */
  predicate OrderedAt(ds: Drivers, trace: seq<nat>, a: nat, b: nat)
    requires a < |trace| && b < |trace|
  {
    trace[a] < |ds| && trace[b] < |ds| && Before(ds, trace[a], trace[b])
  }

  /** What trace' adds to trace is in queue order. */
  ghost predicate InQueueOrder(ds: Drivers, trace: seq<nat>, trace': seq<nat>) {
    trace <= trace' && forall a, b :: |trace| <= a < b < |trace'| ==> OrderedAt(ds, trace', a, b)
  }

  /** That, and everything added comes before the rest of the queue. */
  ghost predicate OrderSoFar(ds: Drivers, trace: seq<nat>, trace': seq<nat>, q: seq<nat>, n: nat)
    requires forall i :: 0 <= i < |q| ==> q[i] < |ds|
  {
    && InQueueOrder(ds, trace, trace')
    && (forall a, m :: |trace| <= a < |trace'| && n <= m < |q| ==> trace'[a] < |ds| && Before(ds, trace'[a], q[m]))
  }

  /** The pass has visited the first n drivers of the queue. */
  ghost predicate MidPass(ds0: Drivers, before: Drivers, ds: Drivers, trace: seq<nat>, trace': seq<nat>, q: seq<nat>,
                          n: nat)
  {
    && n <= |q| == |ds| == |before| == |ds0| && (forall i :: 0 <= i < |q| ==> q[i] < |q|)
    && Evolved(before, ds) && Visited(before, ds, q, n) && OrderSoFar(ds0, trace, trace', q, n)
  }

  lemma OrderStep(ds: Drivers, trace: seq<nat>, trace': seq<nat>, q: seq<nat>, n: nat)
    requires StableQueue(ds, q, |ds|) && n < |q| && OrderSoFar(ds, trace, trace', q, n)
    ensures OrderSoFar(ds, trace, trace', q, n + 1) && OrderSoFar(ds, trace, trace' + [q[n]], q, n + 1)
  {
    var t := trace' + [q[n]];
    forall a, b | |trace| <= a < b < |t|
      ensures OrderedAt(ds, t, a, b)
    {
      if b < |trace'| {
        assert OrderedAt(ds, trace', a, b);
      } else {
        assert Before(ds, trace'[a], q[n]);
      }
    }
  }

  lemma MidStep(ds0: Drivers, before: Drivers, ds: Drivers, ds': Drivers, trace: seq<nat>, now: seq<nat>,
                now': seq<nat>, q: seq<nat>, n: nat, ok: seq<bool>)
    requires StableQueue(ds0, q, |ds0|) && |ok| == |ds0| && n < |q| && MidPass(ds0, before, ds, trace, now, q, n)
    requires ds' == if Due(ds, q[n]) then Set(ds, ok, q[n]) else ds
    requires now' == if Due(ds, q[n]) then now + [q[n]] else now
    ensures MidPass(ds0, before, ds', trace, now', q, n + 1)
  {
    VisitStep(before, ds, ok, q, n, ds0);
    OrderStep(ds0, trace, now, q, n);
  }

  /** The trace falls into passes, which end at the marks, and each pass attempts in queue order. */
  ghost predicate Rounds(ds: Drivers, trace: seq<nat>, marks: seq<nat>) {
    && marks != [] && marks[0] == 0 && marks[|marks| - 1] == |trace|
    && (forall r :: 0 <= r < |marks| ==> marks[r] <= |trace|)
    && (forall r, a, b :: 0 <= r < |marks| - 1 && marks[r] <= a < b < marks[r + 1] ==> OrderedAt(ds, trace, a, b))
  }

  lemma RoundsStep(ds: Drivers, trace: seq<nat>, trace': seq<nat>, marks: seq<nat>)
    requires Rounds(ds, trace, marks) && InQueueOrder(ds, trace, trace')
    ensures Rounds(ds, trace', marks + [|trace'|])
  {
    var ms := marks + [|trace'|];
    forall r, a, b | 0 <= r < |ms| - 1 && ms[r] <= a < b < ms[r + 1]
      ensures OrderedAt(ds, trace', a, b)
    {
      if r < |marks| - 1 {
        assert ms[r] == marks[r] && ms[r + 1] == marks[r + 1];
        assert OrderedAt(ds, trace, a, b);
      } else {
        assert OrderedAt(ds, trace', a, b);
      }
    }
  }
}
