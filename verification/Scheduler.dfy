/** The scheduler's own data: thread records linked into a ring and into a zombie list by their `next` fields.
    Each operation is proved to be the step of module Threads of the same name. */
module Scheduler {
  import opened Common
  import opened Threads

  datatype Tcb = Tcb(info: Info, next: nat)

  type Records = map<nat, Tcb>

  function InfoOf(threads: Records): map<nat, Info>
  {
    map p | p in threads :: threads[p].info
  }

  // ---- links --------------------------------------------------------------------------------------------

  function Succ(s: seq<nat>, i: nat): nat
    requires i < |s|
  {
    if i + 1 < |s| then s[i + 1] else s[0]
  }

  ghost predicate LinkAt(threads: Records, ring: seq<nat>, i: nat)
    requires i < |ring|
  {
    ring[i] in threads && threads[ring[i]].next == Succ(ring, i)
  }

  /** The `next` links close the ring in this order. */
  ghost predicate Cycle(threads: Records, ring: seq<nat>)
  {
    forall i :: 0 <= i < |ring| ==> LinkAt(threads, ring, i)
  }

  ghost predicate ChainAt(threads: Records, zombies: seq<nat>, i: nat)
    requires i < |zombies|
  {
    zombies[i] in threads && threads[zombies[i]].next == if i + 1 < |zombies| then zombies[i + 1] else 0
  }

  /** The `next` links lead from `head` through these records to null. */
  ghost predicate Chain(threads: Records, zombies: seq<nat>, head: nat)
  {
    && head == (if zombies == [] then 0 else zombies[0])
    && forall i :: 0 <= i < |zombies| ==> ChainAt(threads, zombies, i)
  }

  /** The same records with the same links. */
  ghost predicate SameLinks(t: Records, u: Records)
  {
    t.Keys == u.Keys && forall p :: p in t ==> t[p].next == u[p].next
  }

  lemma SameLinksKeep(t: Records, u: Records, ring: seq<nat>, zombies: seq<nat>, head: nat)
    requires SameLinks(t, u) && Cycle(t, ring) && Chain(t, zombies, head)
    ensures Cycle(u, ring) && Chain(u, zombies, head)
  {
    forall i | 0 <= i < |ring| ensures LinkAt(u, ring, i) { assert LinkAt(t, ring, i); }
    forall i | 0 <= i < |zombies| ensures ChainAt(u, zombies, i) { assert ChainAt(t, zombies, i); }
  }

  lemma CycleRotate(threads: Records, ring: seq<nat>, k: nat)
    requires Cycle(threads, ring) && k <= |ring|
    ensures Cycle(threads, Rotate(ring, k))
  {
    var r, n := Rotate(ring, k), |ring|;
    forall i | 0 <= i < |r| ensures LinkAt(threads, r, i) {
      var j := if i < n - k then i + k else i - (n - k);
      assert r[i] == ring[j] && LinkAt(threads, ring, j);
      if i + 1 < n {
        assert r[i + 1] == ring[if i + 1 < n - k then i + 1 + k else i + 1 - (n - k)];
      }
    }
  }

  /** Unlinking position `k` from the ring: its predecessor takes over its link. */
  lemma UnlinkCycle(threads: Records, ring: seq<nat>, k: nat, x: Tcb, y: Tcb)
    requires Cycle(threads, ring) && k < |ring| && |ring| >= 2 && Distinct(ring)
    ensures Pred(ring, k) in threads && ring[k] in threads && Pred(ring, k) != ring[k]
    ensures x.next == threads[ring[k]].next ==> Cycle(threads[Pred(ring, k) := x][ring[k] := y], Without(ring, k))
  {
    var q := if k == 0 then |ring| - 1 else k - 1;
    assert LinkAt(threads, ring, q) && LinkAt(threads, ring, k);
    assert if q < k then Differ(ring, q, k) else Differ(ring, k, q);
    if x.next == threads[ring[k]].next {
      var t2 := threads[ring[q] := x][ring[k] := y];
      var w := Without(ring, k);
      forall i | 0 <= i < |w| ensures LinkAt(t2, w, i) {
        var j := if i < k then i else i + 1;
        assert w[i] == ring[j] && LinkAt(threads, ring, j);
        assert if j < k then Differ(ring, j, k) else Differ(ring, k, j);
        if j != q { assert if j < q then Differ(ring, j, q) else Differ(ring, q, j); }
      }
    }
  }

  function Pred(ring: seq<nat>, k: nat): nat
    requires k < |ring|
  {
    ring[if k == 0 then |ring| - 1 else k - 1]
  }

  /** Pushing a record on the zombie list. */
  lemma PushChain(threads: Records, zombies: seq<nat>, head: nat, a: nat, x: Tcb, p: nat, y: Tcb)
    requires Chain(threads, zombies, head) && a !in zombies && p !in zombies && y.next == head
    ensures Chain(threads[a := x][p := y], [p] + zombies, p)
  {
    var t2, z := threads[a := x][p := y], [p] + zombies;
    forall i | 0 <= i < |z| ensures ChainAt(t2, z, i) {
      if i > 0 {
        assert ChainAt(threads, zombies, i - 1);
        assert zombies[i - 1] in zombies;
      }
    }
  }

  /** The four writes that bury position `k` give the buried view. */
  lemma BuryRecords(v: View, threads: Records, head: nat, k: nat, code: int, x: Tcb, y: Tcb)
    requires Wf(v) && v.info == InfoOf(threads) && Cycle(threads, v.ring) && Chain(threads, v.zombies, head)
    requires k < |v.ring| && v.info[v.ring[k]].id != 0
    requires y == Tcb(v.info[v.ring[k]].(state := Zombie, exitCode := code), head)
    ensures Pred(v.ring, k) in threads && v.ring[k] in threads
    ensures x == threads[Pred(v.ring, k)].(next := threads[v.ring[k]].next) ==>
              var t2 := threads[Pred(v.ring, k) := x][v.ring[k] := y];
              && Cycle(t2, Without(v.ring, k)) && Chain(t2, [v.ring[k]] + v.zombies, v.ring[k])
              && InfoOf(t2) == Bury(v, k, code).info
  {
    TwoSystemThreads(v);
    UnlinkCycle(threads, v.ring, k, x, y);
    assert Pred(v.ring, k) in v.ring && v.ring[k] in v.ring;
    if x == threads[Pred(v.ring, k)].(next := threads[v.ring[k]].next) {
      PushChain(threads, v.zombies, head, Pred(v.ring, k), x, v.ring[k], y);
    }
  }

  /** Linking a new record behind the first. */
  lemma AddRecords(v: View, threads: Records, head: nat, t: nat, x: Tcb, y: Tcb)
    requires Wf(v) && v.info == InfoOf(threads) && Cycle(threads, v.ring) && Chain(threads, v.zombies, head)
    requires t != 0 && t !in threads
    ensures v.ring[0] in threads
    ensures x == Tcb(Info(v.nextId, Ready, 0, 0), threads[v.ring[0]].next) && y == threads[v.ring[0]].(next := t) ==>
              var t2 := threads[t := x][v.ring[0] := y];
              && Cycle(t2, [v.ring[0], t] + v.ring[1..]) && Chain(t2, v.zombies, head)
              && InfoOf(t2) == Add(v, t).info
  {
    var ring := v.ring;
    assert LinkAt(threads, ring, 0);
    if x == Tcb(Info(v.nextId, Ready, 0, 0), threads[ring[0]].next) && y == threads[ring[0]].(next := t) {
      var t2 := threads[t := x][ring[0] := y];
      var r := [ring[0], t] + ring[1..];
      forall i | 0 <= i < |r| ensures LinkAt(t2, r, i) {
        if i >= 2 {
          assert r[i] == ring[i - 1] && LinkAt(threads, ring, i - 1) && Differ(ring, 0, i - 1);
        }
      }
      forall i | 0 <= i < |v.zombies| ensures ChainAt(t2, v.zombies, i) {
        assert ChainAt(threads, v.zombies, i);
        assert ring[0] in ring && v.zombies[i] in v.zombies;
      }
    }
  }

  // ---- the scheduler ------------------------------------------------------------------------------------

  class Scheduler {
    var threads: Records
    var current: nat
    var zombieHead: nat
    var nextId: nat
    const idle: nat
    ghost const kernel: nat
    ghost var ring: seq<nat>
    ghost var zombies: seq<nat>

    ghost function Abstract(): View
      reads this
    {
      View(ring, zombies, InfoOf(threads), kernel, idle, nextId)
    }

    ghost predicate Linked()
      reads this
    {
      Cycle(threads, ring) && Chain(threads, zombies, zombieHead)
    }

    ghost predicate Valid()
      reads this
    {
      Wf(Abstract()) && Linked() && ring[0] == current
    }

    /** The kernel thread runs; the idle thread follows it. Both have id 0. */
    constructor (kernelRecord: nat, idleRecord: nat)
      requires kernelRecord != 0 && idleRecord != 0 && kernelRecord != idleRecord
      ensures Valid() && ring == [kernelRecord, idleRecord] && zombies == []
      ensures kernel == kernelRecord && idle == idleRecord
    {
      current, idle, kernel := kernelRecord, idleRecord, kernelRecord;
      zombieHead, nextId := 0, 1;
      threads := map[kernelRecord := Tcb(Info(0, Ready, 0, 0), idleRecord),
                     idleRecord := Tcb(Info(0, Ready, 0, 0), kernelRecord)];
      ring, zombies := [kernelRecord, idleRecord], [];
      new;
      assert LinkAt(threads, ring, 0) && LinkAt(threads, ring, 1);
      assert Differ(ring, 0, 1);
    }

    /** Walks the ring once from `first` and applies `f` to each record. */
    method ForRing(first: nat, f: Info -> Info, ghost order: seq<nat>)
      requires Cycle(threads, order) && Distinct(order) && order != [] && first == order[0]
      modifies this`threads
      ensures SameLinks(old(threads), threads)
      ensures forall p :: p in threads ==>
                threads[p].info == if p in order then f(old(threads[p]).info) else old(threads[p]).info
    {
      var scan := first;
      ghost var j, before := 0, threads;
      assert LinkAt(before, order, 0);
      while true
        invariant j < |order| && scan == order[j]
        invariant SameLinks(before, threads)
        invariant forall p :: p in threads ==>
                    threads[p].info == if p in order[..j] then f(before[p].info) else before[p].info
        decreases |order| - j
      {
        assert LinkAt(before, order, j);
        assert scan !in order[..j] by {
          forall i | 0 <= i < j ensures order[i] != scan { assert Differ(order, i, j); }
        }
        threads := threads[scan := threads[scan].(info := f(threads[scan].info))];
        assert order[..j + 1] == order[..j] + [scan];
        scan := threads[scan].next;
        j := j + 1;
        if scan == first {
          assert j < |order| ==> Differ(order, 0, j);
          break;
        }
      }
      assert order[..j] == order;
    }

    /** Applies `f` around the ring, starting at position `k` of it. */
    method UpdateAll(first: nat, f: Info -> Info, ghost k: nat)
      requires Wf(Abstract()) && Linked() && k < |ring| && first == ring[k]
      modifies this`threads
      ensures Linked() && Abstract() == UpdateRing(old(Abstract()), f)
    {
      ghost var before, order := threads, Rotate(ring, k);
      CycleRotate(threads, ring, k);
      RotateSame(ring, k);
      ForRing(first, f, order);
      SameLinksKeep(before, threads, ring, zombies, zombieHead);
      UpdatedInfo(before, threads, ring, f);
    }

    /** The first runnable record from `first` on, once around, or 0. */
    method FindRunnable(first: nat, ghost order: seq<nat>) returns (found: nat)
      requires Cycle(threads, order) && Distinct(order) && order != [] && first == order[0] && 0 !in order
      ensures var k := FirstRunnable(Abstract(), order);
              found == if k < |order| then order[k] else 0
    {
      var scan := first;
      ghost var j := 0;
      while true
        invariant j < |order| && scan == order[j]
        invariant forall i :: 0 <= i < j ==> !Runnable(Abstract(), order[i])
        decreases |order| - j
      {
        assert LinkAt(threads, order, j);
        if threads[scan].info.state == Ready && scan != idle {
          FirstRunnableAt(Abstract(), order, j);
          return scan;
        }
        scan := threads[scan].next;
        j := j + 1;
        if scan == first {
          assert j < |order| ==> Differ(order, 0, j);
          FirstRunnableAt(Abstract(), order, j);
          return 0;
        }
      }
    }

    /** The next thread to run: the first runnable one from `first` on, else the idle thread. */
    method ChooseNext(first: nat, prev: nat) returns (next: nat)
      requires Wf(Abstract()) && Linked() && first == Rotate(ring, 1)[0]
      requires prev in ring || prev in zombies
      ensures var order := Rotate(ring, 1);
              var k := FirstRunnable(Abstract(), order);
              next == if k < |order| then order[k] else idle
    {
      ghost var order := Rotate(ring, 1);
      CycleRotate(threads, ring, 1);
      RotateSame(ring, 1);
      next := FindRunnable(first, order);
      if next == 0 {
        assert prev in InfoOf(threads);
        NoneRunnable(Abstract(), order);
        if threads[prev].info.state == Ready { next := prev; } else { next := idle; }
      }
    }

    /** Switches to the thread at position `k` of the ring. */
    method SwitchTo(next: nat, prev: nat, ghost k: nat)
      requires Wf(Abstract()) && Linked() && prev == current && k < |ring| && next == ring[k]
      modifies this`current, this`ring
      ensures Valid() && Abstract() == old(Abstract()).(ring := Rotate(old(ring), k))
    {
      RotateKeeps(Abstract(), k);
      CycleRotate(threads, ring, k);
      if next != prev { current := next; }
      ring := Rotate(ring, k);
    }

    /** The body of `yield`, with the scan starting behind `start`: the running thread itself, or the idle thread
        when the running thread `prev` has just become a zombie. */
    method Reschedule(start: nat, prev: nat)
      requires Wf(Abstract()) && Linked() && ring[0] == start && prev == current
      requires prev == start || prev in zombies
      modifies this`threads, this`current, this`ring
      ensures Valid() && Abstract() == Yield(old(Abstract()))
    {
      ghost var v := Abstract();
      assert LinkAt(threads, ring, 0);
      var first := threads[start].next;
      UpdateAll(first, WakeExpired, if |ring| > 1 then 1 else 0);
      UpdateKeeps(v, WakeExpired);
      var next := ChooseNext(first, prev);
      YieldTurns(v);
      TurnTarget(v);
      SwitchTo(next, prev, Turn(v));
    }

    method DoYield()
      requires Valid()
      modifies this`threads, this`current, this`ring
      ensures Valid() && Abstract() == Yield(old(Abstract()))
    {
      Reschedule(current, current);
    }

    /** The timer interrupt: counts every sleeper down, then yields. */
    method TimerHandler()
      requires Valid()
      modifies this`threads, this`current, this`ring
      ensures Valid() && Abstract() == Yield(UpdateRing(old(Abstract()), CountDown))
    {
      UpdateKeeps(Abstract(), CountDown);
      UpdateAll(current, CountDown, 0);
      Reschedule(current, current);
    }

    method WakeBlocked()
      requires Valid()
      modifies this`threads
      ensures Valid() && Abstract() == UpdateRing(old(Abstract()), Unblock)
    {
      UpdateKeeps(Abstract(), Unblock);
      UpdateAll(current, Unblock, 0);
    }

    /** Puts the running thread to sleep or blocks it, then yields. */
    method Park(state: State, ticks: nat)
      requires Valid() && !state.Zombie?
      modifies this`threads, this`current, this`ring
      ensures Valid() && Abstract() == Yield(SetCurrent(old(Abstract()), state, ticks))
    {
      ghost var v, before := Abstract(), threads;
      SetCurrentKeeps(v, state, ticks);
      assert current in v.info;
      var info := threads[current].info.(state := state, sleepTicks := ticks);
      threads := threads[current := threads[current].(info := info)];
      SameLinksKeep(before, threads, ring, zombies, zombieHead);
      assert InfoOf(threads) == SetCurrent(v, state, ticks).info;
      Reschedule(current, current);
    }

    method ThreadSleep(ms: nat)
      requires Valid()
      modifies this`threads, this`current, this`ring
      ensures Valid() && Abstract() == Yield(SetCurrent(old(Abstract()), Sleeping, SleepTicks(ms)))
    {
      var ticks := ms / 10;
      if ticks == 0 { ticks := 1; }
      Park(Sleeping, ticks);
    }

    method Block()
      requires Valid()
      modifies this`threads, this`current, this`ring
      ensures Valid()
      ensures Abstract() == Yield(SetCurrent(old(Abstract()), Blocked, old(Abstract()).info[old(ring)[0]].sleepTicks))
    {
      assert current in InfoOf(threads);
      Park(Blocked, threads[current].info.sleepTicks);
    }

    /** Links the new record `t`, unused memory, behind the running thread; 0 means creation failed. */
    method ThreadAdd(t: nat)
      requires Valid() && (t != 0 ==> t !in threads)
      modifies this`threads, this`ring, this`nextId
      ensures Valid() && Abstract() == Add(old(Abstract()), t)
    {
      if t != 0 {
        ghost var v := Abstract();
        AddKeeps(v, t);
        assert current in v.info;
        var x, y := Tcb(Info(nextId, Ready, 0, 0), threads[current].next), threads[current].(next := t);
        AddRecords(v, threads, zombieHead, t, x, y);
        threads := threads[t := x];
        threads := threads[current := y];
        nextId := NextId(nextId);
        ring := [ring[0], t] + ring[1..];
        assert Abstract() == Add(v, t);
      }
    }

    /** Unlinks `p`, at position `k`, from behind `pred` and pushes it on the zombie list. */
    method BuryAt(pred: nat, p: nat, code: int, ghost k: nat)
      requires Wf(Abstract()) && Linked() && k < |ring| && p == ring[k] && pred == Pred(ring, k)
      requires p in threads && threads[p].info.id != 0
      modifies this`threads, this`ring, this`zombies, this`zombieHead
      ensures Wf(Abstract()) && Linked() && Abstract() == Bury(old(Abstract()), k, code)
    {
      ghost var v := Abstract();
      BuryKeeps(v, k, code);
      assert pred in v.ring && pred in v.info;
      var x := threads[pred].(next := threads[p].next);
      var y := Tcb(threads[p].info.(state := Zombie, exitCode := code), zombieHead);
      BuryRecords(v, threads, zombieHead, k, code, x, y);
      threads := threads[pred := x];
      threads := threads[p := y];
      zombieHead := p;
      ring, zombies := Without(ring, k), [p] + zombies;
    }

    /** The first thread with this id behind the running one, and its predecessor; 0 if there is none. */
    method FindThread(id: nat) returns (prev: nat, curr: nat, ghost k: nat)
      requires Valid()
      ensures k == FindId(Abstract(), id, 1)
      ensures k < |ring| ==> k > 0 && curr == ring[k] && prev == Pred(ring, k)
      ensures k == |ring| ==> curr == 0
    {
      ghost var v := Abstract();
      TwoSystemThreads(v);
      assert LinkAt(threads, ring, 0);
      prev, curr, k := current, threads[current].next, 1;
      while true
        invariant 1 <= k < |ring| && curr == ring[k] && prev == ring[k - 1]
        invariant forall i :: 1 <= i < k ==> v.info[ring[i]].id != id
        decreases |ring| - k
      {
        assert LinkAt(threads, ring, k) && curr in v.info;
        if threads[curr].info.id == id {
          FindIdAt(v, id, 1, k);
          return;
        }
        prev := curr;
        curr := threads[curr].next;
        k := k + 1;
        if curr == current {
          assert k < |ring| ==> Differ(ring, 0, k);
          FindIdAt(v, id, 1, k);
          curr := 0;
          return;
        }
      }
    }

    /** Kills the first thread behind the running one that has this id, unless it is protected. */
    method ThreadKill(id: nat) returns (found: bool)
      requires Valid()
      modifies this`threads, this`ring, this`zombies, this`zombieHead
      ensures Valid() && Abstract() == Kill(old(Abstract()), id)
      ensures found <==> Abstract() != old(Abstract())
    {
      ghost var v := Abstract();
      KillLaw(v, id);
      assert current in v.info && idle in v.info;
      if id == threads[current].info.id || id == threads[idle].info.id || id == 0 { return false; }
      var prev, curr, k := FindThread(id);
      if curr == 0 { return false; }
      assert curr in v.ring && curr in v.info;
      BuryAt(prev, curr, -1, k);
      return true;
    }

    /** The record whose link leads to the running thread. */
    method FindPred(self: nat) returns (prev: nat)
      requires Valid() && self == current
      ensures prev == Pred(ring, 0)
    {
      prev := self;
      ghost var j := 0;
      assert LinkAt(threads, ring, 0);
      while threads[prev].next != self
        invariant j < |ring| && prev == ring[j] && prev in threads && LinkAt(threads, ring, j)
        decreases |ring| - j
      {
        prev := threads[prev].next;
        j := j + 1;
        assert LinkAt(threads, ring, j);
      }
      assert j + 1 < |ring| ==> Differ(ring, 0, j + 1);
    }

    /** Ends the running thread; the kernel panics if it is a system thread. */
    method ThreadExit(code: int) returns (panicked: bool)
      requires Valid()
      modifies this`threads, this`current, this`ring, this`zombies, this`zombieHead
      ensures panicked <==> !MayExit(old(Abstract()))
      ensures !panicked ==> Valid() && Abstract() == Exit(old(Abstract()), code)
    {
      ghost var v := Abstract();
      var self := current;
      assert self in v.info;
      if threads[self].info.id == 0 || self == idle { return true; }
      var prev := FindPred(self);
      BuryAt(prev, self, code, 0);
      StartAtIdle();
      Reschedule(idle, self);
      return false;
    }

    /** Names the ring from the idle thread on. */
    ghost method StartAtIdle()
      requires Wf(Abstract()) && Linked()
      modifies this`ring
      ensures Wf(Abstract()) && Linked() && ring[0] == idle
      ensures Abstract() == old(Abstract()).(ring := Rotate(old(ring), IndexOf(old(ring), idle)))
    {
      var k := IndexOf(ring, idle);
      RotateKeeps(Abstract(), k);
      CycleRotate(threads, ring, k);
      ring := Rotate(ring, k);
    }

    /** Frees every zombie; each link is read before its record is freed. */
    method CleanupZombies()
      requires Valid()
      modifies this`threads, this`zombies, this`zombieHead
      ensures Valid() && Abstract() == Reap(old(Abstract()))
    {
      ghost var v := Abstract();
      ReapLaw(v);
      var curr := zombieHead;
      zombieHead := 0;
      assert forall i :: 0 <= i < |zombies| ==> zombies[i] in v.info;
      FreeChain(curr, zombies);
      ReapRecords(v, old(threads), threads);
      zombies := [];
    }

    method FreeChain(head: nat, ghost zs: seq<nat>)
      requires Chain(threads, zs, head) && Distinct(zs) && forall i :: 0 <= i < |zs| ==> zs[i] != 0
      modifies this`threads
      ensures forall p :: p in threads <==> p in old(threads) && p !in zs
      ensures forall p :: p in threads ==> threads[p] == old(threads)[p]
    {
      ghost var before, j := threads, 0;
      var curr := head;
      while curr != 0
        invariant j <= |zs| && curr == if j < |zs| then zs[j] else 0
        invariant forall p :: p in threads <==> p in before && p !in zs[..j]
        invariant forall p :: p in threads ==> threads[p] == before[p]
        decreases |zs| - j
      {
        assert ChainAt(before, zs, j);
        assert curr !in zs[..j] by {
          forall i | 0 <= i < j ensures zs[i] != curr { assert Differ(zs, i, j); }
        }
        assert zs[..j + 1] == zs[..j] + [curr];
        var next := threads[curr].next;
        threads := threads - {curr};
        curr := next;
        j := j + 1;
      }
      assert zs[..j] == zs;
    }
  }

  lemma ReapRecords(v: View, before: Records, after: Records)
    requires Wf(v) && v.info == InfoOf(before) && Cycle(before, v.ring)
    requires forall p :: p in after <==> p in before && p !in v.zombies
    requires forall p :: p in after ==> after[p] == before[p]
    ensures InfoOf(after) == Reap(v).info && Cycle(after, v.ring)
  {
    forall i | 0 <= i < |v.ring| ensures LinkAt(after, v.ring, i) {
      assert LinkAt(before, v.ring, i) && v.ring[i] in v.ring;
    }
  }

  lemma TwoSystemThreads(v: View)
    requires Wf(v)
    ensures |v.ring| >= 2
  {
    var i, j := IndexOf(v.ring, v.kernel), IndexOf(v.ring, v.idle);
  }

  lemma {:induction false} FindIdAt(v: View, id: nat, from: nat, k: nat)
    requires from <= k <= |v.ring| && forall p :: p in v.ring ==> p in v.info
    requires (forall i :: from <= i < k ==> v.info[v.ring[i]].id != id) && (k < |v.ring| ==> v.info[v.ring[k]].id == id)
    ensures FindId(v, id, from) == k
  {
  }

  lemma TurnTarget(v: View)
    requires v.ring != [] && v.idle in v.ring
    ensures Turn(v) < |v.ring|
    ensures var order := Rotate(v.ring, 1);
            var k := FirstRunnable(UpdateRing(v, WakeExpired), order);
            v.ring[Turn(v)] == if k < |order| then order[k] else v.idle
  {
  }

  lemma UpdatedInfo(before: Records, after: Records, ring: seq<nat>, f: Info -> Info)
    requires SameLinks(before, after)
    requires forall p :: p in after ==> after[p].info == if p in ring then f(before[p].info) else before[p].info
    ensures InfoOf(after)
            == map p | p in InfoOf(before) :: if p in ring then f(InfoOf(before)[p]) else InfoOf(before)[p]
  {
  }

  lemma {:induction false} FirstRunnableAt(v: View, order: seq<nat>, k: nat)
    requires k <= |order| && (forall i :: 0 <= i < k ==> !Runnable(v, order[i]))
    requires k < |order| ==> Runnable(v, order[k])
    ensures FirstRunnable(v, order) == k
  {
  }

  lemma NoneRunnable(v: View, order: seq<nat>)
    requires FirstRunnable(v, order) == |order|
    ensures forall p :: p in order && p in v.info && v.info[p].state.Ready? ==> p == v.idle
  {
    forall p | p in order && p in v.info && v.info[p].state.Ready? ensures p == v.idle {
      var i :| 0 <= i < |order| && order[i] == p;
      assert !Runnable(v, order[i]);
    }
  }

  /** Every run of the operations is a run of the steps. */
  method Run(s: Scheduler, ops: seq<Op>)
    requires s.Valid() && CanRun(s.Abstract(), ops)
    modifies s
    ensures s.Valid() && s.Abstract() == RunEnd(old(s.Abstract()), ops)
  {
    assert ops[0..] == ops;
    for i := 0 to |ops|
      invariant s.Valid() && CanRun(s.Abstract(), ops[i..])
      invariant RunEnd(s.Abstract(), ops[i..]) == RunEnd(old(s.Abstract()), ops)
    {
      ghost var v := s.Abstract();
      assert ops[i..][0] == ops[i] && ops[i..][1..] == ops[i + 1..];
      DoStep(s, ops[i]);
    }
  }

  method DoStep(s: Scheduler, op: Op)
    requires s.Valid() && Enabled(s.Abstract(), op)
    modifies s
    ensures s.Valid() && s.Abstract() == Step(old(s.Abstract()), op)
  {
    match op {
      case AddOp(t) => s.ThreadAdd(t);
      case YieldOp => s.DoYield();
      case KillOp(id) => var _ := s.ThreadKill(id);
      case ExitOp(code) => var _ := s.ThreadExit(code);
      case TickOp => s.TimerHandler();
      case WakeOp => s.WakeBlocked();
      case SleepOp(ms) => s.ThreadSleep(ms);
      case BlockOp => s.Block();
      case ReapOp => s.CleanupZombies();
    }
  }
}
