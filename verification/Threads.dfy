/** What the scheduler does, step by step, on the list of runnable threads and the list of zombies.
    Threads are named by the addresses of their records. */
module Threads {
  import opened Common

  datatype State = Running | Ready | Sleeping | Blocked | Zombie

  datatype Info = Info(id: nat, state: State, sleepTicks: nat, exitCode: int)

  /** The run ring, starting at the running thread and following the links; the zombie list from its head;
      and what is known of each thread. */
  datatype View = View(ring: seq<nat>, zombies: seq<nat>, info: map<nat, Info>,
                       kernel: nat, idle: nat, nextId: nat)

  // ---- sequences ----------------------------------------------------------------------------------------

  ghost predicate Differ(s: seq<nat>, i: nat, j: nat)
    requires i < |s| && j < |s|
  {
    s[i] != s[j]
  }

  ghost predicate Distinct(s: seq<nat>)
  {
    forall i, j :: 0 <= i < j < |s| ==> Differ(s, i, j)
  }

  function IndexOf(s: seq<nat>, x: nat): (k: nat)
    requires x in s
    ensures k < |s| && s[k] == x
  {
    if s[0] == x then 0 else 1 + IndexOf(s[1..], x)
  }

  function Rotate(s: seq<nat>, k: nat): seq<nat>
    requires k <= |s|
  {
    s[k..] + s[..k]
  }

  function Without(s: seq<nat>, k: nat): seq<nat>
    requires k < |s|
  {
    s[..k] + s[k + 1..]
  }

  lemma RotateSame(s: seq<nat>, k: nat)
    requires k <= |s|
    ensures forall x :: x in Rotate(s, k) <==> x in s
    ensures Distinct(s) ==> Distinct(Rotate(s, k))
  {
    var r := Rotate(s, k);
    assert s == s[..k] + s[k..];
    if Distinct(s) {
      forall i, j | 0 <= i < j < |r| ensures Differ(r, i, j) {
        var i', j' := if i < |s| - k then i + k else i - (|s| - k), if j < |s| - k then j + k else j - (|s| - k);
        assert r[i] == s[i'] && r[j] == s[j'];
        assert if i' < j' then Differ(s, i', j') else Differ(s, j', i');
      }
    }
  }

  lemma WithoutSame(s: seq<nat>, k: nat)
    requires k < |s| && Distinct(s)
    ensures Distinct(Without(s, k)) && forall x :: x in Without(s, k) <==> x in s && x != s[k]
  {
    var w := Without(s, k);
    forall i, j | 0 <= i < j < |w| ensures Differ(w, i, j) {
      assert Differ(s, if i < k then i else i + 1, if j < k then j else j + 1);
    }
    forall x | x in w ensures x in s && x != s[k] {
      var i :| 0 <= i < |w| && w[i] == x;
      if i < k { assert Differ(s, i, k); } else { assert s[i + 1] == x && Differ(s, k, i + 1); }
    }
    forall x | x in s && x != s[k] ensures x in w {
      var i :| 0 <= i < |s| && s[i] == x;
      assert w[if i < k then i else i - 1] == x;
    }
  }

  // ---- the invariant ------------------------------------------------------------------------------------

  /** Ring and zombie list hold every thread record exactly once between them; the kernel and idle threads are
      in the ring; nobody in the ring is a zombie and everybody in the zombie list is. */
  ghost predicate Wf(v: View)
  {
    && Distinct(v.ring) && Distinct(v.zombies)
    && (forall p :: p in v.info <==> p in v.ring || p in v.zombies)
    && (forall p :: p in v.ring ==> p !in v.zombies)
    && 0 !in v.info
    && v.kernel in v.ring && v.idle in v.ring && v.kernel != v.idle
    && v.info[v.kernel].id == 0 && v.info[v.idle].id == 0
    && (forall p :: p in v.ring ==> !v.info[p].state.Zombie?)
    && (forall p :: p in v.zombies ==> v.info[p].state.Zombie?)
  }

  // ---- steps --------------------------------------------------------------------------------------------

  /** Applies `f` to every thread of the ring. */
  function UpdateRing(v: View, f: Info -> Info): View
  {
    v.(info := map p | p in v.info :: if p in v.ring then f(v.info[p]) else v.info[p])
  }

  function WakeExpired(i: Info): Info
  {
    if i.state.Sleeping? && i.sleepTicks == 0 then i.(state := Ready) else i
  }

  function CountDown(i: Info): Info
  {
    if i.state.Sleeping? then
      var ticks := if i.sleepTicks > 0 then i.sleepTicks - 1 else 0;
      i.(sleepTicks := ticks, state := if ticks == 0 then Ready else Sleeping)
    else i
  }

  function Unblock(i: Info): Info
  {
    if i.state.Blocked? then i.(state := Ready) else i
  }

  predicate Runnable(v: View, p: nat)
  {
    p in v.info && v.info[p].state.Ready? && p != v.idle
  }

  /** The position of the first runnable thread, or the length. */
  function FirstRunnable(v: View, order: seq<nat>): (k: nat)
    ensures k <= |order| && (k < |order| ==> Runnable(v, order[k]))
    ensures forall i :: 0 <= i < k ==> !Runnable(v, order[i])
  {
    if order == [] || Runnable(v, order[0]) then 0 else 1 + FirstRunnable(v, order[1..])
  }

  /** `yield` from the first thread of the ring: wakes expired sleepers, then runs the next runnable thread in
      ring order, the first one last, and the idle thread if there is none. */
  function Yield(v: View): View
    requires v.ring != [] && v.idle in v.ring
  {
    var w := UpdateRing(v, WakeExpired);
    var order := Rotate(v.ring, 1);
    var k := FirstRunnable(w, order);
    w.(ring := if k < |order| then Rotate(order, k) else Rotate(v.ring, IndexOf(v.ring, v.idle)))
  }

  /** Ids are 32-bit numbers. */
  function NextId(id: nat): nat
  {
    (id + 1) % TWO_32
  }

  /** Links a new thread behind the running one; address 0 stands for a failed creation. */
  function Add(v: View, t: nat): View
    requires v.ring != []
  {
    if t == 0 then v
    else v.(ring := [v.ring[0], t] + v.ring[1..], info := v.info[t := Info(v.nextId, Ready, 0, 0)],
            nextId := NextId(v.nextId))
  }

  /** Moves the thread at position `k` of the ring to the head of the zombie list. */
  function Bury(v: View, k: nat, code: int): View
    requires k < |v.ring| && v.ring[k] in v.info
  {
    var p := v.ring[k];
    v.(ring := Without(v.ring, k), zombies := [p] + v.zombies,
       info := v.info[p := v.info[p].(state := Zombie, exitCode := code)])
  }

  /** The position behind the first of the first thread with this id, or the length. */
  function FindId(v: View, id: nat, from: nat): (k: nat)
    requires from <= |v.ring| && forall p :: p in v.ring ==> p in v.info
    ensures from <= k <= |v.ring| && (k < |v.ring| ==> v.info[v.ring[k]].id == id)
    ensures forall i :: from <= i < k ==> v.info[v.ring[i]].id != id
    decreases |v.ring| - from
  {
    if from == |v.ring| || v.info[v.ring[from]].id == id then from else FindId(v, id, from + 1)
  }

  predicate MayKill(v: View, id: nat)
    requires v.ring != [] && v.ring[0] in v.info && v.idle in v.info
  {
    id != v.info[v.ring[0]].id && id != v.info[v.idle].id && id != 0
  }

  function Kill(v: View, id: nat): View
    requires v.ring != [] && v.idle in v.info && forall p :: p in v.ring ==> p in v.info
  {
    if !MayKill(v, id) then v
    else
      var k := FindId(v, id, 1);
      if k < |v.ring| then Bury(v, k, -1) else v
  }

  /** A system thread that exits stops the kernel. */
  predicate MayExit(v: View)
    requires v.ring != [] && v.ring[0] in v.info
  {
    v.info[v.ring[0]].id != 0 && v.ring[0] != v.idle
  }

  /** `thread_exit` through its `yield`: the scan starts behind the idle thread. */
  function Exit(v: View, code: int): View
    requires Wf(v) && MayExit(v)
  {
    var b := Bury(v, 0, code);
    assert v.idle in b.ring by { WithoutSame(v.ring, 0); }
    var r := Rotate(b.ring, IndexOf(b.ring, v.idle));
    assert v.idle in r by { RotateSame(b.ring, IndexOf(b.ring, v.idle)); }
    Yield(b.(ring := r))
  }

  function SetCurrent(v: View, state: State, ticks: nat): View
    requires v.ring != [] && v.ring[0] in v.info
  {
    var p := v.ring[0];
    v.(info := v.info[p := v.info[p].(state := state, sleepTicks := ticks)])
  }

  function SleepTicks(ms: nat): nat
  {
    if ms / 10 == 0 then 1 else ms / 10
  }

  /** Frees every zombie. */
  function Reap(v: View): View
  {
    v.(zombies := [], info := map p | p in v.info && p !in v.zombies :: v.info[p])
  }

  // ---- every step keeps the invariant -------------------------------------------------------------------

  /** The threads of both lists, with multiplicity. */
  ghost function All(v: View): multiset<nat>
  {
    multiset(v.ring) + multiset(v.zombies)
  }

  lemma RotateAll(s: seq<nat>, k: nat)
    requires k <= |s|
    ensures multiset(Rotate(s, k)) == multiset(s)
  {
    assert s == s[..k] + s[k..];
  }

  lemma WithoutAll(s: seq<nat>, k: nat)
    requires k < |s|
    ensures multiset(Without(s, k)) + multiset{s[k]} == multiset(s)
  {
    assert s == s[..k] + [s[k]] + s[k + 1..];
  }

  /** `f` moves no thread to or from the zombies and keeps ids. */
  ghost predicate Mild(f: Info -> Info)
  {
    forall i :: f(i).id == i.id && (f(i).state.Zombie? <==> i.state.Zombie?)
  }

  lemma UpdateKeeps(v: View, f: Info -> Info)
    requires Wf(v) && Mild(f)
    ensures Wf(UpdateRing(v, f)) && All(UpdateRing(v, f)) == All(v)
  {
  }

  lemma RotateKeeps(v: View, k: nat)
    requires Wf(v) && k <= |v.ring|
    ensures Wf(v.(ring := Rotate(v.ring, k))) && All(v.(ring := Rotate(v.ring, k))) == All(v)
  {
    RotateSame(v.ring, k);
    RotateAll(v.ring, k);
  }

  /** How far `yield` turns the ring. */
  function Turn(v: View): nat
    requires v.ring != [] && v.idle in v.ring
  {
    var k := FirstRunnable(UpdateRing(v, WakeExpired), Rotate(v.ring, 1));
    if k + 1 < |v.ring| then k + 1 else if k < |v.ring| then 0 else IndexOf(v.ring, v.idle)
  }

  lemma YieldTurns(v: View)
    requires v.ring != [] && v.idle in v.ring
    ensures Turn(v) < |v.ring|
    ensures Yield(v) == UpdateRing(v, WakeExpired).(ring := Rotate(v.ring, Turn(v)))
  {
    var k := FirstRunnable(UpdateRing(v, WakeExpired), Rotate(v.ring, 1));
    if k < |v.ring| { RotateTwice(v.ring, k); }
  }

  lemma RotateTwice(s: seq<nat>, k: nat)
    requires k < |s|
    ensures Rotate(Rotate(s, 1), k) == Rotate(s, if k + 1 < |s| then k + 1 else 0)
  {
    var r := Rotate(s, 1);
    assert r == s[1..] + [s[0]];
    if k + 1 < |s| {
      assert r[k..] == s[k + 1..] + [s[0]] && r[..k] == s[1..k + 1];
    } else {
      assert r[k..] == [s[0]] && r[..k] == s[1..];
    }
  }

  /** `yield` turns the ring, wakes expired sleepers, and changes nothing else. */
  lemma YieldKeeps(v: View)
    requires Wf(v)
    ensures Wf(Yield(v)) && All(Yield(v)) == All(v) && Yield(v).zombies == v.zombies
  {
    YieldTurns(v);
    UpdateKeeps(v, WakeExpired);
    RotateKeeps(UpdateRing(v, WakeExpired), Turn(v));
  }

  /** The thread could run once the expired sleepers are woken. */
  predicate Eligible(v: View, p: nat)
    requires p in v.info
  {
    p != v.idle && (v.info[p].state == Ready || (v.info[p].state == Sleeping && v.info[p].sleepTicks == 0))
  }

  lemma RunnableIs(v: View, p: nat)
    requires Wf(v) && p in v.ring
    ensures Runnable(UpdateRing(v, WakeExpired), p) <==> Eligible(v, p)
  {
  }

  /** `yield` runs the idle thread exactly when no other thread of the ring is ready or an expired sleeper. */
  lemma YieldPicks(v: View)
    requires Wf(v)
    ensures Yield(v).ring != []
    ensures Yield(v).ring[0] == v.idle <==> forall p :: p in v.ring ==> !Eligible(v, p)
    ensures Yield(v).ring[0] != v.idle ==> Yield(v).ring[0] in v.ring && Eligible(v, Yield(v).ring[0])
  {
    var w := UpdateRing(v, WakeExpired);
    var order := Rotate(v.ring, 1);
    RotateSame(v.ring, 1);
    var k := FirstRunnable(w, order);
    if k < |order| {
      assert Yield(v).ring[0] == order[k] && order[k] in v.ring;
      RunnableIs(v, order[k]);
    } else {
      forall p | p in v.ring ensures !Eligible(v, p) {
        var j :| 0 <= j < |order| && order[j] == p;
        assert !Runnable(w, order[j]);
        RunnableIs(v, p);
      }
    }
  }

  /** Otherwise it runs the first such thread behind the running one, the running one itself last. */
  lemma YieldPicksFirst(v: View, i: nat)
    requires Wf(v) && 0 < i < |v.ring| && Eligible(v, v.ring[i])
    ensures exists j :: 0 < j <= i && v.ring[j] == Yield(v).ring[0]
  {
    var order := Rotate(v.ring, 1);
    var k := FirstRunnable(UpdateRing(v, WakeExpired), order);
    RunnableIs(v, v.ring[i]);
    assert order[i - 1] == v.ring[i];
    assert order[k] == v.ring[k + 1] && Yield(v).ring[0] == order[k];
  }

  lemma AddKeeps(v: View, t: nat)
    requires Wf(v) && t != 0 && t !in v.info
    ensures Wf(Add(v, t)) && All(Add(v, t)) == All(v) + multiset{t}
  {
    var r := [v.ring[0], t] + v.ring[1..];
    assert v.ring == [v.ring[0]] + v.ring[1..];
    forall i, j | 0 <= i < j < |r| ensures Differ(r, i, j) {
      if i != 1 && j != 1 {
        assert Differ(v.ring, if i == 0 then 0 else i - 1, j - 1);
      }
    }
    assert multiset(r) == multiset(v.ring) + multiset{t};
  }

  /** The new thread comes right behind the running one, ready, with the next id, and no other changes; ids count up to
      2^32 - 1 and start again at 0. */
  lemma AddLaw(v: View, t: nat)
    requires Wf(v) && t != 0 && t !in v.info
    ensures var w := Add(v, t);
            && w.ring[..2] == [v.ring[0], t] && w.ring[2..] == v.ring[1..] && w.zombies == v.zombies
            && w.info.Keys == v.info.Keys + {t} && (forall p :: p in v.info ==> w.info[p] == v.info[p])
            && w.info[t].id == v.nextId && w.info[t].state == Ready
            && w.info[t].sleepTicks == 0 && w.info[t].exitCode == 0
            && (v.nextId < 0xFFFF_FFFF ==> w.nextId == v.nextId + 1) && (v.nextId == 0xFFFF_FFFF ==> w.nextId == 0)
  {
    var ring := [v.ring[0], t] + v.ring[1..];
    assert ring[..2] == [v.ring[0], t] && ring[2..] == v.ring[1..];
  }

  lemma BuryKeeps(v: View, k: nat, code: int)
    requires Wf(v) && k < |v.ring| && v.info[v.ring[k]].id != 0
    ensures Wf(Bury(v, k, code)) && All(Bury(v, k, code)) == All(v)
  {
    WithoutSame(v.ring, k);
    WithoutAll(v.ring, k);
    var z := [v.ring[k]] + v.zombies;
    forall i, j | 0 <= i < j < |z| ensures Differ(z, i, j) {
      if i > 0 { assert Differ(v.zombies, i - 1, j - 1); }
    }
  }

  /** Exactly the thread at position `k` goes from the ring to the head of the zombie list, and no other changes. */
  ghost predicate Moves(v: View, w: View, k: nat)
    requires k < |v.ring|
  {
    var p := v.ring[k];
    && w.ring == v.ring[..k] + v.ring[k + 1..] && w.zombies == [p] + v.zombies
    && w.info.Keys == v.info.Keys && (forall q :: q in v.info && q != p ==> w.info[q] == v.info[q])
    && p in v.info && p in w.info && w.info[p].id == v.info[p].id
    && w.info[p].state == Zombie && w.info[p].exitCode == -1
  }

  /** Killing takes one thread with that id out of the ring; the running thread, the kernel thread and the idle
      thread are never killed. */
  lemma KillLaw(v: View, id: nat)
    requires Wf(v)
    ensures Wf(Kill(v, id)) && All(Kill(v, id)) == All(v) && Kill(v, id).ring[0] == v.ring[0]
    ensures Kill(v, id) != v <==> MayKill(v, id) && exists p :: p in v.ring && v.info[p].id == id
  {
    if MayKill(v, id) {
      var k := FindId(v, id, 1);
      if k < |v.ring| {
        BuryKeeps(v, k, -1);
        assert v.ring[k] in v.ring && v.info[v.ring[k]].id == id;
        assert |Kill(v, id).zombies| == |v.zombies| + 1;
      } else {
        forall p | p in v.ring ensures v.info[p].id != id {
          var i :| 0 <= i < |v.ring| && v.ring[i] == p;
        }
      }
    }
  }

  /** An effective kill moves one thread with that id, never the running one, and changes no other. */
  lemma KillMoves(v: View, id: nat)
    requires Wf(v) && Kill(v, id) != v
    ensures exists k :: 0 < k < |v.ring| && v.info[v.ring[k]].id == id && Moves(v, Kill(v, id), k)
  {
    var k := FindId(v, id, 1);
    assert Moves(v, Kill(v, id), k);
  }

  /** What a `yield` leaves of a thread of the ring: an expired sleeper is ready. */
  ghost predicate AfterYield(i: Info, j: Info)
  {
    && j.id == i.id && j.sleepTicks == i.sleepTicks && j.exitCode == i.exitCode
    && j.state == if i.state == Sleeping && i.sleepTicks == 0 then Ready else i.state
  }

  lemma YieldEffect(v: View, p: nat)
    requires Wf(v) && p in v.info
    ensures p in Yield(v).info
    ensures if p in v.ring then AfterYield(v.info[p], Yield(v).info[p]) else Yield(v).info[p] == v.info[p]
  {
    YieldTurns(v);
  }

  lemma ExitLaw(v: View, code: int)
    requires Wf(v) && MayExit(v)
    ensures Wf(Exit(v, code)) && All(Exit(v, code)) == All(v)
    ensures Exit(v, code).zombies == [v.ring[0]] + v.zombies && v.ring[0] !in Exit(v, code).ring
  {
    BuryKeeps(v, 0, code);
    var b := Bury(v, 0, code);
    var k := IndexOf(b.ring, v.idle);
    RotateKeeps(b, k);
    YieldKeeps(b.(ring := Rotate(b.ring, k)));
  }

  /** The thread that exits is a zombie with its exit code; to the others an exit is a `yield`. */
  lemma ExitEffect(v: View, code: int, p: nat)
    requires Wf(v) && MayExit(v) && p in v.info
    ensures p in Exit(v, code).info
    ensures var i, j := v.info[p], Exit(v, code).info[p];
            if p == v.ring[0] then j.id == i.id && j.state == Zombie && j.exitCode == code
            else if p in v.ring then AfterYield(i, j)
            else j == i
  {
    BuryKeeps(v, 0, code);
    WithoutSame(v.ring, 0);
    var b := Bury(v, 0, code);
    var k := IndexOf(b.ring, v.idle);
    RotateKeeps(b, k);
    RotateSame(b.ring, k);
    YieldEffect(b.(ring := Rotate(b.ring, k)), p);
  }

  lemma SetCurrentKeeps(v: View, state: State, ticks: nat)
    requires Wf(v) && !state.Zombie?
    ensures Wf(SetCurrent(v, state, ticks)) && All(SetCurrent(v, state, ticks)) == All(v)
  {
  }

  /** Reaping frees exactly the zombies, never the running thread. */
  lemma ReapLaw(v: View)
    requires Wf(v)
    ensures Wf(Reap(v)) && All(Reap(v)) + multiset(v.zombies) == All(v)
    ensures Reap(v).ring == v.ring && v.ring[0] in Reap(v).info && v.ring[0] !in v.zombies
    ensures forall p :: p in v.ring ==> Reap(v).info[p] == v.info[p]
  {
  }

  // ---- runs ---------------------------------------------------------------------------------------------

  datatype Op =
    | AddOp(t: nat) | YieldOp | KillOp(id: nat) | ExitOp(code: int) | TickOp | WakeOp
    | SleepOp(ms: nat) | BlockOp | ReapOp

  /** The allocator hands out only unused memory, and a system thread cannot exit. */
  predicate Enabled(v: View, op: Op)
    requires v.ring != [] && v.ring[0] in v.info
  {
    match op
    case AddOp(t) => t == 0 || t !in v.info
    case ExitOp(_) => MayExit(v)
    case _ => true
  }

  predicate Yields(op: Op)
  {
    op.YieldOp? || op.TickOp? || op.SleepOp? || op.BlockOp?
  }

  /** What a yielding step does before its `yield`. */
  function Prepared(v: View, op: Op): View
    requires v.ring != [] && v.ring[0] in v.info && Yields(op)
  {
    match op
    case YieldOp => v
    case TickOp => UpdateRing(v, CountDown)
    case SleepOp(ms) => SetCurrent(v, Sleeping, SleepTicks(ms))
    case BlockOp => SetCurrent(v, Blocked, v.info[v.ring[0]].sleepTicks)
  }

  function Step(v: View, op: Op): View
    requires Wf(v) && Enabled(v, op)
  {
    if Yields(op) then Yield(Prepared(v, op))
    else match op
      case AddOp(t) => Add(v, t)
      case KillOp(id) => Kill(v, id)
      case ExitOp(code) => Exit(v, code)
      case WakeOp => UpdateRing(v, Unblock)
      case _ => Reap(v)
  }

  /** The thread a step creates, and the threads it frees. */
  function Created(op: Op): multiset<nat>
  {
    if op.AddOp? && op.t != 0 then multiset{op.t} else multiset{}
  }

  function Freed(v: View, op: Op): multiset<nat>
  {
    if op.ReapOp? then multiset(v.zombies) else multiset{}
  }

  /** The step keeps the invariant, and every thread that existed or is created is afterwards in the ring, in the zombie
      list or freed, exactly once. */
  ghost predicate Balanced(v: View, op: Op)
    requires Wf(v) && Enabled(v, op)
  {
    Wf(Step(v, op)) && All(v) + Created(op) == All(Step(v, op)) + Freed(v, op)
  }

  lemma AddBalanced(v: View, t: nat)
    requires Wf(v) && Enabled(v, AddOp(t))
    ensures Balanced(v, AddOp(t))
  {
    if t != 0 { AddKeeps(v, t); }
    assert Freed(v, AddOp(t)) == multiset{};
  }

  /** A yielding step is the `yield` from what it prepares. */
  lemma StepYields(v: View, op: Op)
    requires Wf(v) && Yields(op)
    ensures Wf(Prepared(v, op)) && All(Prepared(v, op)) == All(v)
    ensures Prepared(v, op).ring == v.ring && Prepared(v, op).idle == v.idle
    ensures Step(v, op) == Yield(Prepared(v, op))
  {
    PreparedKeeps(v, op);
  }

  lemma YieldBalanced(v: View, op: Op)
    requires Wf(v) && Yields(op)
    ensures Balanced(v, op)
  {
    StepYields(v, op);
    YieldKeeps(Prepared(v, op));
    assert Created(op) == multiset{} && Freed(v, op) == multiset{};
  }

  lemma KillBalanced(v: View, id: nat)
    requires Wf(v)
    ensures Balanced(v, KillOp(id))
  {
    KillLaw(v, id);
    assert Created(KillOp(id)) == multiset{} && Freed(v, KillOp(id)) == multiset{};
  }

  lemma ExitBalanced(v: View, code: int)
    requires Wf(v) && MayExit(v)
    ensures Balanced(v, ExitOp(code))
  {
    var w := Exit(v, code);
    assert Wf(w) && All(w) == All(v) by { ExitLaw(v, code); }
    assert Step(v, ExitOp(code)) == w;
    assert Created(ExitOp(code)) == multiset{} && Freed(v, ExitOp(code)) == multiset{};
  }

  lemma WakeBalanced(v: View)
    requires Wf(v)
    ensures Balanced(v, WakeOp)
  {
    UpdateKeeps(v, Unblock);
    assert Created(WakeOp) == multiset{} && Freed(v, WakeOp) == multiset{};
  }

  lemma ReapBalanced(v: View)
    requires Wf(v)
    ensures Balanced(v, ReapOp)
  {
    ReapLaw(v);
    assert Created(ReapOp) == multiset{};
  }

  /** Every step is balanced. */
  lemma StepKeeps(v: View, op: Op)
    requires Wf(v) && Enabled(v, op)
    ensures Wf(Step(v, op))
    ensures All(v) + Created(op) == All(Step(v, op)) + Freed(v, op)
  {
    assert Balanced(v, op) by {
      if Yields(op) { YieldBalanced(v, op); }
      else {
        match op
        case AddOp(t) => AddBalanced(v, t);
        case KillOp(id) => KillBalanced(v, id);
        case ExitOp(code) => ExitBalanced(v, code);
        case WakeOp => WakeBalanced(v);
        case ReapOp => ReapBalanced(v);
      }
    }
  }

  lemma PreparedKeeps(v: View, op: Op)
    requires Wf(v) && Yields(op)
    ensures var u := Prepared(v, op);
            Wf(u) && All(u) == All(v) && u.ring == v.ring && u.idle == v.idle
    ensures forall t :: t in v.ring && t != v.ring[0] && v.info[t].state.Ready? ==> Prepared(v, op).info[t] == v.info[t]
  {
    match op
    case YieldOp =>
    case TickOp => UpdateKeeps(v, CountDown);
    case SleepOp(ms) => SetCurrentKeeps(v, Sleeping, SleepTicks(ms));
    case BlockOp => SetCurrentKeeps(v, Blocked, v.info[v.ring[0]].sleepTicks);
  }

  /** Every step of the run is enabled where it is taken. */
  ghost predicate CanRun(v: View, ops: seq<Op>)
    requires Wf(v)
    decreases |ops|
  {
    ops == [] || (Enabled(v, ops[0]) && (StepKeeps(v, ops[0]); CanRun(Step(v, ops[0]), ops[1..])))
  }

  ghost function RunEnd(v: View, ops: seq<Op>): View
    requires Wf(v) && CanRun(v, ops)
    decreases |ops|
  {
    if ops == [] then v else (StepKeeps(v, ops[0]); RunEnd(Step(v, ops[0]), ops[1..]))
  }

  ghost function AllCreated(ops: seq<Op>): multiset<nat>
  {
    if ops == [] then multiset{} else Created(ops[0]) + AllCreated(ops[1..])
  }

  ghost function AllFreed(v: View, ops: seq<Op>): multiset<nat>
    requires Wf(v) && CanRun(v, ops)
    decreases |ops|
  {
    if ops == [] then multiset{} else (StepKeeps(v, ops[0]); Freed(v, ops[0]) + AllFreed(Step(v, ops[0]), ops[1..]))
  }

  /** Over every run: the ring stays a ring with the kernel and idle threads in it, disjoint from the zombies, and
      every thread ever added is in exactly one of ring, zombie list and freed. */
  lemma {:induction false} RunKeeps(v: View, ops: seq<Op>)
    requires Wf(v) && CanRun(v, ops)
    ensures Wf(RunEnd(v, ops))
    ensures All(v) + AllCreated(ops) == All(RunEnd(v, ops)) + AllFreed(v, ops)
    decreases |ops|
  {
    if ops != [] {
      StepKeeps(v, ops[0]);
      var v', rest := Step(v, ops[0]), ops[1..];
      RunKeeps(v', rest);
      Account(All(v), Created(ops[0]), All(v'), Freed(v, ops[0]),
              AllCreated(rest), All(RunEnd(v', rest)), AllFreed(v', rest));
    }
  }

  lemma Account(a: multiset<nat>, c: multiset<nat>, a': multiset<nat>, f: multiset<nat>,
                c': multiset<nat>, end: multiset<nat>, f': multiset<nat>)
    requires a + c == a' + f && a' + c' == end + f'
    ensures a + (c + c') == end + (f + f')
  {
    assert a + (c + c') == (a + c) + c';
    assert (a' + f) + c' == (a' + c') + f;
    assert (end + f') + f == end + (f + f');
  }

  // ---- no ready thread waits for ever -------------------------------------------------------------------

  lemma IndexUnique(s: seq<nat>, k: nat)
    requires Distinct(s) && k < |s|
    ensures IndexOf(s, s[k]) == k
  {
    var i := IndexOf(s, s[k]);
    assert i < k ==> Differ(s, i, k);
    assert k < i ==> Differ(s, k, i);
  }

  /** The thread is in the ring, ready, and not the idle thread. */
  ghost predicate Waiting(v: View, t: nat)
  {
    t in v.ring && t in v.info && v.info[t].state.Ready? && t != v.idle
  }

  function YieldCount(ops: seq<Op>): nat
  {
    if ops == [] then 0 else (if Yields(ops[0]) then 1 else 0) + YieldCount(ops[1..])
  }

  /** The yields of a run are those of its parts. */
  lemma {:induction false} YieldCountCat(a: seq<Op>, b: seq<Op>)
    ensures YieldCount(a + b) == YieldCount(a) + YieldCount(b)
  {
    if a == [] {
      assert a + b == b;
    } else {
      assert (a + b)[1..] == a[1..] + b;
      YieldCountCat(a[1..], b);
    }
  }

  /** The ring turns at most to the waiting thread. */
  lemma TurnBound(v: View, t: nat)
    requires v.ring != [] && v.idle in v.ring && Waiting(v, t) && v.ring[0] != t
    ensures 1 <= Turn(v) <= IndexOf(v.ring, t)
  {
    var d := IndexOf(v.ring, t);
    var w, order := UpdateRing(v, WakeExpired), Rotate(v.ring, 1);
    assert order[d - 1] == t && Runnable(w, order[d - 1]);
  }

  lemma RotateIndex(s: seq<nat>, k: nat, t: nat)
    requires Distinct(s) && t in s && k <= IndexOf(s, t)
    ensures t in Rotate(s, k) && IndexOf(Rotate(s, k), t) == IndexOf(s, t) - k
  {
    var r := Rotate(s, k);
    RotateSame(s, k);
    assert r[IndexOf(s, t) - k] == t;
    IndexUnique(r, IndexOf(s, t) - k);
  }

  lemma YieldApproaches(v: View, t: nat)
    requires Wf(v) && Waiting(v, t) && v.ring[0] != t
    ensures Waiting(Yield(v), t) && Yield(v).info[t] == v.info[t]
    ensures IndexOf(Yield(v).ring, t) < IndexOf(v.ring, t)
  {
    TurnBound(v, t);
    YieldTurns(v);
    RotateIndex(v.ring, Turn(v), t);
  }

  /** The same when the running thread is parked, or a tick is counted, before the `yield`. */
  lemma PreparedYieldApproaches(v: View, u: View, t: nat)
    requires Wf(v) && Wf(u) && u.ring == v.ring && u.idle == v.idle
    requires Waiting(v, t) && v.ring[0] != t && u.info[t] == v.info[t]
    ensures Waiting(Yield(u), t) && Yield(u).info[t] == v.info[t]
    ensures IndexOf(Yield(u).ring, t) < IndexOf(v.ring, t)
  {
    YieldApproaches(u, t);
  }

  lemma KillApproaches(v: View, id: nat, t: nat)
    requires Wf(v) && Waiting(v, t) && v.info[t].id != id
    ensures Waiting(Kill(v, id), t) && Kill(v, id).info[t] == v.info[t]
    ensures IndexOf(Kill(v, id).ring, t) <= IndexOf(v.ring, t)
  {
    KillLaw(v, id);
    var k := FindId(v, id, 1);
    if MayKill(v, id) && k < |v.ring| { WithoutIndex(v.ring, k, t); }
  }

  lemma WithoutIndex(s: seq<nat>, k: nat, t: nat)
    requires Distinct(s) && t in s && k < |s| && s[k] != t
    ensures t in Without(s, k) && IndexOf(Without(s, k), t) <= IndexOf(s, t)
  {
    WithoutSame(s, k);
    var d, w := IndexOf(s, t), Without(s, k);
    assert w[if d < k then d else d - 1] == t;
    IndexUnique(w, if d < k then d else d - 1);
  }

  /** A step that neither adds a thread nor ends the running one. */
  predicate Steady(op: Op, id: nat)
  {
    !op.AddOp? && !op.ExitOp? && op != KillOp(id)
  }

  lemma StepApproaches(v: View, op: Op, t: nat)
    requires Wf(v) && Waiting(v, t) && v.ring[0] != t && Steady(op, v.info[t].id) && Enabled(v, op)
    ensures Wf(Step(v, op)) && Waiting(Step(v, op), t) && Step(v, op).info[t] == v.info[t]
    ensures IndexOf(Step(v, op).ring, t) + (if Yields(op) then 1 else 0) <= IndexOf(v.ring, t)
  {
    if op.KillOp? {
      KillLaw(v, op.id);
      KillApproaches(v, op.id, t);
    } else if op.WakeOp? {
      UpdateKeeps(v, Unblock);
    } else if op.ReapOp? {
      ReapLaw(v);
    } else if Yields(op) {
      PreparedKeeps(v, op);
      YieldKeeps(Prepared(v, op));
      PreparedYieldApproaches(v, Prepared(v, op), t);
    }
  }

  /** The thread runs at some point of the run. */
  ghost predicate GetsToRun(v: View, ops: seq<Op>, t: nat)
    requires Wf(v) && CanRun(v, ops)
    decreases |ops|
  {
    v.ring[0] == t || (ops != [] && (StepKeeps(v, ops[0]); GetsToRun(Step(v, ops[0]), ops[1..], t)))
  }

  /** A ready thread at ring distance d from the running one runs within d yields, in every run in which no
      thread is added, the running thread does not exit and the thread itself is not killed. */
  lemma {:induction false} RunsWithinDistance(v: View, ops: seq<Op>, t: nat)
    requires Wf(v) && CanRun(v, ops) && Waiting(v, t)
    requires forall op :: op in ops ==> Steady(op, v.info[t].id)
    requires IndexOf(v.ring, t) <= YieldCount(ops)
    ensures GetsToRun(v, ops, t)
    decreases |ops|
  {
    if v.ring[0] != t {
      assert ops[0] in ops;
      StepApproaches(v, ops[0], t);
      RunsWithinDistance(Step(v, ops[0]), ops[1..], t);
    }
  }

  // ---- what a step does to the threads -------------------------------------------------------------------

  /** A timer interrupt takes a tick from every sleeper and wakes those that have none left. */
  lemma TickEffect(v: View, p: nat)
    requires Wf(v) && p in v.info
    ensures p in Step(v, TickOp).info
    ensures var i, j := v.info[p], Step(v, TickOp).info[p];
            if p in v.ring && i.state == Sleeping then
              && j.id == i.id && j.exitCode == i.exitCode
              && (i.sleepTicks > 1 ==> j.state == Sleeping && j.sleepTicks == i.sleepTicks - 1)
              && (i.sleepTicks <= 1 ==> j.state == Ready && j.sleepTicks == 0)
            else j == i
  {
    PreparedKeeps(v, TickOp);
    YieldEffect(Prepared(v, TickOp), p);
  }

  /** What sleeping and blocking make of the running thread before the `yield`. */
  ghost predicate Parked(op: Op, i: Info, j: Info)
  {
    && j.id == i.id && j.exitCode == i.exitCode
    && (op.SleepOp? ==> j.state == Sleeping && j.sleepTicks == Max(1, op.ms / 10))
    && (op.BlockOp? ==> j.state == Blocked && j.sleepTicks == i.sleepTicks)
  }

  lemma PreparedPark(v: View, op: Op, p: nat)
    requires Wf(v) && p in v.info && (op.SleepOp? || op.BlockOp?)
    ensures var u := Prepared(v, op);
            p in u.info && if p == v.ring[0] then Parked(op, v.info[p], u.info[p]) else u.info[p] == v.info[p]
  {
  }

  /** Sleeping and blocking change the running thread's state, and to the others are a `yield`. */
  lemma ParkEffect(v: View, op: Op, p: nat)
    requires Wf(v) && p in v.info && (op.SleepOp? || op.BlockOp?)
    ensures p in Step(v, op).info
    ensures var i, j := v.info[p], Step(v, op).info[p];
            if p == v.ring[0] then Parked(op, i, j) else if p in v.ring then AfterYield(i, j) else j == i
  {
    StepYields(v, op);
    PreparedPark(v, op, p);
    ParkedYields(v, op, Prepared(v, op), p);
  }

  lemma ParkedYields(v: View, op: Op, u: View, p: nat)
    requires Wf(u) && p in v.info && p in u.info && u.ring == v.ring && (op.SleepOp? || op.BlockOp?)
    requires if p == v.ring[0] then Parked(op, v.info[p], u.info[p]) else u.info[p] == v.info[p]
    ensures p in Yield(u).info
    ensures var i, j := v.info[p], Yield(u).info[p];
            if p == v.ring[0] then Parked(op, i, j) else if p in v.ring then AfterYield(i, j) else j == i
  {
    YieldEffect(u, p);
  }

  /** Waking makes every blocked thread of the ring ready, and changes nothing else. */
  lemma WakeEffect(v: View, p: nat)
    requires Wf(v) && p in v.info
    ensures var w := Step(v, WakeOp);
            && w.ring == v.ring && w.zombies == v.zombies && p in w.info
            && var i, j := v.info[p], w.info[p];
            if p in v.ring && i.state == Blocked
            then j.id == i.id && j.state == Ready && j.sleepTicks == i.sleepTicks && j.exitCode == i.exitCode
            else j == i
  {
  }

  // ---- every sleeper wakes in time -----------------------------------------------------------------------

  /** The thread is in the ring, not running, and asleep for `s` more ticks. */
  ghost predicate Asleep(v: View, p: nat, s: nat)
  {
    && p in v.ring && p != v.ring[0] && p != v.idle
    && p in v.info && v.info[p].state == Sleeping && v.info[p].sleepTicks == s
  }

  function TickCount(ops: seq<Op>): nat
  {
    if ops == [] then 0 else (if ops[0].TickOp? then 1 else 0) + TickCount(ops[1..])
  }

  /** A `yield` neither runs nor wakes a thread with ticks left, and keeps it in the ring. */
  lemma YieldPasses(v: View, p: nat)
    requires Wf(v) && p in v.ring && p != v.idle && v.info[p].state == Sleeping && v.info[p].sleepTicks > 0
    ensures Asleep(Yield(v), p, v.info[p].sleepTicks)
  {
    YieldEffect(v, p);
    YieldPicks(v);
    YieldTurns(v);
    RotateSame(v.ring, Turn(v));
  }

  lemma YieldWaits(v: View, p: nat)
    requires Wf(v) && Waiting(v, p)
    ensures Waiting(Yield(v), p)
  {
    YieldEffect(v, p);
    YieldTurns(v);
    RotateSame(v.ring, Turn(v));
  }

  /** One step brings the sleeper one tick nearer to waking if it is a timer interrupt, and else leaves it asleep. */
  lemma SleeperStep(v: View, op: Op, p: nat, s: nat)
    requires Wf(v) && Enabled(v, op) && Asleep(v, p, s) && s > 0 && op != KillOp(v.info[p].id)
    ensures Wf(Step(v, op)) && p in Step(v, op).info && Step(v, op).info[p].id == v.info[p].id
    ensures if !op.TickOp? then Asleep(Step(v, op), p, s)
            else if s > 1 then Asleep(Step(v, op), p, s - 1)
            else Waiting(Step(v, op), p)
  {
    StepKeeps(v, op);
    if Yields(op) {
      SleeperYields(v, op, p, s);
    } else {
      SleeperStays(v, op, p, s);
    }
  }

  /** The sleeper before the `yield` of a step. */
  lemma PreparedSleeper(v: View, op: Op, p: nat, s: nat)
    requires Wf(v) && Asleep(v, p, s) && s > 0 && Yields(op)
    ensures var u := Prepared(v, op);
            && p in u.info && u.info[p].id == v.info[p].id
            && (if !op.TickOp? then u.info[p] == v.info[p]
                else if s > 1 then u.info[p].state == Sleeping && u.info[p].sleepTicks == s - 1
                else u.info[p].state == Ready)
  {
  }

  lemma SleeperYields(v: View, op: Op, p: nat, s: nat)
    requires Wf(v) && Asleep(v, p, s) && s > 0 && Yields(op)
    ensures p in Step(v, op).info && Step(v, op).info[p].id == v.info[p].id
    ensures if !op.TickOp? then Asleep(Step(v, op), p, s)
            else if s > 1 then Asleep(Step(v, op), p, s - 1)
            else Waiting(Step(v, op), p)
  {
    StepYields(v, op);
    PreparedSleeper(v, op, p, s);
    YieldSleeper(Prepared(v, op), p, v.info[p].id, if op.TickOp? then s - 1 else s);
  }

  lemma YieldSleeper(u: View, p: nat, id: nat, s: nat)
    requires Wf(u) && p in u.ring && p != u.idle && u.info[p].id == id
    requires if s > 0 then u.info[p].state == Sleeping && u.info[p].sleepTicks == s else u.info[p].state == Ready
    ensures p in Yield(u).info && Yield(u).info[p].id == id
    ensures if s > 0 then Asleep(Yield(u), p, s) else Waiting(Yield(u), p)
  {
    YieldEffect(u, p);
    if s > 0 { YieldPasses(u, p); } else { YieldWaits(u, p); }
  }

  lemma SleeperStays(v: View, op: Op, p: nat, s: nat)
    requires Wf(v) && Enabled(v, op) && Asleep(v, p, s) && s > 0 && !Yields(op) && op != KillOp(v.info[p].id)
    ensures Asleep(Step(v, op), p, s) && Step(v, op).info[p].id == v.info[p].id
  {
    match op {
      case AddOp(t) => if t != 0 { AddKeeps(v, t); }
      case KillOp(id) => SleeperSurvivesKill(v, id, p, s);
      case ExitOp(code) => SleeperSurvivesExit(v, code, p, s);
      case WakeOp =>
      case ReapOp => ReapLaw(v);
    }
  }

  lemma SleeperSurvivesKill(v: View, id: nat, p: nat, s: nat)
    requires Wf(v) && Asleep(v, p, s) && id != v.info[p].id
    ensures Asleep(Kill(v, id), p, s) && Kill(v, id).info[p].id == v.info[p].id
  {
    KillLaw(v, id);
    if Kill(v, id) != v {
      KillMoves(v, id);
      var k :| 0 < k < |v.ring| && v.info[v.ring[k]].id == id && Moves(v, Kill(v, id), k);
      WithoutSame(v.ring, k);
    }
  }

  lemma SleeperSurvivesExit(v: View, code: int, p: nat, s: nat)
    requires Wf(v) && MayExit(v) && Asleep(v, p, s) && s > 0
    ensures Asleep(Exit(v, code), p, s) && Exit(v, code).info[p].id == v.info[p].id
  {
    BuryKeeps(v, 0, code);
    var b := Bury(v, 0, code);
    var k := IndexOf(b.ring, v.idle);
    WithoutSame(v.ring, 0);
    RotateKeeps(b, k);
    RotateSame(b.ring, k);
    YieldPasses(b.(ring := Rotate(b.ring, k)), p);
    YieldEffect(b.(ring := Rotate(b.ring, k)), p);
  }

  /** The run after its first step. */
  lemma RunFirst(v: View, ops: seq<Op>)
    requires Wf(v) && CanRun(v, ops) && ops != []
    ensures Enabled(v, ops[0]) && Wf(Step(v, ops[0])) && CanRun(Step(v, ops[0]), ops[1..])
    ensures RunEnd(v, ops) == RunEnd(Step(v, ops[0]), ops[1..])
  {
    StepKeeps(v, ops[0]);
  }

  lemma RunCons(v: View, ops: seq<Op>)
    requires Wf(v) && ops != [] && Enabled(v, ops[0]) && Wf(Step(v, ops[0])) && CanRun(Step(v, ops[0]), ops[1..])
    ensures CanRun(v, ops) && RunEnd(v, ops) == RunEnd(Step(v, ops[0]), ops[1..])
  {
  }

  lemma RestOf(ops: seq<Op>, kill: Op)
    requires ops != [] && kill !in ops
    ensures ops[0] != kill && kill !in ops[1..]
    ensures TickCount(ops) == (if ops[0].TickOp? then 1 else 0) + TickCount(ops[1..])
  {
    assert ops[0] in ops;
  }

  /** Over every run in which it is not killed, a thread that is to sleep for `s` ticks sleeps through fewer timer
      interrupts. */
  lemma {:induction false} SleeperSleeps(v: View, ops: seq<Op>, p: nat, s: nat)
    requires Wf(v) && CanRun(v, ops) && Asleep(v, p, s) && TickCount(ops) < s && KillOp(v.info[p].id) !in ops
    ensures Asleep(RunEnd(v, ops), p, s - TickCount(ops))
    decreases |ops|
  {
    if ops != [] {
      var op := ops[0];
      RestOf(ops, KillOp(v.info[p].id));
      RunFirst(v, ops);
      SleeperStep(v, op, p, s);
      SleeperSleeps(Step(v, op), ops[1..], p, if op.TickOp? then s - 1 else s);
    }
  }

  /** The `s`-th timer interrupt makes it ready. */
  lemma SleeperWakes(v: View, ops: seq<Op>, p: nat, s: nat)
    requires Wf(v) && CanRun(v, ops + [TickOp]) && Asleep(v, p, s) && KillOp(v.info[p].id) !in ops
    requires TickCount(ops) == s - 1
    ensures Waiting(RunEnd(v, ops + [TickOp]), p)
  {
    RunLast(v, ops, TickOp);
    SleeperSleeps(v, ops, p, s);
    SleeperStep(RunEnd(v, ops), TickOp, p, 1);
  }

  /** The run before its last step. */
  lemma {:induction false} RunLast(v: View, ops: seq<Op>, op: Op)
    requires Wf(v) && CanRun(v, ops + [op])
    ensures CanRun(v, ops) && Wf(RunEnd(v, ops)) && Enabled(RunEnd(v, ops), op)
    ensures RunEnd(v, ops + [op]) == Step(RunEnd(v, ops), op)
    decreases |ops|
  {
    var us := ops + [op];
    RunFirst(v, us);
    if ops == [] {
      assert us[1..] == [] && us[0] == op;
    } else {
      assert us[1..] == ops[1..] + [op] && us[0] == ops[0];
      RunLast(Step(v, ops[0]), ops[1..], op);
      RunCons(v, ops);
    }
  }

  /** A thread that sleeps for `ms` milliseconds sleeps through fewer than max(1, ms / 10) timer interrupts, and the one
      that completes that number makes it ready. */
  lemma SleepLasts(v: View, ms: nat, ops: seq<Op>)
    requires Wf(v) && v.ring[0] != v.idle && Wf(Step(v, SleepOp(ms))) && CanRun(Step(v, SleepOp(ms)), ops)
    requires KillOp(v.info[v.ring[0]].id) !in ops
    ensures var w, p, s := Step(v, SleepOp(ms)), v.ring[0], Max(1, ms / 10);
            && (TickCount(ops) < s ==> Asleep(RunEnd(w, ops), p, s - TickCount(ops)))
            && (TickCount(ops) == s - 1 && CanRun(w, ops + [TickOp]) ==> Waiting(RunEnd(w, ops + [TickOp]), p))
  {
    var w, p, s := Step(v, SleepOp(ms)), v.ring[0], Max(1, ms / 10);
    FallsAsleep(v, ms);
    if TickCount(ops) < s { SleeperSleeps(w, ops, p, s); }
    if TickCount(ops) == s - 1 && CanRun(w, ops + [TickOp]) { SleeperWakes(w, ops, p, s); }
  }

  lemma FallsAsleep(v: View, ms: nat)
    requires Wf(v) && v.ring[0] != v.idle
    ensures Asleep(Step(v, SleepOp(ms)), v.ring[0], Max(1, ms / 10))
    ensures Step(v, SleepOp(ms)).info[v.ring[0]].id == v.info[v.ring[0]].id
  {
    StepYields(v, SleepOp(ms));
    PreparedPark(v, SleepOp(ms), v.ring[0]);
    YieldSleeper(Prepared(v, SleepOp(ms)), v.ring[0], v.info[v.ring[0]].id, Max(1, ms / 10));
  }
}
