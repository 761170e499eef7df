/**
 The budget for frames being decoded: a semaphore counted in KiB and an atomic counter of waiting tasks,
 under every interleaving of the tasks that reserve, wait, give up, are dropped, and release.
 The semaphore hands freed units to waiting tasks in any order and in any portions.
 */
module DecodeBudget {
  const MAX_FRAME_BYTES: nat := 33 * 1024 * 1024
  const DECODE_BUDGET_BYTES: nat := 128 * 1024 * 1024
  const BUDGET_UNIT: nat := 1024
  const TOTAL_UNITS: nat := DECODE_BUDGET_BYTES / BUDGET_UNIT
  const MAX_BUDGET_WAITERS: nat := 16
  const U32_MAX: nat := 0xFFFF_FFFF

  /** Units a frame of `len` bytes takes: twice its length, rounded up, at least one. */
  function Units(len: nat): nat {
    var whole := (2 * len + BUDGET_UNIT - 1) / BUDGET_UNIT;
    if whole < 1 then 1 else whole
  }

  // ----- Tasks -----

  /** Where a task stands between the atomic steps of a reservation for a frame of `len` bytes. */
  datatype Phase =
    | Contended(len: nat)
    | Overshot(len: nat)
    | Waiting(len: nat, got: nat)
    | Granted(len: nat)
    | GivenUp(len: nat)
    | Holding(len: nat)

  type Tasks = map<nat, Phase>

  /** `leaked` counts waits dropped before they could lower the counter. */
  datatype State = State(tasks: Tasks, free: nat, counter: nat, leaked: nat)

  const START: State := State(map[], TOTAL_UNITS, 0, 0)

  datatype Event =
    | Arrive(t: nat, len: nat)
    | Count(t: nat)
    | BackOut(t: nat)
    | Assign(t: nat, units: nat)
    | Grant(t: nat)
    | TimeOut(t: nat)
    | Leave(t: nat)
    | Cancel(t: nat)
    | Release(t: nat)

  predicate Enabled(s: State, e: Event) {
    match e
    case Arrive(t, len) => t !in s.tasks && len <= MAX_FRAME_BYTES
    case Count(t) => t in s.tasks && s.tasks[t].Contended?
    case BackOut(t) => t in s.tasks && s.tasks[t].Overshot? && s.counter > 0
    case Assign(t, k) =>
      t in s.tasks && s.tasks[t].Waiting? && 0 < k <= s.free && s.tasks[t].got + k <= Units(s.tasks[t].len)
    case Grant(t) => t in s.tasks && s.tasks[t].Waiting? && s.tasks[t].got == Units(s.tasks[t].len)
    case TimeOut(t) => t in s.tasks && s.tasks[t].Waiting? && s.tasks[t].got < Units(s.tasks[t].len)
    case Leave(t) => t in s.tasks && (s.tasks[t].Granted? || s.tasks[t].GivenUp?) && s.counter > 0
    case Cancel(t) => t in s.tasks && s.tasks[t].Waiting?
    case Release(t) => t in s.tasks && s.tasks[t].Holding?
  }

  function Apply(s: State, e: Event): State
    requires Enabled(s, e)
  {
    match e
    case Arrive(t, len) =>
      // `try_acquire_many`
      if Units(len) <= s.free then s.(tasks := s.tasks[t := Holding(len)], free := s.free - Units(len))
      else s.(tasks := s.tasks[t := Contended(len)])
    case Count(t) =>
      // `fetch_add` returns the old value
      s.(tasks := s.tasks[t :=
                    if s.counter >= MAX_BUDGET_WAITERS then Overshot(s.tasks[t].len)
                    else Waiting(s.tasks[t].len, 0)],
         counter := s.counter + 1)
    case BackOut(t) => s.(tasks := s.tasks - {t}, counter := s.counter - 1)
    case Assign(t, k) =>
      s.(tasks := s.tasks[t := Waiting(s.tasks[t].len, s.tasks[t].got + k)], free := s.free - k)
    case Grant(t) => s.(tasks := s.tasks[t := Granted(s.tasks[t].len)])
    case TimeOut(t) => s.(tasks := s.tasks[t := GivenUp(s.tasks[t].len)], free := s.free + s.tasks[t].got)
    case Leave(t) =>
      s.(tasks := if s.tasks[t].Granted? then s.tasks[t := Holding(s.tasks[t].len)] else s.tasks - {t},
         counter := s.counter - 1)
    case Cancel(t) =>
      // The waiting future is dropped: its units return, its place in the counter does not.
      s.(tasks := s.tasks - {t}, free := s.free + s.tasks[t].got, leaked := s.leaked + 1)
    case Release(t) => s.(tasks := s.tasks - {t}, free := s.free + Units(s.tasks[t].len))
  }

  ghost predicate Possible(s: State, run: seq<Event>)
    decreases |run|
  {
    run == [] || (Enabled(s, run[0]) && Possible(Apply(s, run[0]), run[1..]))
  }

  ghost function After(s: State, run: seq<Event>): State
    requires Possible(s, run)
    decreases |run|
  {
    if run == [] then s else After(Apply(s, run[0]), run[1..])
  }

  // ----- Sums over tasks -----

  ghost function Sum(tasks: Tasks, w: Phase -> nat): nat
    decreases |tasks|
  {
    if tasks == map[] then 0
    else
      var t :| t in tasks;
      w(tasks[t]) + Sum(tasks - {t}, w)
  }

  lemma {:induction false} SumSplit(tasks: Tasks, w: Phase -> nat, t: nat)
    requires t in tasks
    ensures Sum(tasks, w) == w(tasks[t]) + Sum(tasks - {t}, w)
    decreases |tasks|
  {
    var u :| u in tasks && Sum(tasks, w) == w(tasks[u]) + Sum(tasks - {u}, w);
    if u != t {
      SumSplit(tasks - {u}, w, t);
      SumSplit(tasks - {t}, w, u);
      assert tasks - {u} - {t} == tasks - {t} - {u};
    }
  }

  lemma {:induction false} SumBelow(tasks: Tasks, w: Phase -> nat, v: Phase -> nat)
    requires forall t :: t in tasks ==> w(tasks[t]) <= v(tasks[t])
    ensures Sum(tasks, w) <= Sum(tasks, v)
    decreases |tasks|
  {
    if tasks != map[] {
      var t :| t in tasks;
      SumSplit(tasks, w, t);
      SumSplit(tasks, v, t);
      SumBelow(tasks - {t}, w, v);
    }
  }

  // ----- What is counted -----

  function Taken(p: Phase): nat {
    match p
    case Waiting(_, got) => got
    case Granted(len) => Units(len)
    case Holding(len) => Units(len)
    case _ => 0
  }

  /** Tasks that raised the counter and have not lowered it. */
  function Counted(p: Phase): nat { if p.Contended? || p.Holding? then 0 else 1 }

  /** Tasks let in to wait. */
  function Admitted(p: Phase): nat { if p.Waiting? || p.Granted? || p.GivenUp? then 1 else 0 }

  /** Twice the bytes of a frame being read and decoded. */
  function Decoding(p: Phase): nat { if p.Holding? then 2 * p.len else 0 }

  ghost predicate Sound(p: Phase) {
    p.len <= MAX_FRAME_BYTES && (p.Waiting? ==> p.got <= Units(p.len))
  }

  ghost predicate Inv(s: State) {
    (forall t :: t in s.tasks ==> Sound(s.tasks[t]))
    && s.free + Sum(s.tasks, Taken) == TOTAL_UNITS
    && s.counter == Sum(s.tasks, Counted) + s.leaked
    && Sum(s.tasks, Admitted) + s.leaked <= MAX_BUDGET_WAITERS
  }

  /** A task changes phase, appears or disappears; the other tasks stay. */
  lemma Moves(before: Tasks, after: Tasks, t: nat, w: Phase -> nat)
    requires before - {t} == after - {t}
    ensures Sum(after, w) + (if t in before then w(before[t]) else 0)
            == Sum(before, w) + (if t in after then w(after[t]) else 0)
  {
    if t in before {
      SumSplit(before, w, t);
    } else {
      assert before - {t} == before;
    }
    if t in after {
      SumSplit(after, w, t);
    } else {
      assert after - {t} == after;
    }
  }

  lemma StepKeeps(s: State, e: Event)
    requires Inv(s) && Enabled(s, e)
    ensures Inv(Apply(s, e))
  {
    hide Sum;
    var after := Apply(s, e).tasks;
    assert s.tasks - {e.t} == after - {e.t};
    Moves(s.tasks, after, e.t, Taken);
    Moves(s.tasks, after, e.t, Counted);
    Moves(s.tasks, after, e.t, Admitted);
    AdmittedAreCounted(s.tasks);
    hide Units;
  }

  lemma AdmittedAreCounted(tasks: Tasks)
    ensures Sum(tasks, Admitted) <= Sum(tasks, Counted)
  {
    SumBelow(tasks, Admitted, Counted);
  }

  lemma {:induction false} RunKeeps(s: State, run: seq<Event>)
    requires Inv(s) && Possible(s, run)
    ensures Inv(After(s, run))
    decreases |run|
  {
    if run != [] {
      StepKeeps(s, run[0]);
      RunKeeps(Apply(s, run[0]), run[1..]);
    }
  }

  ghost predicate Reachable(s: State) {
    exists run :: Possible(START, run) && After(START, run) == s
  }

  lemma ReachableInv(s: State)
    requires Reachable(s)
    ensures Inv(s)
  {
    var run :| Possible(START, run) && After(START, run) == s;
    assert Inv(START);
    RunKeeps(START, run);
  }

  // ----- Capacity -----

  /** The smallest positive number of units covering twice the frame; a legal frame never exceeds the budget. */
  lemma LegalFrameFits(len: nat)
    ensures Units(len) > 0 && 2 * len <= 1024 * Units(len)
    ensures forall k: nat :: k > 0 && 2 * len <= 1024 * k ==> Units(len) <= k
    ensures len <= 34_603_008 ==> Units(len) <= 131_072 == TOTAL_UNITS <= U32_MAX
  {
  }

  lemma {:induction false} DecodingWithinTaken(tasks: Tasks)
    ensures Sum(tasks, Decoding) <= BUDGET_UNIT * Sum(tasks, Taken)
    decreases |tasks|
  {
    if tasks != map[] {
      var t :| t in tasks;
      SumSplit(tasks, Decoding, t);
      SumSplit(tasks, Taken, t);
      DecodingWithinTaken(tasks - {t});
      LegalFrameFits(tasks[t].len);
      hide Units;
    }
  }

  /** Units are never lost or made up, and frames being decoded never take more than the budget. */
  lemma MemoryBounded(s: State)
    requires Reachable(s)
    ensures s.free + Sum(s.tasks, Taken) == 131_072
    ensures Sum(s.tasks, Decoding) <= 134_217_728
  {
    ReachableInv(s);
    DecodingWithinTaken(s.tasks);
  }

  lemma {:induction false} SumCounts(tasks: Tasks, w: Phase -> nat, of: set<nat>)
    requires forall t :: t in of ==> t in tasks && w(tasks[t]) == 1
    ensures |of| <= Sum(tasks, w)
    decreases |of|
  {
    if of != {} {
      var t :| t in of;
      SumSplit(tasks, w, t);
      SumCounts(tasks - {t}, w, of - {t});
    }
  }

  ghost function WaitingTasks(s: State): set<nat> {
    set t | t in s.tasks && s.tasks[t].Waiting?
  }

  /** At most sixteen tasks wait, fewer by one for every wait that was dropped. */
  lemma WaitersBounded(s: State)
    requires Reachable(s)
    ensures |WaitingTasks(s)| + s.leaked <= 16
  {
    ReachableInv(s);
    SumCounts(s.tasks, Admitted, WaitingTasks(s));
  }

  lemma {:induction false} SumNothing(tasks: Tasks, w: Phase -> nat)
    requires forall t :: t in tasks ==> w(tasks[t]) == 0
    ensures Sum(tasks, w) == 0
    decreases |tasks|
  {
    if tasks != map[] {
      var t :| t in tasks;
      SumSplit(tasks, w, t);
      SumNothing(tasks - {t}, w);
    }
  }

  /** A waiting task is not stuck once the others have returned their units: what it lacks is free, and
      assigning it lets the task hold its frame. */
  lemma WaiterIsServed(s: State, t: nat)
    requires Reachable(s) && t in s.tasks && s.tasks[t].Waiting?
    requires forall u :: u in s.tasks && u != t ==> Taken(s.tasks[u]) == 0
    ensures var missing := Units(s.tasks[t].len) - s.tasks[t].got;
            && 0 <= missing <= s.free
            && exists run :: Possible(s, run) && t in After(s, run).tasks
                             && After(s, run).tasks[t] == Holding(s.tasks[t].len)
  {
    ReachableInv(s);
    SumSplit(s.tasks, Taken, t);
    SumNothing(s.tasks - {t}, Taken);
    LegalFrameFits(s.tasks[t].len);
    hide Units, Sum;
    var missing := Units(s.tasks[t].len) - s.tasks[t].got;
    var s0 := s;
    var first: seq<Event> := [];
    if missing > 0 {
      first := [Assign(t, missing)];
      s0 := Apply(s, Assign(t, missing));
      StepKeeps(s, Assign(t, missing));
    }
    ServedWhenFull(s0, t);
    Chains(s, first, s0, [Grant(t), Leave(t)]);
  }

  lemma ServedWhenFull(s: State, t: nat)
    requires Inv(s) && t in s.tasks && s.tasks[t] == Waiting(s.tasks[t].len, Units(s.tasks[t].len))
    ensures Possible(s, [Grant(t), Leave(t)])
    ensures var e := After(s, [Grant(t), Leave(t)]); t in e.tasks && e.tasks[t] == Holding(s.tasks[t].len)
  {
    hide Units, Sum;
    var u := Apply(s, Grant(t));
    StepKeeps(s, Grant(t));
    SumSplit(u.tasks, Counted, t);
    assert [Grant(t), Leave(t)][1..] == [Leave(t)] && [Leave(t)][1..] == [];
    assert Enabled(u, Leave(t));
    OneStep(u, Leave(t));
  }

  lemma OneStep(s: State, e: Event)
    requires Enabled(s, e)
    ensures Possible(s, [e]) && After(s, [e]) == Apply(s, e)
  {
    assert [e][1..] == [];
  }

  lemma {:induction false} Chains(s: State, a: seq<Event>, u: State, b: seq<Event>)
    requires Possible(s, a) && After(s, a) == u && Possible(u, b)
    ensures Possible(s, a + b) && After(s, a + b) == After(u, b)
    decreases |a|
  {
    if a == [] {
      assert a + b == b;
    } else {
      assert (a + b)[1..] == a[1..] + b && (a + b)[0] == a[0];
      Chains(Apply(s, a[0]), a[1..], u, b);
    }
  }

  // ----- The counter of waiters -----

  function Cancels(run: seq<Event>): nat {
    if run == [] then 0 else (if run[0].Cancel? then 1 else 0) + Cancels(run[1..])
  }

  lemma {:induction false} LeakedAreCancels(s: State, run: seq<Event>)
    requires Possible(s, run)
    ensures After(s, run).leaked == s.leaked + Cancels(run)
    decreases |run|
  {
    hide Units;
    if run != [] {
      LeakedAreCancels(Apply(s, run[0]), run[1..]);
    }
  }

  /** When no reservation is under way, the counter is back at zero exactly if no wait was ever dropped. */
  lemma CounterReturns(run: seq<Event>)
    requires Possible(START, run) && forall t :: t in After(START, run).tasks ==> After(START, run).tasks[t].Holding?
    ensures After(START, run).counter == Cancels(run)
  {
    var s := After(START, run);
    RunKeeps(START, run);
    LeakedAreCancels(START, run);
    SumNothing(s.tasks, Counted);
  }

  /** A task that finds no room is refused exactly when sixteen places are taken, by tasks or by dropped waits. */
  lemma RefusedExactly(s: State, t: nat)
    requires Reachable(s) && t in s.tasks && s.tasks[t].Contended?
    ensures Apply(s, Count(t)).tasks[t].Overshot? <==> Sum(s.tasks, Counted) + s.leaked >= 16
  {
    ReachableInv(s);
  }

  // ----- Sixteen dropped waits -----

  const HALF_FREE: nat := TOTAL_UNITS - Units(MAX_FRAME_BYTES)

  ghost function Busy(k: nat): State {
    State(map[0 := Holding(MAX_FRAME_BYTES)], HALF_FREE, k, k)
  }

  ghost function Drops(n: nat): seq<Event> {
    if n == 0 then [] else [Arrive(1, MAX_FRAME_BYTES), Count(1), Cancel(1)] + Drops(n - 1)
  }

  lemma DropOne(k: nat)
    requires k < MAX_BUDGET_WAITERS
    ensures Possible(Busy(k), [Arrive(1, MAX_FRAME_BYTES), Count(1), Cancel(1)])
    ensures After(Busy(k), [Arrive(1, MAX_FRAME_BYTES), Count(1), Cancel(1)]) == Busy(k + 1)
  {
    var s := Busy(k);
    var a, b, c := Arrive(1, MAX_FRAME_BYTES), Count(1), Cancel(1);
    var s1 := Apply(s, a);
    var s2 := Apply(s1, b);
    assert s1.tasks[1] == Contended(MAX_FRAME_BYTES) && s2.tasks[1] == Waiting(MAX_FRAME_BYTES, 0);
    assert Apply(s2, c).tasks == s.tasks;
    OneStep(s2, c);
    assert [b, c][1..] == [c] && [a, b, c][1..] == [b, c];
    assert Possible(s1, [b, c]) && After(s1, [b, c]) == Busy(k + 1);
  }

  lemma {:induction false} DropMany(k: nat, n: nat)
    requires k + n <= MAX_BUDGET_WAITERS
    ensures Possible(Busy(k), Drops(n)) && After(Busy(k), Drops(n)) == Busy(k + n)
    decreases n
  {
    if n > 0 {
      DropOne(k);
      DropMany(k + 1, n - 1);
      Chains(Busy(k), [Arrive(1, MAX_FRAME_BYTES), Count(1), Cancel(1)], Busy(k + 1), Drops(n - 1));
    }
  }

  const BLOCKED: State := State(map[], TOTAL_UNITS, MAX_BUDGET_WAITERS, MAX_BUDGET_WAITERS)

  /** Sixteen waits dropped by their callers leave an idle node that lets nobody wait again. */
  lemma DroppedWaitsBlock()
    ensures Reachable(BLOCKED)
    ensures forall run :: Possible(BLOCKED, run) ==> WaitingTasks(After(BLOCKED, run)) == {}
  {
    var s := BLOCKED;
    var open := Arrive(0, MAX_FRAME_BYTES);
    OneStep(START, open);
    assert After(START, [open]) == Busy(0);
    DropMany(0, MAX_BUDGET_WAITERS);
    Chains(START, [open], Busy(0), Drops(MAX_BUDGET_WAITERS));
    OneStep(Busy(MAX_BUDGET_WAITERS), Release(0));
    assert Apply(Busy(MAX_BUDGET_WAITERS), Release(0)) == s;
    Chains(START, [open] + Drops(MAX_BUDGET_WAITERS), Busy(MAX_BUDGET_WAITERS), [Release(0)]);
    assert Inv(s);
    forall run | Possible(s, run) ensures WaitingTasks(After(s, run)) == {} {
      var e := After(s, run);
      RunKeeps(s, run);
      LeakedAreCancels(s, run);
      SumCounts(e.tasks, Admitted, WaitingTasks(e));
    }
  }
}
