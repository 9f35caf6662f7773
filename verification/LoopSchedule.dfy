/**
 How the main loop shares itself out: what it counts as still to do, how long it
 may sleep, and how soon a queued item gets its turn.
 */
module LoopSchedule {
  import opened Common
  import opened MainLoop
  import opened LoopTimers

  // ---------------------------------------------------------------- accounting

  ghost function Held(s: State, q: nat): (n: nat) {
    if s.phase.Dispatching? && s.phase.p == q then 1 else 0
  }

  ghost function Queued(s: State): (n: nat)
    requires |s.levels| == 3
  {
    |s.levels[0].job| + |s.levels[1].job| + |s.levels[2].job|
  }

  /** Queued on the levels above p. */
  ghost function Above(s: State, p: nat): (n: nat)
    requires |s.levels| == 3
  {
    (if p < 1 then |s.levels[1].job| else 0) + (if p < 2 then |s.levels[2].job| else 0)
  }

  ghost predicate TodoOk(s: State)
    requires |s.levels| == 3
  {
    forall q: nat :: q <= HIGH ==> s.levels[q].todo == |s.levels[q].job| + Held(s, q)
  }

  /** Not in the first iteration of a run that began with jobs already queued. */
  ghost predicate Settled(s: State) {
    !s.leftover || s.tops > (if s.phase.Top? then 0 else 1)
  }

  /** What `remaining` and the poll results amount to, phase by phase. */
  ghost predicate RemainingOk(s: State)
    requires |s.levels| == 3
  {
    match s.phase
    case Stopped => true
    case Top => (Settled(s) ==> s.remaining >= Queued(s)) && (s.tops == 0 ==> s.remaining == 0)
    case PollJobs => (Settled(s) ==> s.remaining >= Queued(s)) && s.tops > 0 && (s.tops == 1 ==> s.remaining == 0)
    case PollTimers(_) => PolledOk(s)
    case Decide => PolledOk(s)
    case PollFds => s.tops > 0
    case AtLevel(p) => s.tops > 0 && s.remaining >= Above(s, p)
    case Running(p, n) => s.tops > 0 && n < QUANTUM && s.remaining >= Above(s, p)
    case Dispatching(p, n, _) => s.tops > 0 && n < QUANTUM && s.remaining >= Above(s, p)
    case LevelDone(p) => s.tops > 0 && s.remaining >= Above(s, p)
  }

  ghost predicate PolledOk(s: State)
    requires |s.levels| == 3
  {
    && (Settled(s) ==> s.remaining + s.jobTodo + s.timerTodo >= Queued(s))
    && s.tops > 0 && (s.tops == 1 ==> s.remaining == 0)
  }

  ghost predicate CountsOk(s: State) {
    Inv(s) && TodoOk(s) && RemainingOk(s)
  }

  lemma DropCounts(l: Level, x: Item)
    requires LevelOk(l)
    ensures var r := ItemDeleted(l, x);
            |r.job| <= |l.job| && r.todo - |r.job| == l.todo - |l.job|
    ensures var r := Forgotten(l, x);
            |r.job| <= |l.job| && r.todo - |r.job| == l.todo - |l.job|
  {
    WithoutMembers(l.job, x);
  }

  /** The loop stands where it stood, and no job list has grown. */
  ghost predicate Shrunk(s: State, t: State) {
    && |s.levels| == 3 && |t.levels| == 3
    && t.phase == s.phase && t.remaining == s.remaining && t.tops == s.tops && t.leftover == s.leftover
    && t.jobTodo == s.jobTodo && t.timerTodo == s.timerTodo
    && forall q: nat :: q <= HIGH ==>
         && |t.levels[q].job| <= |s.levels[q].job|
         && t.levels[q].todo - |t.levels[q].job| == s.levels[q].todo - |s.levels[q].job|
  }

  lemma ShrunkCounts(s: State, t: State)
    requires Shrunk(s, t) && TodoOk(s) && RemainingOk(s)
    ensures TodoOk(t) && RemainingOk(t)
  {
  }

  lemma TickCounts(s: State)
    requires Basic(s) && TodoOk(s) && RemainingOk(s) && Shaped(s)
    ensures TodoOk(LoopStep(s)) && RemainingOk(LoopStep(s))
  {
    hide QueuedAt, Shaped, TodoOk, RemainingOk, DispatchStarts, DispatchEnds;
    match s.phase
    case Running(p, n) =>
      if s.levels[p].job != [] {
        StartCounts(s);
      } else {
        EmptyCounts(s);
      }
    case Dispatching(_, _, _) => EndCounts(s);
    case _ => PlainCounts(s);
  }

  lemma EmptyCounts(s: State)
    requires Basic(s) && TodoOk(s) && RemainingOk(s) && s.phase.Running? && s.levels[s.phase.p].job == []
    ensures TodoOk(RunEnds(s, s.phase.p)) && RemainingOk(RunEnds(s, s.phase.p))
  {
  }

  lemma PlainCounts(s: State)
    requires Basic(s) && TodoOk(s) && RemainingOk(s) && Shaped(s) && !s.phase.Running? && !s.phase.Dispatching?
    ensures TodoOk(LoopStep(s)) && RemainingOk(LoopStep(s))
  {
    hide QueuedAt, Shaped, NoneDue, DispatchStarts, DispatchEnds, RunEnds, TodoOk, RemainingOk;
    var t := LoopStep(s);
    SameLevelsTodo(s, t);
    match s.phase
    case LevelDone(p) => LevelCounted(s);
    case _ => PhaseCounts(s, t);
  }

  lemma SameLevelsTodo(s: State, t: State)
    requires |s.levels| == 3 && t.levels == s.levels && !s.phase.Dispatching? && !t.phase.Dispatching? && TodoOk(s)
    ensures TodoOk(t)
  {
  }

  /** Adding up the level that is done. */
  lemma LevelCounted(s: State)
    requires |s.levels| == 3 && TodoOk(s) && RemainingOk(s) && s.phase.LevelDone? && s.phase.p <= HIGH
    ensures var p := s.phase.p;
            var t := s.(remaining := s.remaining + s.levels[p].todo,
                        phase := if p > LOW then AtLevel(p - 1) else if s.stop then Stopped else Top);
            RemainingOk(t)
  {
    var p := s.phase.p;
    assert s.levels[p].todo == |s.levels[p].job|;
    assert p == 0 || p == 1 || p == 2;
  }

  lemma PhaseCounts(s: State, t: State)
    requires |s.levels| == 3 && t.levels == s.levels && RemainingOk(s) && t.leftover == s.leftover
    requires t.jobTodo == s.jobTodo && t.timerTodo == s.timerTodo
    requires match s.phase
             case Top => t.phase.PollJobs? && t.remaining == s.remaining && t.tops == s.tops + 1
             case PollTimers(_) => (t.phase == s.phase || t.phase.Decide?) && t.remaining == s.remaining &&
                 t.tops == s.tops
             case Decide => t.phase.PollFds? && t.tops == s.tops
             case PollFds => t.phase == AtLevel(HIGH) && t.remaining == 0 && t.tops == s.tops
             case AtLevel(p) => (t.phase == Running(p, 0) || t.phase == LevelDone(p)) && t.remaining == s.remaining &&
                 t.tops == s.tops
             case _ => t == s
    ensures RemainingOk(t)
  {
  }

  lemma StartCounts(s: State)
    requires Basic(s) && TodoOk(s) && RemainingOk(s) && Shaped(s)
    requires s.phase.Running? && s.levels[s.phase.p].job != []
    ensures var t := DispatchStarts(s, s.phase.p, s.phase.processed);
            TodoOk(t) && RemainingOk(t)
  {
    hide QueuedAt, Started;
  }

  lemma EndCounts(s: State)
    requires Basic(s) && TodoOk(s) && RemainingOk(s) && Shaped(s) && s.phase.Dispatching?
    ensures var t := DispatchEnds(s, s.phase.p, s.phase.processed, s.phase.item);
            TodoOk(t) && RemainingOk(t)
  {
    hide QueuedAt, Ended;
  }

  lemma BasicOf(s: State)
    requires Inv(s)
    ensures Basic(s) && LevelsOk(s.levels)
  {
  }

  lemma PolledCounts(s: State, now: nat)
    requires Shaped(s) && s.phase.PollJobs? && TodoOk(s) && RemainingOk(s)
    ensures var t := PolledJobs(s, now);
            TodoOk(t) && RemainingOk(t)
  {
    hide QueuedAt;
  }

  lemma GrownCounts(s: State, p: nat, x: Item)
    requires |s.levels| == 3 && p <= HIGH && TodoOk(s) && RemainingOk(s)
    requires s.phase.PollFds? || s.phase.PollTimers?
    ensures var t := s.(levels := s.levels[p := ItemAdded(s.levels[p], x)],
                        timerTodo := if s.phase.PollTimers? then s.timerTodo + 1 else s.timerTodo);
            TodoOk(t) && RemainingOk(t)
  {
  }

  lemma BegunCounts(s: State)
    requires Shaped(s) && s.phase.Stopped? && TodoOk(s)
    ensures TodoOk(Begun(s)) && RemainingOk(Begun(s))
  {
    hide QueuedAt;
    if !Begun(s).leftover {
      assert s.levels[0].job == [] && s.levels[1].job == [] && s.levels[2].job == [];
    }
  }

  lemma StepCounts(s: State, a: Action)
    requires CountsOk(s)
    ensures Shaped(s) && CountsOk(Step(s, a))
  {
    hide Inv, QueuedAt, Shaped, LoopStep, Added, Deleted, Expired, LevelOk, TodoOk, RemainingOk, PolledJobs, Begun,
         ItemAdded, ItemDeleted, Forgotten, Unknown, FreshCheck, LevelsOk, SlotOk;
    StepKeeps(s, a);
    BasicOf(s);
    var t := Step(s, a);
    match a
    case Tick => TickCounts(s);
    case ReadClock(now) =>
      if s.phase.PollJobs? {
        PolledCounts(s, now);
      }
    case Begin =>
      if s.phase.Stopped? {
        BegunCounts(s);
      }
    case FdReady(p, id) =>
      if t != s {
        GrownCounts(s, p, OtherItem(id));
      }
    case ExpireOne(h) =>
      if s.phase.PollTimers? && NextDue(s.timers, h, s.phase.now) {
        ExpiredCounts(s, h);
      }
    case TimerDel(check, pos) =>
      if check != 0 && Deletable(s.timers, check, pos) {
        DeletedCounts(s, pos);
      }
    case ItemDel(p, item) =>
      if p <= HIGH && !item.TimerItem? {
        DropCounts(s.levels[p], item);
      }
      ShrunkCounts(s, t);
    case _ => ShrunkCounts(s, t);
  }

  lemma ExpiredCounts(s: State, h: nat)
    requires CountsOk(s) && Shaped(s) && s.phase.PollTimers? && h in s.timers.heap
    ensures var t := ExpiredOne(s, h); TodoOk(t) && RemainingOk(t)
  {
    hide Inv, QueuedAt, Shaped, Expired, LevelOk, TodoOk, RemainingOk, ItemAdded, LevelsOk, SlotOk;
    BasicOf(s);
    SlotOfEntry(s, h);
    var t, i := ExpiredOne(s, h), s.timers.heap[h].slot;
    GrownCounts(s, s.timers.slots[i].p, TimerItem(i));
    SameCounts(s.(levels := t.levels, timerTodo := t.timerTodo), t);
  }

  lemma DeletedCounts(s: State, pos: nat)
    requires CountsOk(s) && Shaped(s) && pos < |s.timers.slots|
    ensures var t := TimerDeleted(s, pos); TodoOk(t) && RemainingOk(t)
  {
    hide Inv, QueuedAt, Shaped, Deleted, LevelOk, TodoOk, RemainingOk, ItemDeleted, LevelsOk, SlotOk, Forgotten;
    BasicOf(s);
    SlotLevel(s, pos);
    LevelAt(s, s.timers.slots[pos].p);
    DropCounts(s.levels[s.timers.slots[pos].p], TimerItem(pos));
    ShrunkCounts(s, TimerDeleted(s, pos));
  }

  lemma LevelAt(s: State, p: nat)
    requires Inv(s) && p <= HIGH
    ensures p < |s.levels| && LevelOk(s.levels[p])
  {
    hide TimersOk, QueuesOk, LevelOk;
  }

  lemma SameCounts(s: State, t: State)
    requires |s.levels| == 3 && t == s.(timers := t.timers)
    ensures TodoOk(s) ==> TodoOk(t)
    ensures RemainingOk(s) ==> RemainingOk(t)
  {
  }

  lemma SlotLevel(s: State, i: nat)
    requires Inv(s) && i < |s.timers.slots|
    ensures s.timers.slots[i].p <= HIGH
  {
    assert SlotOk(s.timers, HandSlot(s), i);
  }

  lemma SlotOfEntry(s: State, h: nat)
    requires Inv(s) && h in s.timers.heap
    ensures s.timers.heap[h].slot < |s.timers.slots| && s.timers.slots[s.timers.heap[h].slot].p <= HIGH
  {
    assert EntryOk(s.timers, h);
    SlotLevel(s, s.timers.heap[h].slot);
  }

  lemma {:induction false} AfterCounts(run: seq<Action>)
    ensures CountsOk(After(run))
    decreases |run|
  {
    hide Step, CountsOk;
    if run == [] {
      InitCounts();
    } else {
      AfterCounts(run[..|run| - 1]);
      StepCounts(After(run[..|run| - 1]), run[|run| - 1]);
    }
  }

  lemma InitCounts()
    ensures CountsOk(Init())
  {
    InitOk();
  }

  /** In every reachable state the levels together count what is queued and the
      one item in dispatch. */
  lemma TodoIsWhatIsQueued(run: seq<Action>)
    ensures var s := After(run);
            && |s.levels| == 3
            && s.levels[0].todo + s.levels[1].todo + s.levels[2].todo
               == Queued(s) + if InHand(s).Some? then 1 else 0
  {
    hide After, Step, Inv, RemainingOk;
    AfterCounts(run);
    BasicOf(After(run));
  }

  /** With anything queued the loop polls its descriptors for 0 or 50 ms only, from
      the second iteration of a run on, or from the first if it began with none. */
  lemma NeverSleepsOnWork(run: seq<Action>)
    requires var s := After(run); s.phase.Decide? && Settled(s) && |s.levels| == 3 && Queued(s) > 0
    ensures After(run + [Tick]).timeout != UntilNextTimer
  {
    hide After, Inv, TodoOk, QueuedAt, Shaped;
    AfterCounts(run);
    AfterSnoc(run, Tick);
  }

  /** In the first iteration jobs left over from an earlier run do not count: the
      loop sleeps exactly when this iteration's own polls found nothing. */
  lemma FirstIterationIgnoresLeftovers(run: seq<Action>)
    requires var s := After(run); s.phase.Decide? && s.tops == 1
    ensures var s := After(run);
            After(run + [Tick]).timeout == UntilNextTimer <==> s.jobTodo == 0 && s.timerTodo == 0
  {
    hide After, Inv, TodoOk, QueuedAt, Shaped;
    AfterCounts(run);
    AfterSnoc(run, Tick);
  }

  /** At the choice of a timeout with work queued, the loop sleeps if and only if it is in
      the first iteration of a run and its own polls found nothing. */
  lemma SleepsOnWorkExactly(run: seq<Action>)
    requires var s := After(run); s.phase.Decide? && |s.levels| == 3 && Queued(s) > 0
    ensures var s := After(run);
            After(run + [Tick]).timeout == UntilNextTimer <==> s.tops == 1 && s.jobTodo == 0 && s.timerTodo == 0
  {
    var s := After(run);
    AfterCounts(run);
    hide After, Inv, TodoOk, QueuedAt, Shaped, Queued;
    if s.tops == 1 {
      FirstIterationIgnoresLeftovers(run);
    } else {
      NeverSleepsOnWork(run);
    }
  }

  /** One more action. */
  lemma Do(run: seq<Action>, a: Action) returns (longer: seq<Action>)
    ensures Shaped(After(run)) && longer == run + [a] && After(longer) == Step(After(run), a)
  {
    AfterSnoc(run, a);
    longer := run + [a];
  }

  /** Only `q` is queued, on the highest level; nothing waits, and there are no timers. */
  ghost predicate OnlyHigh(s: State, q: seq<Item>) {
    && |s.levels| == 3 && s.timers.heap == map[]
    && s.levels[0].wait == s.levels[1].wait == s.levels[2].wait == []
    && s.levels[0].job == s.levels[1].job == [] && s.levels[2].job == q
  }

  lemma QueuedHigh(s: State, q: seq<Item>)
    requires OnlyHigh(s, q)
    ensures |s.levels| == 3 && Queued(s) == |q|
  {
  }

  lemma NothingYet()
    ensures After([]).phase.Stopped? && OnlyHigh(After([]), [])
  {
    assert After([]) == Init();
  }

  lemma Restarted(run: seq<Action>, q: seq<Item>) returns (longer: seq<Action>)
    requires After(run).phase.Stopped? && OnlyHigh(After(run), q)
    ensures var t := After(longer); t.phase.Top? && OnlyHigh(t, q) && t.tops == 0 && t.pStop == LOW
  {
    hide After, Inv, Shaped, QueuedAt;
    longer := Do(run, Begin);
  }

  /** From the start of an iteration to the choice of its timeout. */
  lemma ToDecide(run: seq<Action>, q: seq<Item>) returns (longer: seq<Action>)
    requires After(run).phase.Top? && OnlyHigh(After(run), q) && After(run).pStop == LOW
    ensures var s, t := After(run), After(longer);
            t.phase.Decide? && OnlyHigh(t, q) && t.tops == s.tops + 1 && t.jobTodo == t.timerTodo == 0 &&
                t.pStop == HIGH
  {
    hide After, Inv, Shaped, QueuedAt;
    longer := Do(run, Tick);
    longer := Do(longer, ReadClock(0));
    assert OnlyHigh(After(longer), q);
    longer := Do(longer, Tick);
  }

  lemma Decided(run: seq<Action>, q: seq<Item>) returns (longer: seq<Action>)
    requires After(run).phase.Decide? && OnlyHigh(After(run), q)
    ensures var s, t := After(run), After(longer); t.phase.PollFds? && OnlyHigh(t, q) && t.pStop == s.pStop
  {
    hide After, Inv, Shaped, QueuedAt;
    longer := Do(run, Tick);
  }

  /** A descriptor of the highest level becomes ready. */
  lemma Ready(run: seq<Action>, q: seq<Item>, id: nat) returns (longer: seq<Action>)
    requires After(run).phase.PollFds? && OnlyHigh(After(run), q) && OtherItem(id) !in q
    ensures var s, t := After(run), After(longer);
              t.phase.PollFds? && OnlyHigh(t, q + [OtherItem(id)]) && t.pStop == s.pStop
  {
    hide After, Inv, Shaped, QueuedAt;
    longer := Do(run, FdReady(HIGH, id));
    assert Unknown(After(run), OtherItem(id));
  }

  /** The highest level is run; its first item stops the loop. */
  lemma ServeAndStop(run: seq<Action>, x: Item, y: Item) returns (longer: seq<Action>)
    requires After(run).phase.PollFds? && After(run).pStop == HIGH && OnlyHigh(After(run), [x, y]) && x.OtherItem?
    ensures After(longer).phase.Stopped? && OnlyHigh(After(longer), [y])
  {
    hide After, Inv, Shaped, QueuedAt;
    longer := Do(run, Tick);
    longer := Do(longer, Tick);
    assert After(longer).phase == Running(HIGH, 0);
    longer := Do(longer, Stop);
    longer := Do(longer, Tick);
    assert After(longer).phase == Dispatching(HIGH, 0, x);
    longer := Do(longer, Tick);
  }

  /** The loop can sleep on work: two descriptors become ready, the first one served stops
      the loop, and begun again it polls up to the next timer with the other queued. */
  lemma SleepsOnLeftovers()
    ensures exists run :: After(run).phase.Decide? && |After(run).levels| == 3 && Queued(After(run)) == 1 &&
                          After(run + [Tick]).timeout == UntilNextTimer
  {
    hide After, Inv, Shaped, QueuedAt, Step, OnlyHigh, Queued;
    NothingYet();
    var x, y := OtherItem(0), OtherItem(1);
    var run := Restarted([], []);
    run := ToDecide(run, []);
    run := Decided(run, []);
    run := Ready(run, [], 0);
    assert [] + [x] == [x] && [x] + [y] == [x, y];
    run := Ready(run, [x], 1);
    run := ServeAndStop(run, x, y);
    run := Restarted(run, [y]);
    run := ToDecide(run, [y]);
    QueuedHigh(After(run), [y]);
    FirstIterationIgnoresLeftovers(run);
  }

  // ----------------------------------------------------------------- fair turns

  lemma IndexAppend(q: seq<Item>, r: seq<Item>, x: Item)
    requires x in q
    ensures IndexOf(q + r, x) == IndexOf(q, x)
  {
    var i, j := IndexOf(q, x), IndexOf(q + r, x);
    assert (q + r)[i] == x;
    assert j <= i && (q + r)[j] == q[j];
  }

  lemma IndexTail(q: seq<Item>, x: Item)
    requires q != [] && q[0] != x
    ensures IndexOf(q[1..], x) == IndexOf(q, x) - 1 || x !in q
  {
  }

  lemma IndexWithout(q: seq<Item>, x: Item, y: Item)
    requires NoDup(q) && x in q && x != y
    ensures x in Without(q, y) && IndexOf(Without(q, y), x) <= IndexOf(q, x)
  {
    var i, j, r := IndexOf(q, x), IndexOf(q, y), Without(q, y);
    if j < |q| {
      assert r[if i < j then i else i - 1] == x;
    }
  }

  /** Items of this run of the level that are already taken. */
  ghost function Taken(s: State, l: nat): (n: nat) {
    if s.phase.Running? && s.phase.p == l then s.phase.processed
    else if s.phase.Dispatching? && s.phase.p == l then s.phase.processed + 1 else 0
  }

  /** While x stays queued on level l, every finished run has moved it up by four. */
  ghost predicate MovesUp(s: State, x: Item, l: nat, k: nat, base: nat)
    requires |s.levels| == 3 && |s.runs| == 3 && l <= HIGH
  {
    x in s.levels[l].job && !s.phase.Stopped? ==>
      s.runs[l] >= base && IndexOf(s.levels[l].job, x) + QUANTUM * (s.runs[l] - base) + Taken(s, l) <= k
  }

  lemma TickMovesUp(s: State, x: Item, l: nat, k: nat, base: nat)
    requires Basic(s) && LevelsOk(s.levels) && RemainingOk(s) && Shaped(s)
    requires l <= HIGH && MovesUp(s, x, l, k, base) && !s.phase.Stopped? && x in s.levels[l].job
    ensures MovesUp(LoopStep(s), x, l, k, base)
  {
    hide QueuedAt, Started, Ended, Shaped, LevelOk, LevelsOk, IndexOf, DispatchStarts, DispatchEnds, RunEnds, Above,
         Queued;
    match s.phase
    case Running(p, n) =>
      if s.levels[p].job != [] {
        TakeMovesUp(s, x, l, k, base);
      } else {
        IdleRunMovesUp(s, x, l, k, base);
      }
    case Dispatching(p, n, _) => EndMovesUp(s, x, l, k, base);
    case _ =>
  }

  lemma IdleRunMovesUp(s: State, x: Item, l: nat, k: nat, base: nat)
    requires Basic(s) && s.phase.Running? && s.levels[s.phase.p].job == []
    requires l <= HIGH && MovesUp(s, x, l, k, base)
    ensures MovesUp(RunEnds(s, s.phase.p), x, l, k, base)
  {
  }

  lemma TakeMovesUp(s: State, x: Item, l: nat, k: nat, base: nat)
    requires Basic(s) && LevelsOk(s.levels) && Shaped(s) && s.phase.Running? && s.levels[s.phase.p].job != []
    requires l <= HIGH && MovesUp(s, x, l, k, base) && x in s.levels[l].job
    ensures MovesUp(DispatchStarts(s, s.phase.p, s.phase.processed), x, l, k, base)
  {
    hide QueuedAt, Started, IndexOf;
    assert LevelOk(s.levels[l]);
    var q := s.levels[l].job;
    if s.phase.p == l && q[0] != x {
      IndexTail(q, x);
    }
  }

  lemma EndMovesUp(s: State, x: Item, l: nat, k: nat, base: nat)
    requires Basic(s) && RemainingOk(s) && Shaped(s) && s.phase.Dispatching?
    requires l <= HIGH && MovesUp(s, x, l, k, base) && x in s.levels[l].job
    ensures MovesUp(DispatchEnds(s, s.phase.p, s.phase.processed, s.phase.item), x, l, k, base)
  {
    hide QueuedAt, Ended, IndexOf;
  }

  /** What a step can do to a job list. */
  datatype Change = Grows(r: seq<Item>) | Drops(z: Item) | Pops

  ghost predicate Changed(c: Change, q: seq<Item>, q': seq<Item>) {
    match c
    case Grows(r) => q' == q + r
    case Drops(z) => q' == Without(q, z)
    case Pops => q != [] && q' == q[1..]
  }

  /** Lists grow at the end only, and items leave them from the head or by name. */
  lemma StepChanges(s: State, a: Action, l: nat) returns (c: Change)
    requires Inv(s) && l <= HIGH
    ensures Shaped(s) && |Step(s, a).levels| == 3 && Changed(c, s.levels[l].job, Step(s, a).levels[l].job)
    ensures !a.Tick? ==> !c.Pops?
    ensures c.Grows? && c.r != [] ==>
              a.FdReady? || a.ExpireOne? || (a.ReadClock? && s.phase.PollJobs? && c.r == s.levels[l].wait)
    ensures a.FdReady? && c.Grows? && c.r != [] ==>
              s.phase.PollFds? && Unknown(s, OtherItem(a.id)) && c.r == [OtherItem(a.id)]
    ensures a.ExpireOne? && c.Grows? && c.r != [] ==> c.r[0].TimerItem? && |c.r| == 1
  {
    hide Inv, QueuedAt, Shaped, Added, Deleted, Expired, LevelOk, Unknown, FreshCheck, IndexOf, Without, LoopStep;
    StepKeeps(s, a);
    BasicOf(s);
    BasicOf(Step(s, a));
    var q, q' := s.levels[l].job, Step(s, a).levels[l].job;
    c := Grows([]);
    match a
    case Tick => c := TickChanges(s, l);
    case ReadClock(_) =>
      if s.phase.PollJobs? {
        c := Grows(s.levels[l].wait);
      }
    case FdReady(p, id) =>
      if q' != q {
        c := Grows([OtherItem(id)]);
      }
    case ExpireOne(h) =>
      if q' != q {
        c := Grows([TimerItem(s.timers.heap[h].slot)]);
      }
    case TimerDel(_, pos) =>
      if q' != q {
        c := Drops(TimerItem(pos));
      }
    case ItemDel(_, item) =>
      if q' != q {
        c := Drops(item);
      }
    case _ =>
    assert q + [] == q;
  }

  lemma TickChanges(s: State, l: nat) returns (c: Change)
    requires Basic(s) && Shaped(s) && l <= HIGH
    ensures |LoopStep(s).levels| == 3 && Changed(c, s.levels[l].job, LoopStep(s).levels[l].job)
    ensures c.Grows? ==> c.r == []
  {
    hide QueuedAt, Started, Ended, Shaped;
    var q := s.levels[l].job;
    assert q + [] == q;
    c := if s.phase.Running? && s.phase.p == l && q != [] then Pops else Grows([]);
  }

  lemma StepMovesUp(s: State, a: Action, x: Item, l: nat, k: nat, base: nat)
    requires CountsOk(s) && l <= HIGH && MovesUp(s, x, l, k, base) && !s.phase.Stopped?
    requires x in s.levels[l].job
    ensures Shaped(s) && |Step(s, a).levels| == 3 && |Step(s, a).runs| == 3
    ensures MovesUp(Step(s, a), x, l, k, base)
  {
    hide Inv, QueuedAt, Shaped, LoopStep, TodoOk, RemainingOk, Unknown, IndexOf, Step, LevelOk;
    StepKeeps(s, a);
    BasicOf(s);
    BasicOf(Step(s, a));
    if a.Tick? {
      StepTick(s);
      TickMovesUp(s, x, l, k, base);
    } else {
      var c := StepChanges(s, a, l);
      OthersStandStill(s, a);
      var q := s.levels[l].job;
      match c
      case Grows(r) => IndexAppend(q, r, x);
      case Drops(z) => DropMoves(s.levels[l], x, z);
      case Pops =>
    }
  }

  lemma StepTick(s: State)
    requires Shaped(s)
    ensures Step(s, Tick) == LoopStep(s)
  {
  }

  /** Only the loop itself finishes runs and takes items. */
  lemma OthersStandStill(s: State, a: Action)
    requires Shaped(s) && !a.Tick? && !s.phase.Stopped?
    ensures var t := Step(s, a);
            t.runs == s.runs && t.tops == s.tops && (t.phase == s.phase || (s.phase.PollJobs? && t.phase.PollTimers?))
  {
    hide QueuedAt;
  }

  lemma DropMoves(l: Level, x: Item, y: Item)
    requires LevelOk(l) && x in l.job
    ensures x in Without(l.job, y) ==> IndexOf(Without(l.job, y), x) <= IndexOf(l.job, x)
  {
    if x != y {
      IndexWithout(l.job, x, y);
    } else {
      WithoutMembers(l.job, x);
    }
  }

  /** p_stop in the n-th iteration: HIGH, MED, LOW, and again. */
  function StopOf(n: nat): (p: nat)
    ensures p <= HIGH
  {
    if n % 3 == 0 then 0 else 3 - n % 3
  }

  /** In how many of the first n iterations level q is run. */
  function RunsBy(q: nat, n: nat): (r: nat) {
    if n == 0 then 0 else RunsBy(q, n - 1) + if q >= StopOf(n) then 1 else 0
  }

  lemma RunsUnfold(q: nat, n: nat)
    ensures RunsBy(q, n + 1) == RunsBy(q, n) + if q >= StopOf(n + 1) then 1 else 0
  {
  }

  lemma RunsGrow(q: nat, m: nat, n: nat)
    requires m <= n
    ensures RunsBy(q, m) <= RunsBy(q, n)
    decreases n - m
  {
    if m < n {
      RunsGrow(q, m, n - 1);
    }
  }

  lemma LowInThree(b: nat)
    ensures StopOf(b + 1) == 0 || StopOf(b + 2) == 0 || StopOf(b + 3) == 0
  {
  }

  /** Any three iterations in a row run every level. */
  lemma {:induction false} RunsEveryThree(q: nat, n: nat, m: nat)
    ensures RunsBy(q, n + 3 * m) >= RunsBy(q, n) + m
    decreases m
  {
    hide RunsBy, StopOf;
    if m > 0 {
      RunsEveryThree(q, n, m - 1);
      var b := n + 3 * (m - 1);
      RunsUnfold(q, b);
      RunsUnfold(q, b + 1);
      RunsUnfold(q, b + 2);
      LowInThree(b);
    }
  }

  /** Level q has had its turn in this iteration. */
  predicate Past(ph: Phase, q: nat) {
    match ph
    case AtLevel(p) => q > p
    case Running(p, _) => q > p
    case Dispatching(p, _, _) => q > p
    case LevelDone(p) => q >= p
    case _ => false
  }

  ghost predicate RunsFit(ph: Phase, pStop: nat, tops: nat, runs: seq<nat>) {
    && |runs| == 3 && pStop == StopOf(tops)
    && (!ph.Top? ==> tops > 0)
    && forall q: nat :: q <= HIGH ==>
         runs[q] == if ph.Top? then RunsBy(q, tops)
                    else RunsBy(q, tops - 1) + if q >= pStop && Past(ph, q) then 1 else 0
  }

  ghost predicate RunsOk(s: State) {
    s.phase.Stopped? ||
    (&& RunsFit(s.phase, s.pStop, s.tops, s.runs)
     && (s.phase.Running? || s.phase.Dispatching? ==> s.phase.p >= s.pStop))
  }

  lemma NextStop(n: nat)
    ensures StopOf(n + 1) == if StopOf(n) == LOW then HIGH else StopOf(n) - 1
  {
  }

  /** A run that ends puts its level among those that had their turn. */
  lemma RunEndsFit(ph: Phase, pStop: nat, tops: nat, runs: seq<nat>, p: nat)
    requires RunsFit(ph, pStop, tops, runs) && pStop <= p <= HIGH
    requires (ph.Running? || ph.Dispatching?) && ph.p == p
    ensures RunsFit(LevelDone(p), pStop, tops, runs[p := runs[p] + 1])
  {
    hide RunsBy, StopOf;
  }

  /** When the lowest level is done the iteration is complete. */
  lemma IterationFit(pStop: nat, tops: nat, runs: seq<nat>)
    requires RunsFit(LevelDone(LOW), pStop, tops, runs)
    ensures RunsFit(Top, pStop, tops, runs)
  {
    hide StopOf;
    forall q: nat | q <= HIGH ensures runs[q] == RunsBy(q, tops) {
      RunsUnfold(q, tops - 1);
    }
  }

  /** Where the loop goes, as far as turns are concerned. */
  lemma TickMoves(s: State)
    requires Basic(s) && Shaped(s)
    ensures var t := LoopStep(s);
            match s.phase
            case Top => t.phase.PollJobs? && t.tops == s.tops + 1 && t.runs == s.runs
                        && t.pStop == (if s.pStop == LOW then HIGH else s.pStop - 1)
            case Running(p, n) =>
              && t.tops == s.tops && t.pStop == s.pStop
              && if s.levels[p].job == [] then
                   t.runs == s.runs[p := s.runs[p] + 1] && (t.phase.Stopped? || t.phase == LevelDone(p))
                 else t.runs == s.runs && t.phase.Dispatching? && t.phase.p == p
            case Dispatching(p, n, _) =>
              && t.tops == s.tops && t.pStop == s.pStop
              && if s.stop || n + 1 >= QUANTUM then
                   t.runs == s.runs[p := s.runs[p] + 1] && (t.phase.Stopped? || t.phase == LevelDone(p))
                 else t.runs == s.runs && t.phase == Running(p, n + 1)
            case _ => t.tops == s.tops && t.pStop == s.pStop && t.runs == s.runs
  {
    hide QueuedAt, Started, Ended;
  }

  lemma TickRuns(s: State)
    requires Basic(s) && Shaped(s) && RunsOk(s)
    ensures RunsOk(LoopStep(s))
  {
    hide QueuedAt, Shaped, RunsBy, StopOf, DispatchStarts, DispatchEnds, RunEnds;
    NextStop(s.tops);
    TickMoves(s);
    match s.phase
    case Running(p, _) => RunEndsFit(s.phase, s.pStop, s.tops, s.runs, p);
    case Dispatching(p, _, _) => RunEndsFit(s.phase, s.pStop, s.tops, s.runs, p);
    case LevelDone(p) =>
      if p == LOW {
        IterationFit(s.pStop, s.tops, s.runs);
      }
    case _ =>
  }

  ghost predicate FairInv(s: State) {
    CountsOk(s) && RunsOk(s)
  }

  lemma StepRuns(s: State, a: Action)
    requires FairInv(s)
    ensures Shaped(s) && FairInv(Step(s, a))
  {
    hide Inv, QueuedAt, Shaped, LoopStep, Added, Deleted, Expired, LevelOk, TodoOk, RemainingOk, Unknown, FreshCheck,
         ItemAdded, ItemDeleted, Forgotten, CountsOk, RunsBy;
    assert CountsOk(s) && Basic(s) by {
      FairBasic(s);
    }
    StepCounts(s, a);
    match a
    case Tick => TickRuns(s);
    case _ => OthersLeaveRuns(s, a);
  }

  lemma FairBasic(s: State)
    requires FairInv(s)
    ensures Basic(s)
  {
  }

  lemma OthersLeaveRuns(s: State, a: Action)
    requires Basic(s) && Shaped(s) && RunsOk(s) && !a.Tick?
    ensures RunsOk(Step(s, a))
  {
    hide QueuedAt, Shaped, Added, Deleted, Expired, Unknown, FreshCheck, ItemAdded, ItemDeleted, Forgotten;
  }

  lemma {:induction false} AfterFair(run: seq<Action>)
    ensures FairInv(After(run))
    decreases |run|
  {
    hide Step, FairInv;
    if run == [] {
      InitFair();
    } else {
      AfterFair(run[..|run| - 1]);
      StepRuns(After(run[..|run| - 1]), run[|run| - 1]);
    }
  }

  lemma InitFair()
    ensures FairInv(Init())
  {
    InitCounts();
  }

  /** The loop runs, and x is on the job list of level l. */
  ghost predicate Waiting(run: seq<Action>, x: Item, l: nat) {
    var s := After(run);
    !s.phase.Stopped? && l < |s.levels| && x in s.levels[l].job
  }

  lemma {:induction false} WaitingMovesUp(run: seq<Action>, more: seq<Action>, x: Item, l: nat, k: nat, base: nat)
    requires l <= HIGH && forall n :: 0 <= n <= |more| ==> Waiting(run + more[..n], x, l)
    requires Basic(After(run)) && MovesUp(After(run), x, l, k, base)
    ensures Basic(After(run + more)) && MovesUp(After(run + more), x, l, k, base)
    decreases |more|
  {
    hide After, Step, MovesUp, CountsOk, FairInv;
    if more == [] {
      assert run + more == run;
    } else {
      var init, last := more[..|more| - 1], more[|more| - 1];
      forall n | 0 <= n <= |init| ensures Waiting(run + init[..n], x, l) {
        assert init[..n] == more[..n];
      }
      WaitingMovesUp(run, init, x, l, k, base);
      assert run + more == run + init + [last];
      AfterSnoc(run + init, last);
      AfterCounts(run + init);
      assert Waiting(run + more[..|more| - 1], x, l);
      StepMovesUp(After(run + init), last, x, l, k, base);
      BasicOf(After(run + more));
    }
  }

  /**
   No starvation: as long as the loop is not stopped, an item at index i of the job
   list of any level stays there for at most k / 4 finished runs of the level, and for
   at most 3 * (k / 4 + 1) further iterations, whatever else is queued, added or deleted
   meanwhile.  Here k is i and, in the middle of a run of that level, the items that the
   run has taken already.
   */
  lemma NoStarvation(run: seq<Action>, more: seq<Action>, x: Item, l: nat)
    requires l <= HIGH && forall n :: 0 <= n <= |more| ==> Waiting(run + more[..n], x, l)
    ensures var s, t := After(run), After(run + more);
            && l < |s.levels| && |s.runs| == |t.runs| == 3
            && var k := IndexOf(s.levels[l].job, x) + Taken(s, l);
               t.runs[l] - s.runs[l] <= k / 4 && t.tops - s.tops <= 3 * (k / 4 + 1)
  {
    hide After, Step, QueuedAt, RunsBy, IndexOf, StopOf, TimersOk, QueuesOk, LevelsOk, TodoOk, RemainingOk;
    var s, t := After(run), After(run + more);
    AfterFair(run);
    AfterFair(run + more);
    BasicOf(s);
    BasicOf(t);
    assert run + more[..0] == run && run + more[..|more|] == run + more;
    assert Waiting(run + more[..0], x, l) && Waiting(run + more[..|more|], x, l);
    var k := IndexOf(s.levels[l].job, x) + Taken(s, l);
    WaitingMovesUp(run, more, x, l, k, s.runs[l]);
    var m := k / 4 + 1;
    if t.tops - s.tops > 3 * m {
      RunsEveryThree(l, s.tops, m);
      RunsGrow(l, s.tops + 3 * m, t.tops - 1);
      RunsGrow(l, t.tops - 1, t.tops);
      RunsAtMost(s, l);
    }
  }

  lemma RunsAtMost(s: State, l: nat)
    requires RunsOk(s) && !s.phase.Stopped? && l <= HIGH
    ensures |s.runs| == 3 && s.runs[l] <= RunsBy(l, s.tops)
  {
  }

  /** First come, first served: a step never changes the order of two items that
      stay queued on a level. */
  lemma OrderKept(s: State, a: Action, l: nat, x: Item, y: Item)
    requires CountsOk(s) && l <= HIGH && x in s.levels[l].job && y in s.levels[l].job
    requires IndexOf(s.levels[l].job, x) < IndexOf(s.levels[l].job, y)
    ensures Shaped(s) && |Step(s, a).levels| == 3
    ensures var q := Step(s, a).levels[l].job;
            x in q && y in q ==> IndexOf(q, x) < IndexOf(q, y)
  {
    hide Inv, QueuedAt, Shaped, TodoOk, RemainingOk, IndexOf, Step, Unknown, LevelOk;
    var c := StepChanges(s, a, l);
    BasicOf(s);
    var q := s.levels[l].job;
    match c
    case Grows(r) => OrderAppend(q, r, x, y);
    case Drops(z) => OrderDrop(s.levels[l], x, y, z);
    case Pops => OrderPop(s.levels[l], x, y);
  }

  lemma OrderPop(l: Level, x: Item, y: Item)
    requires LevelOk(l) && x in l.job && y in l.job && IndexOf(l.job, x) < IndexOf(l.job, y)
    ensures var q := l.job[1..]; x in q && y in q ==> IndexOf(q, x) < IndexOf(q, y)
  {
    hide IndexOf;
    var q := l.job;
    assert IndexOf(q, y) != 0;
    if q[0] != x {
      IndexTail(q, x);
      IndexTail(q, y);
    }
  }

  lemma OrderAppend(q: seq<Item>, r: seq<Item>, x: Item, y: Item)
    requires x in q && y in q && IndexOf(q, x) < IndexOf(q, y)
    ensures IndexOf(q + r, x) < IndexOf(q + r, y)
  {
    IndexAppend(q, r, x);
    IndexAppend(q, r, y);
  }

  lemma OrderDrop(l: Level, x: Item, y: Item, z: Item)
    requires LevelOk(l) && x in l.job && y in l.job && IndexOf(l.job, x) < IndexOf(l.job, y)
    ensures var q := Without(l.job, z); x in q && y in q ==> IndexOf(q, x) < IndexOf(q, y)
  {
    WithoutMembers(l.job, z);
    if z != x && z != y {
      WithoutIndex(l.job, x, z);
      WithoutIndex(l.job, y, z);
    }
  }

  lemma WithoutIndex(q: seq<Item>, x: Item, z: Item)
    requires NoDup(q) && x in q && x != z
    ensures var i, j := IndexOf(q, x), IndexOf(q, z);
            IndexOf(Without(q, z), x) == if j < i then i - 1 else i
  {
    var i, j, r := IndexOf(q, x), IndexOf(q, z), Without(q, z);
    if j < |q| {
      assert r[if i < j then i else i - 1] == x;
      WithoutMembers(q, z);
    }
  }

  /** A job waits for the next iteration's poll: no other step puts what is on a
      wait list on a job list. */
  lemma JobsWaitForThePoll(s: State, a: Action, l: nat, x: Item)
    requires CountsOk(s) && l <= HIGH && x in s.levels[l].wait
    requires !(a.ReadClock? && s.phase.PollJobs?)
    ensures Shaped(s) && |Step(s, a).levels| == 3 && x !in Step(s, a).levels[l].job
  {
    hide Inv, QueuedAt, Shaped, TodoOk, RemainingOk, Step, IndexOf;
    var c := StepChanges(s, a, l);
    BasicOf(s);
    assert LevelOk(s.levels[l]);
    if c.Drops? {
      WithoutMembers(s.levels[l].job, c.z);
    }
  }
}
