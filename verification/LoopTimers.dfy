/**
 Timer slots in the main loop: in every reachable state a slot is active exactly
 when the timer list has its one entry, and on the job list exactly when it is
 queued on its level or in dispatch; every add is pending, fired or deleted, and
 never two of these.
 */
module LoopTimers {
  import opened Common
  import opened MainLoop

  // ------------------------------------------------------------------- queues

  ghost predicate NoDup(q: seq<Item>) {
    forall i, j :: 0 <= i < j < |q| ==> q[i] != q[j]
  }

  /** No item twice on a level, and no timer on a wait list. */
  ghost predicate LevelOk(l: Level) {
    && NoDup(l.job) && NoDup(l.wait)
    && forall x :: x in l.wait ==> !x.TimerItem? && x !in l.job
  }

  ghost predicate LevelsOk(levels: seq<Level>) {
    |levels| == 3 && forall q :: 0 <= q <= HIGH ==> LevelOk(levels[q])
  }

  lemma WithoutMembers(q: seq<Item>, x: Item)
    requires NoDup(q)
    ensures NoDup(Without(q, x)) && forall y :: y in Without(q, x) <==> y in q && y != x
    ensures |Without(q, x)| == |q| - if x in q then 1 else 0
  {
    var i, r := IndexOf(q, x), Without(q, x);
    if i < |q| {
      forall y | y in q && y != x ensures y in r {
        var j :| 0 <= j < |q| && q[j] == y;
        assert r[if j < i then j else j - 1] == y;
      }
    }
  }

  lemma AddLevel(levels: seq<Level>, p: nat, x: Item)
    requires LevelsOk(levels) && p <= HIGH && x !in levels[p].job && x !in levels[p].wait
    ensures var levels' := levels[p := ItemAdded(levels[p], x)];
            && LevelsOk(levels')
            && forall i: nat :: QueuedAt(levels', i) == QueuedAt(levels, i) + if x == TimerItem(i) then {p} else {}
  {
    var levels' := levels[p := ItemAdded(levels[p], x)];
    assert forall y :: y in levels'[p].job <==> y in levels[p].job || y == x;
  }

  lemma DropLevel(levels: seq<Level>, p: nat, x: Item)
    requires LevelsOk(levels) && p <= HIGH
    ensures var levels' := levels[p := ItemDeleted(levels[p], x)];
            && LevelsOk(levels')
            && forall i: nat :: QueuedAt(levels', i) == QueuedAt(levels, i) - if x == TimerItem(i) then {p} else {}
  {
    WithoutMembers(levels[p].job, x);
  }

  lemma PopLevel(levels: seq<Level>, p: nat)
    requires LevelsOk(levels) && p <= HIGH && levels[p].job != []
    ensures var x, levels' := levels[p].job[0], levels[p := levels[p].(job := levels[p].job[1..])];
            && LevelsOk(levels')
            && forall i: nat :: QueuedAt(levels', i) == QueuedAt(levels, i) - if x == TimerItem(i) then {p} else {}
  {
    var l := levels[p];
    assert forall y :: y in l.job <==> y == l.job[0] || y in l.job[1..];
  }

  lemma SpliceLevels(levels: seq<Level>)
    requires LevelsOk(levels)
    ensures var levels' := [Spliced(levels[0]), Spliced(levels[1]), Spliced(levels[2])];
            LevelsOk(levels') && forall i: nat :: QueuedAt(levels', i) == QueuedAt(levels, i)
  {
    var levels' := [Spliced(levels[0]), Spliced(levels[1]), Spliced(levels[2])];
    SpliceOne(levels[0]);
    SpliceOne(levels[1]);
    SpliceOne(levels[2]);
    forall i: nat, q | 0 <= q <= HIGH ensures TimerItem(i) in levels'[q].job <==> TimerItem(i) in levels[q].job {
      SpliceOne(levels[q]);
    }
  }

  lemma SpliceOne(l: Level)
    requires LevelOk(l)
    ensures LevelOk(Spliced(l)) && forall x :: x in Spliced(l).job <==> x in l.job || x in l.wait
    ensures forall i: nat :: TimerItem(i) in Spliced(l).job <==> TimerItem(i) in l.job
  {
    var q := l.job + l.wait;
    forall i, j | 0 <= i < j < |q| ensures q[i] != q[j] {
      if i < |l.job| <= j {
        assert l.wait[j - |l.job|] in l.wait;
      }
    }
  }

  // ---------------------------------------------------------------- the invariant

  /** The slot being dispatched, if a timer is. */
  ghost function HandSlot(s: State): (i: Option<nat>) {
    if s.phase.Dispatching? && s.phase.item.TimerItem? then Some(s.phase.item.slot) else None
  }

  /** Waiting to fire: in the timer list, or on its level's job list. */
  ghost predicate Live(t: Timers, hand: Option<nat>, i: nat)
    requires i < |t.slots|
  {
    t.slots[i].state == Active || (t.slots[i].state == JobList && hand != Some(i))
  }

  ghost predicate SlotOk(t: Timers, hand: Option<nat>, i: nat)
    requires i < |t.slots|
  {
    var d := t.slots[i];
    && d.p <= HIGH
    && (d.state == Active <==> d.handle.Some?)
    && (d.handle.Some? ==> d.handle.value in t.heap && t.heap[d.handle.value].slot == i)
    && (hand == Some(i) ==> d.state == JobList && d.check == 0 && d.add in t.fired)
    && (Live(t, hand, i) ==>
          && d.check != 0 && (d.check, i) in t.issued && t.issued[(d.check, i)] == d.add
          && d.add < |t.home| && t.home[d.add] == i
          && d.add !in t.fired && d.add !in t.deleted)
  }

  ghost predicate EntryOk(t: Timers, h: nat)
    requires h in t.heap
  {
    h < t.nextHandle && t.heap[h].slot < |t.slots| && t.slots[t.heap[h].slot].handle == Some(h)
  }

  /** Add number `a`: fired, deleted, or still live in the slot it was given. */
  ghost predicate AddOk(t: Timers, hand: Option<nat>, a: nat)
    requires a < |t.home|
  {
    && t.home[a] < |t.slots|
    && (a !in t.fired && a !in t.deleted ==> Live(t, hand, t.home[a]) && t.slots[t.home[a]].add == a)
  }

  ghost predicate HistoryOk(t: Timers) {
    && (forall i, j :: 0 <= i < j < |t.fired| ==> t.fired[i] != t.fired[j])
    && (forall a :: a in t.fired ==> a < |t.home| && a !in t.deleted)
    && (forall a :: a in t.deleted ==> a < |t.home|)
    && (forall c, pos :: (c, pos) in t.issued ==>
           c != 0 && t.issued[(c, pos)] < |t.home| && t.home[t.issued[(c, pos)]] == pos)
    && (forall x, y :: x in t.issued && y in t.issued && t.issued[x] == t.issued[y] ==> x == y)
  }

  ghost predicate TimersOk(t: Timers, hand: Option<nat>) {
    && (forall i :: 0 <= i < |t.slots| ==> SlotOk(t, hand, i))
    && (forall h :: h in t.heap ==> EntryOk(t, h))
    && (forall a :: 0 <= a < |t.home| ==> AddOk(t, hand, a))
    && HistoryOk(t)
    && (hand.Some? ==> hand.value < |t.slots|)
  }

  /** Where slot `i` should be queued. */
  ghost function Expected(t: Timers, hand: Option<nat>, i: nat): (r: set<nat>) {
    if i < |t.slots| && t.slots[i].state == JobList && hand != Some(i) then {t.slots[i].p} else {}
  }

  ghost predicate QueuesOk(s: State) {
    forall i: nat :: QueuedAt(s.levels, i) == Expected(s.timers, HandSlot(s), i)
  }

  ghost predicate Basic(s: State) {
    && |s.levels| == 3 && |s.runs| == 3 && s.pStop <= HIGH
    && (s.phase.AtLevel? || s.phase.Running? || s.phase.Dispatching? || s.phase.LevelDone? ==> s.phase.p <= HIGH)
  }

  ghost predicate Inv(s: State) {
    Basic(s) && LevelsOk(s.levels) && TimersOk(s.timers, HandSlot(s)) && QueuesOk(s)
  }

  lemma InvShaped(s: State)
    requires Inv(s)
    ensures Shaped(s)
  {
    hide LevelsOk, HistoryOk;
    forall i | 0 <= i < |s.timers.slots| ensures s.timers.slots[i].p <= HIGH {
      assert SlotOk(s.timers, HandSlot(s), i);
    }
    forall h | h in s.timers.heap ensures s.timers.heap[h].slot < |s.timers.slots| {
      assert EntryOk(s.timers, h);
    }
  }

  // ------------------------------------------------------------- preservation

  lemma AddedOk(t: Timers, hand: Option<nat>, p: nat, expire: nat, check: nat)
    requires TimersOk(t, hand) && p <= HIGH && check != 0 && FreshCheck(t, check)
    ensures TimersOk(Added(t, p, expire, check), hand)
    ensures forall i: nat :: Expected(Added(t, p, expire, check), hand, i) == Expected(t, hand, i)
  {
    hide HistoryOk;
    FiredKnown(t);
    var r := Added(t, p, expire, check);
    AddedHistory(t, p, expire, check);
    forall i | 0 <= i < |r.slots| ensures SlotOk(r, hand, i) {
      AddedSlot(t, hand, p, expire, check, i);
    }
    forall h | h in r.heap ensures EntryOk(r, h) {
      AddedEntry(t, hand, p, expire, check, h);
    }
    forall a | 0 <= a < |r.home| ensures AddOk(r, hand, a) {
      AddedAdd(t, hand, p, expire, check, a);
    }
    hide SlotOk, EntryOk, AddOk;
    NotInHand(t, hand);
  }

  /** The slot taken for a new timer is not the one in dispatch. */
  lemma NotInHand(t: Timers, hand: Option<nat>)
    requires TimersOk(t, hand)
    ensures hand != Some(FirstEmpty(t.slots))
  {
    var pos := FirstEmpty(t.slots);
    if pos < |t.slots| {
      assert SlotOk(t, hand, pos);
    }
  }

  lemma AddedSlot(t: Timers, hand: Option<nat>, p: nat, expire: nat, check: nat, i: nat)
    requires TimersOk(t, hand) && p <= HIGH && check != 0 && FreshCheck(t, check)
    requires i < |Added(t, p, expire, check).slots|
    ensures SlotOk(Added(t, p, expire, check), hand, i)
  {
    FiredKnown(t);
    hide HistoryOk;
    NotInHand(t, hand);
    if i != FirstEmpty(t.slots) {
      assert SlotOk(t, hand, i);
      assert t.slots[i].handle.Some? ==> EntryOk(t, t.slots[i].handle.value);
    }
  }

  lemma AddedEntry(t: Timers, hand: Option<nat>, p: nat, expire: nat, check: nat, h: nat)
    requires TimersOk(t, hand) && h in Added(t, p, expire, check).heap
    ensures EntryOk(Added(t, p, expire, check), h)
  {
    hide HistoryOk;
    if h != t.nextHandle {
      assert EntryOk(t, h);
      assert SlotOk(t, hand, t.heap[h].slot);
    }
  }

  lemma AddedAdd(t: Timers, hand: Option<nat>, p: nat, expire: nat, check: nat, a: nat)
    requires TimersOk(t, hand) && a < |Added(t, p, expire, check).home|
    ensures AddOk(Added(t, p, expire, check), hand, a)
  {
    hide HistoryOk;
    NotInHand(t, hand);
    if a < |t.home| {
      assert AddOk(t, hand, a);
      assert SlotOk(t, hand, t.home[a]);
    }
  }

  lemma FiredKnown(t: Timers)
    requires HistoryOk(t)
    ensures forall a :: a in t.fired || a in t.deleted ==> a < |t.home|
  {
  }

  lemma AddedHistory(t: Timers, p: nat, expire: nat, check: nat)
    requires HistoryOk(t) && check != 0 && FreshCheck(t, check)
    ensures HistoryOk(Added(t, p, expire, check))
  {
    var r := Added(t, p, expire, check);
    var key := (check, FirstEmpty(t.slots));
    forall x, y | x in r.issued && y in r.issued && r.issued[x] == r.issued[y] ensures x == y {
      assert x != key ==> x in t.issued && t.issued[(x.0, x.1)] < |t.home|;
      assert y != key ==> y in t.issued && t.issued[(y.0, y.1)] < |t.home|;
    }
  }

  lemma DeletedOk(t: Timers, hand: Option<nat>, pos: nat)
    requires TimersOk(t, hand) && pos < |t.slots| && Live(t, hand, pos)
    ensures TimersOk(Deleted(t, pos), hand)
    ensures forall i: nat :: Expected(Deleted(t, pos), hand, i) == if i == pos then {} else Expected(t, hand, i)
  {
    var r := Deleted(t, pos);
    assert SlotOk(t, hand, pos);
    forall i | 0 <= i < |r.slots| ensures SlotOk(r, hand, i) {
      assert SlotOk(t, hand, i);
    }
    forall h | h in r.heap ensures EntryOk(r, h) {
      assert EntryOk(t, h);
    }
    forall a | 0 <= a < |r.home| ensures AddOk(r, hand, a) {
      assert AddOk(t, hand, a);
    }
  }

  lemma ExpiredOk(t: Timers, hand: Option<nat>, h: nat)
    requires TimersOk(t, hand) && h in t.heap && hand == None
    ensures t.heap[h].slot < |t.slots| && t.slots[t.heap[h].slot].state == Active
    ensures TimersOk(Expired(t, h), hand)
    ensures var i := t.heap[h].slot;
            && Expected(t, hand, i) == {} && Expected(Expired(t, h), hand, i) == {t.slots[i].p}
            && forall j: nat :: j != i ==> Expected(Expired(t, h), hand, j) == Expected(t, hand, j)
  {
    assert EntryOk(t, h);
    var i := t.heap[h].slot;
    assert SlotOk(t, hand, i);
    var r := Expired(t, h);
    forall j | 0 <= j < |r.slots| ensures SlotOk(r, hand, j) {
      assert SlotOk(t, hand, j);
    }
    forall g | g in r.heap ensures EntryOk(r, g) {
      assert EntryOk(t, g);
    }
    forall a | 0 <= a < |r.home| ensures AddOk(r, hand, a) {
      assert AddOk(t, hand, a);
    }
  }

  lemma StartedOk(t: Timers, i: nat)
    requires TimersOk(t, None) && i < |t.slots| && t.slots[i].state == JobList
    ensures TimersOk(Started(t, i), Some(i))
    ensures forall j: nat :: Expected(Started(t, i), Some(i), j) == if j == i then {} else Expected(t, None, j)
  {
    var r := Started(t, i);
    assert SlotOk(t, None, i);
    forall j | 0 <= j < |r.slots| ensures SlotOk(r, Some(i), j) {
      assert SlotOk(t, None, j);
    }
    forall h | h in r.heap ensures EntryOk(r, h) {
      assert EntryOk(t, h);
    }
    forall a | 0 <= a < |r.home| ensures AddOk(r, Some(i), a) {
      assert AddOk(t, None, a);
    }
  }

  lemma EndedOk(t: Timers, i: nat)
    requires TimersOk(t, Some(i))
    ensures i < |t.slots| && t.slots[i].state == JobList
    ensures TimersOk(Ended(t, i), None)
    ensures forall j: nat :: Expected(Ended(t, i), None, j) == Expected(t, Some(i), j)
  {
    assert SlotOk(t, Some(i), i);
    var r := Ended(t, i);
    forall j | 0 <= j < |r.slots| ensures SlotOk(r, None, j) {
      assert SlotOk(t, Some(i), j);
    }
    forall h | h in r.heap ensures EntryOk(r, h) {
      assert EntryOk(t, h);
    }
    forall a | 0 <= a < |r.home| ensures AddOk(r, None, a) {
      assert AddOk(t, Some(i), a);
    }
  }

  lemma TickKeeps(s: State)
    requires Inv(s)
    ensures Shaped(s) && Inv(LoopStep(s))
  {
    hide TimersOk, LevelOk, QueuedAt, Expected, Started, Ended;
    InvShaped(s);
    match s.phase
    case Running(p, n) =>
      if s.levels[p].job != [] {
        StartKeeps(s);
      }
    case Dispatching(p, n, x) =>
      EndKeeps(s);
    case _ =>
  }

  lemma StartKeeps(s: State)
    requires Inv(s) && Shaped(s) && s.phase.Running? && s.levels[s.phase.p].job != []
    ensures Inv(DispatchStarts(s, s.phase.p, s.phase.processed))
  {
    hide TimersOk, LevelOk, Started;
    var p := s.phase.p;
    PopLevel(s.levels, p);
    var x := s.levels[p].job[0];
    if x.TimerItem? {
      assert p in QueuedAt(s.levels, x.slot);
      assert QueuedAt(s.levels, x.slot) == Expected(s.timers, None, x.slot);
      StartedOk(s.timers, x.slot);
    }
  }

  lemma EndKeeps(s: State)
    requires Inv(s) && Shaped(s) && s.phase.Dispatching?
    ensures Inv(DispatchEnds(s, s.phase.p, s.phase.processed, s.phase.item))
  {
    hide TimersOk, LevelOk, Ended;
    var Dispatching(p, n, x) := s.phase;
    var levels' := s.levels[p := s.levels[p].(todo := s.levels[p].todo - 1)];
    assert forall i: nat :: QueuedAt(levels', i) == QueuedAt(s.levels, i);
    assert LevelsOk(levels') by {
      forall q | 0 <= q <= HIGH ensures LevelOk(levels'[q]) {
        TodoIrrelevant(s.levels[q], levels'[q].todo);
      }
    }
    if x.TimerItem? {
      EndedOk(s.timers, x.slot);
    }
  }

  lemma TodoIrrelevant(l: Level, n: int)
    requires LevelOk(l)
    ensures LevelOk(l.(todo := n))
  {
  }

  /** What the handle of a live timer denotes; in dispatch a slot has no handle. */
  lemma DeletableIsLive(s: State, check: nat, pos: nat)
    requires Inv(s) && check != 0 && Deletable(s.timers, check, pos)
    ensures Live(s.timers, HandSlot(s), pos)
    ensures (check, pos) in s.timers.issued && s.timers.issued[(check, pos)] == s.timers.slots[pos].add
  {
    assert SlotOk(s.timers, HandSlot(s), pos);
  }

  lemma TimerDelKeeps(s: State, check: nat, pos: nat)
    requires Inv(s) && Shaped(s) && check != 0 && Deletable(s.timers, check, pos)
    ensures Inv(TimerDeleted(s, pos))
  {
    hide TimersOk, LevelOk;
    DeletableIsLive(s, check, pos);
    DeletedOk(s.timers, HandSlot(s), pos);
    var p := s.timers.slots[pos].p;
    assert QueuedAt(s.levels, pos) == Expected(s.timers, HandSlot(s), pos);
    if s.timers.slots[pos].state == JobList {
      DropLevel(s.levels, p, TimerItem(pos));
    }
  }

  lemma ExpireKeeps(s: State, h: nat)
    requires Inv(s) && Shaped(s) && s.phase.PollTimers? && h in s.timers.heap
    ensures Inv(ExpiredOne(s, h))
  {
    hide TimersOk, LevelOk, Expired;
    ExpiredOk(s.timers, None, h);
    var i := s.timers.heap[h].slot;
    var p := s.timers.slots[i].p;
    assert QueuedAt(s.levels, i) == Expected(s.timers, None, i);
    assert p !in QueuedAt(s.levels, i);
    NotWaiting(s.levels, p, i);
    AddLevel(s.levels, p, TimerItem(i));
  }

  lemma NotWaiting(levels: seq<Level>, p: nat, i: nat)
    requires LevelsOk(levels) && p <= HIGH
    ensures TimerItem(i) !in levels[p].wait
  {
    assert LevelOk(levels[p]);
  }

  lemma JobAddKeeps(levels: seq<Level>, p: nat, id: nat)
    requires LevelsOk(levels) && p <= HIGH && JobItem(id) !in levels[p].job && JobItem(id) !in levels[p].wait
    ensures var levels' := levels[p := levels[p].(wait := levels[p].wait + [JobItem(id)])];
            LevelsOk(levels') && forall i: nat :: QueuedAt(levels', i) == QueuedAt(levels, i)
  {
    assert LevelOk(levels[p]);
  }

  lemma ForgetKeeps(levels: seq<Level>, p: nat, x: Item)
    requires LevelsOk(levels) && p <= HIGH && !x.TimerItem?
    ensures var levels' := levels[p := Forgotten(levels[p], x)];
            LevelsOk(levels') && forall i: nat :: QueuedAt(levels', i) == QueuedAt(levels, i)
  {
    assert LevelOk(levels[p]);
    WithoutMembers(levels[p].wait, x);
    DropLevel(levels, p, x);
  }

  lemma StepKeeps(s: State, a: Action)
    requires Inv(s)
    ensures Shaped(s) && Inv(Step(s, a))
  {
    hide TimersOk, LevelOk, QueuedAt, Expected, Added, Unknown, Begun, LoopStep;
    InvShaped(s);
    match a
    case Tick => TickKeeps(s);
    case ReadClock(_) => SpliceLevels(s.levels);
    case ExpireOne(h) =>
      if s.phase.PollTimers? && NextDue(s.timers, h, s.phase.now) {
        ExpireKeeps(s, h);
      }
    case FdReady(p, id) =>
      if s.phase.PollFds? && p <= HIGH && Unknown(s, OtherItem(id)) {
        UnknownHere(s, p, OtherItem(id));
        AddLevel(s.levels, p, OtherItem(id));
      }
    case TimerAdd(p, expire, check) =>
      if p <= HIGH && check != 0 && FreshCheck(s.timers, check) {
        AddedOk(s.timers, HandSlot(s), p, expire, check);
      }
    case TimerDel(check, pos) =>
      if check != 0 && Deletable(s.timers, check, pos) {
        TimerDelKeeps(s, check, pos);
      }
    case JobAdd(p, id) =>
      if p <= HIGH && Unknown(s, JobItem(id)) {
        UnknownHere(s, p, JobItem(id));
        JobAddKeeps(s.levels, p, id);
      }
    case ItemDel(p, item) =>
      if p <= HIGH && !item.TimerItem? {
        ForgetKeeps(s.levels, p, item);
      }
    case Begin => BegunSame(s);
    case Stop =>
  }

  lemma UnknownHere(s: State, p: nat, x: Item)
    requires Shaped(s) && Unknown(s, x) && p <= HIGH
    ensures x !in s.levels[p].job && x !in s.levels[p].wait
  {
  }

  lemma BegunSame(s: State)
    requires Inv(s) && Shaped(s)
    ensures s.phase.Stopped? ==> Inv(Begun(s))
  {
    hide TimersOk, LevelOk, QueuedAt, Expected;
  }

  lemma InitOk()
    ensures Inv(Init())
  {
  }

  // ---------------------------------------------------------------- every run

  /** The state after the actions `run`. */
  ghost function After(run: seq<Action>): (s: State)
    ensures Inv(s)
    decreases |run|
  {
    if run == [] then
      InitOk();
      Init()
    else
      var prev := After(run[..|run| - 1]);
      StepKeeps(prev, run[|run| - 1]);
      Step(prev, run[|run| - 1])
  }

  /** In every reachable state a slot is active exactly when one entry of the timer
      list points to it, and marked as on the job list exactly when its item is on
      its own level's list or in dispatch. */
  lemma SlotStates(run: seq<Action>, i: nat)
    requires i < |After(run).timers.slots|
    ensures var s := After(run);
            var d := s.timers.slots[i];
            && (d.state == Active <==> exists h :: h in s.timers.heap && s.timers.heap[h].slot == i)
            && (forall g, h :: g in s.timers.heap && h in s.timers.heap ==>
                  s.timers.heap[g].slot == i == s.timers.heap[h].slot ==> g == h)
            && (d.state == JobList <==> QueuedAt(s.levels, i) == {d.p} || HandSlot(s) == Some(i))
            && (QueuedAt(s.levels, i) == {} || QueuedAt(s.levels, i) == {d.p})
  {
    hide After, Step, LevelsOk, HistoryOk;
    var s := After(run);
    assert SlotOk(s.timers, HandSlot(s), i);
    assert QueuedAt(s.levels, i) == Expected(s.timers, HandSlot(s), i);
    forall h | h in s.timers.heap && s.timers.heap[h].slot == i ensures s.timers.slots[i].handle == Some(h) {
      assert EntryOk(s.timers, h);
    }
    if s.timers.slots[i].state == Active {
      assert s.timers.slots[i].handle.value in s.timers.heap;
    }
  }

  /** Both assertions in the timer source hold: a timer that expires is active, and
      one that is dispatched is on the job list. */
  lemma AssertsHold(run: seq<Action>)
    ensures var s := After(run);
            && (forall h :: h in s.timers.heap && s.phase.PollTimers? ==>
                  s.timers.heap[h].slot < |s.timers.slots| && s.timers.slots[s.timers.heap[h].slot].state == Active)
            && (s.phase.Running? && s.levels[s.phase.p].job != [] && s.levels[s.phase.p].job[0].TimerItem? ==>
                  var i := s.levels[s.phase.p].job[0].slot;
                  i < |s.timers.slots| && s.timers.slots[i].state == JobList)
  {
    hide After, Step, LevelsOk, HistoryOk;
    var s := After(run);
    forall h | h in s.timers.heap && s.phase.PollTimers?
      ensures s.timers.heap[h].slot < |s.timers.slots| && s.timers.slots[s.timers.heap[h].slot].state == Active
    {
      assert EntryOk(s.timers, h);
      assert SlotOk(s.timers, HandSlot(s), s.timers.heap[h].slot);
    }
    if s.phase.Running? && s.levels[s.phase.p].job != [] && s.levels[s.phase.p].job[0].TimerItem? {
      var i := s.levels[s.phase.p].job[0].slot;
      assert s.phase.p in QueuedAt(s.levels, i);
      assert QueuedAt(s.levels, i) == Expected(s.timers, HandSlot(s), i);
    }
  }

  /** Every add is in exactly one place: its callback ran, once; it was deleted; or
      it still waits in the slot it was given. */
  lemma EveryAddAccountedFor(run: seq<Action>, a: nat)
    requires a < |After(run).timers.home|
    ensures var s := After(run);
            var t := s.timers;
            && (forall i, j :: 0 <= i < j < |t.fired| ==> t.fired[i] != t.fired[j])
            && !(a in t.fired && a in t.deleted)
            && t.home[a] < |t.slots|
            && (a !in t.fired && a !in t.deleted <==>
                  Live(t, HandSlot(s), t.home[a]) && t.slots[t.home[a]].add == a)
  {
    hide After, Step, LevelsOk, QueuesOk;
    var s := After(run);
    assert AddOk(s.timers, HandSlot(s), a);
    assert SlotOk(s.timers, HandSlot(s), s.timers.home[a]);
  }

  /** A delete with the handle of an add succeeds exactly while that add waits, and
      then it is that add, and no other, that is gone for good. */
  lemma DeleteByHandle(run: seq<Action>, check: nat, pos: nat)
    requires (check, pos) in After(run).timers.issued
    ensures var t := After(run).timers;
            var a := t.issued[(check, pos)];
            && (Deletable(t, check, pos) <==> a !in t.fired && a !in t.deleted)
            && (Deletable(t, check, pos) ==>
                  After(run + [TimerDel(check, pos)]).timers.deleted == t.deleted + {a})
            && (!Deletable(t, check, pos) ==> After(run + [TimerDel(check, pos)]) == After(run))
  {
    hide Step, LevelsOk, QueuesOk, After;
    var s := After(run);
    var t := s.timers;
    var a := t.issued[(check, pos)];
    AfterSnoc(run, TimerDel(check, pos));
    StepDel(s, check, pos);
    assert AddOk(t, HandSlot(s), a);
    assert SlotOk(t, HandSlot(s), pos);
  }

  lemma AfterSnoc(run: seq<Action>, a: Action)
    ensures Shaped(After(run)) && After(run + [a]) == Step(After(run), a)
  {
    hide Inv, Step;
    assert (run + [a])[..|run|] == run;
    InvShaped(After(run));
  }

  lemma StepDel(s: State, check: nat, pos: nat)
    requires Inv(s) && Shaped(s) && check != 0
    ensures Deletable(s.timers, check, pos) ==>
              Step(s, TimerDel(check, pos)).timers.deleted == s.timers.deleted + {s.timers.slots[pos].add}
    ensures !Deletable(s.timers, check, pos) ==> Step(s, TimerDel(check, pos)) == s
  {
  }

  lemma DeletedGrows(s: State, a: Action)
    requires Inv(s) && Shaped(s)
    ensures s.timers.deleted <= Step(s, a).timers.deleted
  {
    hide Inv, QueuedAt;
  }

  /** Once deleted, an add never fires, whatever happens next. */
  lemma {:induction false} NeverFiresAfterDelete(run: seq<Action>, more: seq<Action>, a: nat)
    requires a in After(run).timers.deleted
    ensures a in After(run + more).timers.deleted && a !in After(run + more).timers.fired
    decreases |more|
  {
    hide After, Step;
    var s := After(run + more);
    if more != [] {
      var init, last := more[..|more| - 1], more[|more| - 1];
      NeverFiresAfterDelete(run, init, a);
      AfterSnoc(run + init, last);
      assert run + more == run + init + [last];
      DeletedGrows(After(run + init), last);
    } else {
      assert run + more == run;
    }
    assert HistoryOk(s.timers);
  }
}
