/**
 Jobs and descriptors: each is in one place at most, it is queued and dispatched on the
 level that was asked for, and once deleted it is never run.
 */
module LoopJobs {
  import opened Common
  import opened MainLoop
  import opened LoopTimers

  /** The levels on whose wait or job list x is. */
  ghost function Levels(levels: seq<Level>, x: Item): (r: set<nat>) {
    set l: nat | l < |levels| && (x in levels[l].wait || x in levels[l].job)
  }

  ghost predicate Held(s: State, x: Item) {
    InHand(s) == Some(x)
  }

  /** How many places an item is in. */
  ghost function Places(s: State, x: Item): (n: nat) {
    |Levels(s.levels, x)| + One(Held(s, x))
  }

  /** A call that asks for x on level p, and is granted. */
  ghost predicate AsksFor(s: State, a: Action, x: Item)
    requires Shaped(s)
  {
    && Unknown(s, x) && !x.TimerItem?
    && ((a.JobAdd? && a.p <= HIGH && x == JobItem(a.id)) ||
        (a.FdReady? && a.p <= HIGH && x == OtherItem(a.id) && s.phase.PollFds?))
  }

  /** What a step can do to an item that is no timer. */
  datatype Move = Stays | Taken(p: nat) | Done | Queued(p: nat) | Dropped(p: nat)

  ghost predicate Moved(s: State, a: Action, t: State, x: Item, m: Move)
    requires Shaped(s)
  {
    var was, now := Levels(s.levels, x), Levels(t.levels, x);
    match m
    case Stays => now == was && (Held(t, x) <==> Held(s, x)) && (Held(s, x) ==> t.phase.p == s.phase.p)
    case Taken(p) => p in was && now == was - {p} && !Held(s, x) && Held(t, x) && t.phase.p == p
    case Done => now == was && Held(s, x) && !Held(t, x)
    case Queued(p) => AsksFor(s, a, x) && p == a.p && now == was + {p} && !Held(t, x)
    case Dropped(p) => a == ItemDel(p, x) && now == was - {p} && (Held(t, x) <==> Held(s, x)) && t.phase == s.phase
  }

  // ----------------------------------------------------------------- single levels

  /** A level that changes for x, or not, while the others do not. */
  lemma OneLevel(levels: seq<Level>, p: nat, l: Level, x: Item)
    requires p < |levels|
    ensures Levels(levels[p := l], x) ==
            Levels(levels, x) - {p} + if x in l.wait || x in l.job then {p} else {}
  {
  }

  lemma PopOne(l: Level, x: Item)
    requires LevelOk(l) && l.job != []
    ensures x in l.job[1..] || x in l.wait <==> (x in l.job || x in l.wait) && x != l.job[0]
  {
    assert forall y :: y in l.job <==> y == l.job[0] || y in l.job[1..];
  }

  lemma ForgetOne(l: Level, x: Item, y: Item)
    requires LevelOk(l)
    ensures var r := Forgotten(l, y);
            x in r.wait || x in r.job <==> (x in l.wait || x in l.job) && x != y
  {
    WithoutMembers(l.wait, y);
    WithoutMembers(l.job, y);
  }

  lemma DropTimer(l: Level, x: Item, i: nat)
    requires LevelOk(l) && !x.TimerItem?
    ensures var r := ItemDeleted(l, TimerItem(i));
            x in r.wait || x in r.job <==> x in l.wait || x in l.job
  {
    WithoutMembers(l.job, TimerItem(i));
  }

  lemma SpliceOneLevel(levels: seq<Level>, x: Item)
    requires |levels| == 3
    ensures Levels([Spliced(levels[0]), Spliced(levels[1]), Spliced(levels[2])], x) == Levels(levels, x)
  {
    var after := [Spliced(levels[0]), Spliced(levels[1]), Spliced(levels[2])];
    forall l: nat | l < 3
      ensures x in after[l].wait || x in after[l].job <==> x in levels[l].wait || x in levels[l].job
    {
      assert after[l] == Spliced(levels[l]);
    }
  }

  // -------------------------------------------------------------------- every step

  lemma LevelAt(s: State, p: nat)
    requires Inv(s) && p <= HIGH
    ensures |s.levels| == 3 && LevelOk(s.levels[p])
  {
    hide TimersOk, QueuesOk, LevelOk;
  }

  lemma TickMoves(s: State, x: Item) returns (m: Move)
    requires Inv(s) && Shaped(s) && !x.TimerItem?
    ensures Moved(s, Tick, LoopStep(s), x, m)
  {
    hide Inv, QueuedAt, Started, Ended, Levels, Shaped, LevelOk, Unknown;
    m := Stays;
    match s.phase
    case Running(p, n) =>
      ShapedLevel(s);
      if s.levels[p].job != [] {
        LevelAt(s, p);
        PopOne(s.levels[p], x);
        var l := s.levels[p];
        OneLevel(s.levels, p, l.(job := l.job[1..]), x);
        OneLevel(s.levels, p, l, x);
        assert s.levels[p := l] == s.levels;
        if l.job[0] == x {
          m := Taken(p);
        }
      }
    case Dispatching(p, n, y) =>
      ShapedLevel(s);
      var l := s.levels[p];
      OneLevel(s.levels, p, l.(todo := l.todo - 1), x);
      OneLevel(s.levels, p, l, x);
      assert s.levels[p := l] == s.levels;
      if y == x {
        m := Done;
      }
    case _ =>
  }

  lemma ShapedLevel(s: State)
    requires Shaped(s) && (s.phase.Running? || s.phase.Dispatching?)
    ensures |s.levels| == 3 && s.phase.p <= HIGH
  {
    hide QueuedAt;
  }

  lemma UnknownNotHeld(s: State, x: Item)
    requires Shaped(s)
    ensures Unknown(s, x) ==> !Held(s, x) && Levels(s.levels, x) == {}
  {
    hide QueuedAt;
  }

  lemma StepMoves(s: State, a: Action, x: Item) returns (m: Move)
    requires Inv(s) && Shaped(s) && !x.TimerItem?
    ensures Moved(s, a, Step(s, a), x, m)
  {
    hide Inv, QueuedAt, Levels, LevelOk, LoopStep, Unknown, Added, Deleted, Expired, FreshCheck, ItemDeleted,
         Forgotten, Spliced;
    UnknownNotHeld(s, x);
    m := Stays;
    match a
    case Tick => m := TickMoves(s, x);
    case ReadClock(_) => SpliceOneLevel(s.levels, x);
    case ExpireOne(h) =>
      if s.phase.PollTimers? && NextDue(s.timers, h, s.phase.now) {
        ExpireMoves(s, h, x);
      }
    case FdReady(p, id) =>
      if s.phase.PollFds? && p <= HIGH && Unknown(s, OtherItem(id)) {
        m := AddMoves(s, p, OtherItem(id), x, ItemAdded(s.levels[p], OtherItem(id)));
      }
    case JobAdd(p, id) =>
      if p <= HIGH && Unknown(s, JobItem(id)) {
        m := AddMoves(s, p, JobItem(id), x, s.levels[p].(wait := s.levels[p].wait + [JobItem(id)]));
      }
    case TimerDel(check, pos) =>
      if check != 0 && Deletable(s.timers, check, pos) {
        DeleteMoves(s, pos, x);
      }
    case ItemDel(p, y) =>
      if p <= HIGH && !y.TimerItem? {
        ForgetMoves(s, p, y, x);
        if y == x {
          m := Dropped(p);
        }
      }
    case _ =>
  }

  lemma ExpireMoves(s: State, h: nat, x: Item)
    requires Inv(s) && Shaped(s) && h in s.timers.heap && !x.TimerItem?
    ensures Levels(ExpiredOne(s, h).levels, x) == Levels(s.levels, x)
  {
    hide Inv, QueuedAt, Levels, Expired;
    var i := s.timers.heap[h].slot;
    var p := s.timers.slots[i].p;
    var l := s.levels[p];
    OneLevel(s.levels, p, ItemAdded(l, TimerItem(i)), x);
    OneLevel(s.levels, p, l, x);
    assert s.levels[p := l] == s.levels;
  }

  /** A list of level p gains y. */
  lemma AddMoves(s: State, p: nat, y: Item, x: Item, l: Level) returns (m: Move)
    requires |s.levels| == 3 && p <= HIGH
    requires forall z :: (z in l.wait || z in l.job) <==> z in s.levels[p].wait || z in s.levels[p].job || z == y
    ensures Levels(s.levels[p := l], x) == Levels(s.levels, x) + if x == y then {p} else {}
    ensures m == if x == y then Queued(p) else Stays
  {
    hide Levels;
    OneLevel(s.levels, p, l, x);
    OneLevel(s.levels, p, s.levels[p], x);
    assert s.levels[p := s.levels[p]] == s.levels;
    m := if x == y then Queued(p) else Stays;
  }

  lemma DeleteMoves(s: State, pos: nat, x: Item)
    requires Inv(s) && Shaped(s) && pos < |s.timers.slots| && !x.TimerItem?
    ensures Levels(TimerDeleted(s, pos).levels, x) == Levels(s.levels, x)
  {
    hide Inv, QueuedAt, Levels, Deleted, LevelOk, ItemDeleted;
    var p := s.timers.slots[pos].p;
    var l := s.levels[p];
    LevelAt(s, p);
    DropTimer(l, x, pos);
    OneLevel(s.levels, p, ItemDeleted(l, TimerItem(pos)), x);
    OneLevel(s.levels, p, l, x);
    assert s.levels[p := l] == s.levels;
  }

  lemma ForgetMoves(s: State, p: nat, y: Item, x: Item)
    requires Inv(s) && |s.levels| == 3 && p <= HIGH
    ensures Levels(s.levels[p := Forgotten(s.levels[p], y)], x) == Levels(s.levels, x) - if x == y then {p} else {}
  {
    hide Inv, Levels, LevelOk, Forgotten;
    var l := s.levels[p];
    LevelAt(s, p);
    ForgetOne(l, x, y);
    OneLevel(s.levels, p, Forgotten(l, y), x);
    OneLevel(s.levels, p, l, x);
    assert s.levels[p := l] == s.levels;
  }

  // ----------------------------------------------------------------------- results

  /** No job or descriptor is ever in two places. */
  lemma {:induction false} OnePlace(run: seq<Action>, x: Item)
    requires !x.TimerItem?
    ensures Places(After(run), x) <= 1
    decreases |run|
  {
    hide Step, Inv, Levels;
    if run == [] {
      assert After([]) == Init();
      InitNowhere(x);
    } else {
      var before, a := run[..|run| - 1], run[|run| - 1];
      assert run == before + [a];
      OnePlace(before, x);
      AfterSnoc(before, a);
      var s := After(before);
      var m := StepMoves(s, a, x);
      UnknownNotHeld(s, x);
      MoveKeepsOne(s, a, After(run), x, m);
    }
  }

  lemma MoveKeepsOne(s: State, a: Action, t: State, x: Item, m: Move)
    requires Shaped(s) && Moved(s, a, t, x, m) && Places(s, x) <= 1
    requires m.Queued? ==> !Held(s, x) && Levels(s.levels, x) == {}
    ensures Places(t, x) <= 1
  {
    hide Levels, Held, Shaped, AsksFor;
    if m.Queued? {
      assert Levels(t.levels, x) == {m.p};
    }
  }

  lemma InitNowhere(x: Item)
    ensures Levels(Init().levels, x) == {} && !Held(Init(), x)
  {
  }

  /** The level that was last asked for. */
  ghost function LevelAsked(run: seq<Action>, x: Item): (p: nat)
    decreases |run|
  {
    if run == [] then 0
    else
      var before, a := run[..|run| - 1], run[|run| - 1];
      InvShaped(After(before));
      if AsksFor(After(before), a, x) then a.p else LevelAsked(before, x)
  }

  /** Wherever an item is queued, and when it is dispatched, it is on the level that was
      asked for when it was added. */
  lemma {:induction false} OnTheLevelAskedFor(run: seq<Action>, x: Item)
    requires !x.TimerItem?
    ensures var s := After(run);
            && Levels(s.levels, x) <= {LevelAsked(run, x)}
            && (Held(s, x) ==> s.phase.p == LevelAsked(run, x))
    decreases |run|
  {
    hide Step, Inv, Levels;
    if run == [] {
      assert After([]) == Init();
      InitNowhere(x);
    } else {
      var before, a := run[..|run| - 1], run[|run| - 1];
      assert run == before + [a];
      OnTheLevelAskedFor(before, x);
      AfterSnoc(before, a);
      var s := After(before);
      InvShaped(s);
      var m := StepMoves(s, a, x);
      UnknownNotHeld(s, x);
    }
  }

  /** An item added is on a list of the level it was added to. */
  lemma {:induction false} AddedIsQueued(run: seq<Action>, a: Action, x: Item)
    requires Shaped(After(run)) && AsksFor(After(run), a, x)
    ensures Levels(After(run + [a]).levels, x) == {a.p}
  {
    hide After, Inv, Levels, QueuedAt, Unknown;
    AfterSnoc(run, a);
    var s := After(run);
    UnknownNotHeld(s, x);
    if a.JobAdd? {
      var m := AddMoves(s, a.p, x, x, s.levels[a.p].(wait := s.levels[a.p].wait + [x]));
    } else {
      var m := AddMoves(s, a.p, x, x, ItemAdded(s.levels[a.p], x));
    }
  }

  /** An item deleted from its level is nowhere, and unless it is added again it never runs. */
  lemma {:induction false} DeletedNeverRuns(run: seq<Action>, p: nat, x: Item, more: seq<Action>)
    requires !x.TimerItem? && p in Levels(After(run).levels, x)
    requires forall n :: 0 <= n < |more| ==> !(more[n].JobAdd? && x == JobItem(more[n].id))
    requires forall n :: 0 <= n < |more| ==> !(more[n].FdReady? && x == OtherItem(more[n].id))
    ensures var t := After(run + [ItemDel(p, x)] + more); Levels(t.levels, x) == {} && !Held(t, x)
    decreases |more|
  {
    hide After, Step, Inv, Levels;
    var start := run + [ItemDel(p, x)];
    if more == [] {
      assert start + more == start;
      OnePlace(run, x);
      DeletedGone(run, p, x);
    } else {
      var init, a := more[..|more| - 1], more[|more| - 1];
      DeletedNeverRuns(run, p, x, init);
      assert start + more == start + init + [a];
      AfterSnoc(start + init, a);
      var m := StepMoves(After(start + init), a, x);
    }
  }

  lemma DeletedGone(run: seq<Action>, p: nat, x: Item)
    requires !x.TimerItem? && p in Levels(After(run).levels, x) && Places(After(run), x) <= 1
    ensures var t := After(run + [ItemDel(p, x)]); Levels(t.levels, x) == {} && !Held(t, x)
  {
    hide After, Inv, QueuedAt, Forgotten;
    var s := After(run);
    AfterSnoc(run, ItemDel(p, x));
    ForgetMoves(s, p, x, x);
    OnlyOne(Levels(s.levels, x), p);
  }

  lemma OnlyOne(s: set<nat>, p: nat)
    requires p in s && |s| <= 1
    ensures s - {p} == {} && |s| == 1
  {
    assert |s - {p}| == |s| - 1;
  }

  // ---------------------------------------------------------------- the poll timeout

  /** How long the loop polls: not at all if timers have expired in this iteration or items
      were left over from the last one; 50 ms if only jobs have come up; else up to the next
      timer. */
  lemma {:induction false} TimeoutChosen(run: seq<Action>)
    requires After(run).phase.Decide?
    ensures var s, t := After(run), After(run + [Tick]).timeout;
            && (t == Zero <==> s.timerTodo > 0 || s.remaining > 0)
            && (t == Fifty <==> s.timerTodo == 0 && s.remaining <= 0 && s.jobTodo > 0)
            && (t == UntilNextTimer <==> s.timerTodo == 0 && s.remaining <= 0 && s.jobTodo == 0)
  {
    hide After, Inv, QueuedAt, Shaped;
    AfterSnoc(run, Tick);
  }

  /** What the two poll results count. */
  lemma {:induction false} PollResults(run: seq<Action>, a: Action)
    requires Shaped(After(run))
    ensures var s, t := After(run), After(run + [a]);
            && (s.phase.PollJobs? && a.ReadClock? ==>
                  t.timerTodo == 0 && t.jobTodo == |s.levels[0].wait| + |s.levels[1].wait| + |s.levels[2].wait|)
            && (s.phase.PollTimers? ==>
                  t.jobTodo == s.jobTodo &&
                  t.timerTodo == s.timerTodo + One(a.ExpireOne? && NextDue(s.timers, a.h, s.phase.now)))
  {
    hide After, Inv, QueuedAt, NextDue, NoneDue, Unknown, FreshCheck, Added, Deleted, Expired;
    AfterSnoc(run, a);
  }

  /** A callback that stops the loop is the last one of that run: only a new call of
      qb_loop_run makes it go on. */
  lemma {:induction false} StopEnds(run: seq<Action>, a: Action)
    requires Shaped(After(run))
    ensures var s := After(run);
            && (s.phase.Dispatching? && s.stop ==> After(run + [Tick]).phase.Stopped?)
            && (s.phase.Stopped? && !a.Begin? ==> After(run + [a]).phase.Stopped?)
            && (a.Stop? ==> After(run + [a]).stop)
            && (s.stop && !a.Begin? ==> After(run + [a]).stop)
  {
    hide After, Inv, QueuedAt, NextDue, NoneDue, Unknown, FreshCheck, Added, Deleted, Expired, Started;
    AfterSnoc(run, a);
    AfterSnoc(run, Tick);
  }
}
