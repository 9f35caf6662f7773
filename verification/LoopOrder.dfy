/**
 The order of service: what is queued on a level is dispatched in the order it came,
 and a level gets at most four dispatches in a row.
 */
module LoopOrder {
  import opened Common
  import opened MainLoop
  import opened LoopTimers

  /** What is queued on a level, first to last: jobs on the wait list come after all else. */
  function Line(l: Level): (q: seq<Item>) {
    l.job + l.wait
  }

  ghost predicate Before(q: seq<Item>, x: Item, y: Item) {
    exists i, j :: 0 <= i < j < |q| && q[i] == x && q[j] == y
  }

  /** What a step does to a line: items join in at index k, or the one at index k leaves. */
  datatype Shift = Joins(k: nat, r: seq<Item>) | Leaves(k: nat)

  ghost predicate Shifted(c: Shift, q: seq<Item>, q': seq<Item>) {
    match c
    case Joins(k, r) => k <= |q| && q' == q[..k] + r + q[k..]
    case Leaves(k) => k < |q| && q' == q[..k] + q[k + 1..]
  }

  lemma LineNoDup(l: Level)
    requires LevelOk(l)
    ensures NoDup(Line(l))
  {
    var q := Line(l);
    forall i, j | 0 <= i < j < |q| ensures q[i] != q[j] {
      if i < |l.job| <= j {
        assert q[j] in l.wait;
      }
    }
  }

  lemma BeforeOneWay(q: seq<Item>, x: Item, y: Item)
    requires NoDup(q) && Before(q, x, y)
    ensures !Before(q, y, x)
  {
  }

  lemma JoinKeepsOrder(q: seq<Item>, k: nat, r: seq<Item>, i: nat, j: nat)
    requires k <= |q| && i < j < |q|
    ensures Before(q[..k] + r + q[k..], q[i], q[j])
  {
    var q' := q[..k] + r + q[k..];
    var i', j' := if i < k then i else i + |r|, if j < k then j else j + |r|;
    assert q'[i'] == q[i] && q'[j'] == q[j];
  }

  lemma LeaveKeepsOrder(q: seq<Item>, k: nat, i: nat, j: nat)
    requires k < |q| && i < j < |q| && i != k && j != k
    ensures Before(q[..k] + q[k + 1..], q[i], q[j])
  {
    var q' := q[..k] + q[k + 1..];
    var i', j' := if i < k then i else i - 1, if j < k then j else j - 1;
    assert q'[i'] == q[i] && q'[j'] == q[j];
  }

  /** Whoever stays in the line stays in order. */
  lemma ShiftKeepsOrder(c: Shift, q: seq<Item>, q': seq<Item>, x: Item, y: Item)
    requires NoDup(q) && Shifted(c, q, q') && Before(q, x, y) && x in q' && y in q'
    ensures Before(q', x, y)
  {
    hide NoDup;
    var i, j :| 0 <= i < j < |q| && q[i] == x && q[j] == y;
    hide Before;
    match c
    case Joins(k, r) => JoinKeepsOrder(q, k, r, i, j);
    case Leaves(k) =>
      LeftIsGone(q, k);
      LeaveKeepsOrder(q, k, i, j);
  }

  lemma LeftIsGone(q: seq<Item>, k: nat)
    requires NoDup(q) && k < |q|
    ensures q[k] !in q[..k] + q[k + 1..]
  {
  }

  // ------------------------------------------------------------------------- steps

  lemma Unshifted(q: seq<Item>)
    ensures Shifted(Joins(|q|, []), q, q)
  {
  }

  lemma DropFromLine(l: Level, x: Item) returns (c: Shift)
    requires LevelOk(l) && x in l.job
    ensures c.Leaves? && c.k < |Line(l)| && Line(l)[c.k] == x && Shifted(c, Line(l), Line(ItemDeleted(l, x)))
  {
    hide LevelOk;
    c := Leaves(IndexOf(l.job, x));
    assert Line(l)[c.k + 1..] == l.job[c.k + 1..] + l.wait;
  }

  lemma ForgetFromLine(l: Level, x: Item) returns (c: Shift)
    requires LevelOk(l)
    ensures Shifted(c, Line(l), Line(Forgotten(l, x)))
    ensures if c.Leaves? then c.k < |Line(l)| && Line(l)[c.k] == x else c.r == []
  {
    hide LevelOk, ItemDeleted;
    if x in l.wait {
      var i := IndexOf(l.wait, x);
      c := Leaves(|l.job| + i);
      assert Line(l)[..c.k] == l.job + l.wait[..i] && Line(l)[c.k + 1..] == l.wait[i + 1..];
    } else if x in l.job {
      c := DropFromLine(l, x);
    } else {
      NotThere(l, x);
      Unshifted(Line(l));
      c := Joins(|Line(l)|, []);
    }
  }

  lemma NotThere(l: Level, x: Item)
    requires x !in l.job
    ensures ItemDeleted(l, x) == l
  {
  }

  lemma JoinJobs(l: Level, x: Item)
    ensures Shifted(Joins(|l.job|, [x]), Line(l), Line(ItemAdded(l, x)))
  {
    assert Line(l)[..|l.job|] == l.job && Line(l)[|l.job|..] == l.wait;
  }

  /** The poll for jobs moves nobody in the line. */
  lemma SplicedLine(l: Level)
    ensures Line(Spliced(l)) == Line(l)
  {
  }

  /** A timer or descriptor comes in before the jobs that still wait. */
  ghost predicate JoinsJobs(l: Level, c: Shift) {
    c.Joins? && c.k == |l.job| && |c.r| == 1 && !c.r[0].JobItem?
  }

  /** Items join at the end of the list they are put on; they leave by name, or from the
      head of the line for dispatch. */
  ghost predicate Legitimate(s: State, a: Action, l: nat, c: Shift)
    requires Shaped(s) && l <= HIGH
  {
    var q := Line(s.levels[l]);
    match c
    case Joins(k, r) =>
      r == [] || JoinsJobs(s.levels[l], c) || (a.JobAdd? && a.p == l && k == |q| && r == [JobItem(a.id)])
    case Leaves(k) =>
      k < |q| &&
      if a.Tick? then k == 0 && InHand(Step(s, a)) == Some(q[0])
      else a == ItemDel(l, q[k]) || (a.TimerDel? && q[k] == TimerItem(a.pos))
  }

  lemma TickShifts(s: State, l: nat) returns (c: Shift)
    requires Inv(s) && Shaped(s) && l <= HIGH
    ensures Shifted(c, Line(s.levels[l]), Line(LoopStep(s).levels[l])) && Legitimate(s, Tick, l, c)
    ensures s.phase.Running? && s.phase.p == l && s.levels[l].job != [] ==> c == Leaves(0)
  {
    hide Inv, QueuedAt, Started, Ended, LevelOk;
    if s.phase.Running? && s.phase.p == l && s.levels[l].job != [] {
      c := Leaves(0);
      assert Line(s.levels[l])[1..] == s.levels[l].job[1..] + s.levels[l].wait;
    } else {
      c := Joins(|Line(s.levels[l])|, []);
      Unshifted(Line(s.levels[l]));
    }
  }

  lemma LevelIsOk(s: State, l: nat)
    requires Inv(s) && l <= HIGH
    ensures |s.levels| == 3 && LevelOk(s.levels[l])
  {
    hide LevelOk, TimersOk, QueuesOk;
  }

  /** What every step does to every line. */
  lemma StepShifts(s: State, a: Action, l: nat) returns (c: Shift)
    requires Inv(s) && Shaped(s) && l <= HIGH
    ensures |Step(s, a).levels| == 3
    ensures Shifted(c, Line(s.levels[l]), Line(Step(s, a).levels[l])) && Legitimate(s, a, l, c)
  {
    hide Inv, QueuedAt, LevelOk, LoopStep, Unknown, Added, Deleted, Expired, FreshCheck, ItemDeleted, ItemAdded,
         Forgotten, Spliced, Shifted, Line;
    LevelIsOk(s, l);
    var v := s.levels[l];
    Unshifted(Line(v));
    c := Joins(|Line(v)|, []);
    match a
    case Tick => c := TickShifts(s, l);
    case ReadClock(_) => SplicedLine(v);
    case ExpireOne(h) =>
      if Step(s, a) != s && s.timers.slots[s.timers.heap[h].slot].p == l {
        JoinJobs(v, TimerItem(s.timers.heap[h].slot));
        c := Joins(|v.job|, [TimerItem(s.timers.heap[h].slot)]);
      }
    case FdReady(p, id) =>
      if p == l && Step(s, a) != s {
        JoinJobs(v, OtherItem(id));
        c := Joins(|v.job|, [OtherItem(id)]);
      }
    case JobAdd(p, id) =>
      if p == l && Step(s, a) != s {
        JoinWaiting(v, JobItem(id));
        c := Joins(|Line(v)|, [JobItem(id)]);
      }
    case TimerDel(check, pos) =>
      if check != 0 && Deletable(s.timers, check, pos) && s.timers.slots[pos].state == JobList
         && s.timers.slots[pos].p == l {
        c := DeleteFromLine(v, TimerItem(pos));
      }
    case ItemDel(p, y) =>
      if p == l && !y.TimerItem? {
        c := ForgetFromLine(v, y);
      }
    case _ =>
  }

  lemma DeleteFromLine(l: Level, x: Item) returns (c: Shift)
    requires LevelOk(l)
    ensures Shifted(c, Line(l), Line(ItemDeleted(l, x)))
    ensures if c.Leaves? then c.k < |Line(l)| && Line(l)[c.k] == x else c.r == []
  {
    hide LevelOk, ItemDeleted, Shifted, Line;
    if x in l.job {
      c := DropFromLine(l, x);
    } else {
      NotThere(l, x);
      Unshifted(Line(l));
      c := Joins(|Line(l)|, []);
    }
  }

  lemma JoinWaiting(l: Level, x: Item)
    ensures Shifted(Joins(|Line(l)|, [x]), Line(l), Line(l.(wait := l.wait + [x])))
  {
  }

  // ----------------------------------------------------------------------- results

  ghost function LineAfter(run: seq<Action>, l: nat): (q: seq<Item>)
    requires l <= HIGH
  {
    hide After;
    LevelIsOk(After(run), l);
    Line(After(run).levels[l])
  }

  lemma {:induction false} LineOrdered(run: seq<Action>, l: nat)
    requires l <= HIGH
    ensures NoDup(LineAfter(run, l))
  {
    hide After, Inv, LevelOk;
    LevelIsOk(After(run), l);
    LineNoDup(After(run).levels[l]);
  }

  /** First come, first served: over any stretch of a run, of two items that stay in the
      line of a level the one that was first stays first. */
  lemma {:induction false} FirstCome(run: seq<Action>, more: seq<Action>, l: nat, x: Item, y: Item)
    requires l <= HIGH && Before(LineAfter(run, l), x, y)
    requires forall n :: 0 <= n <= |more| ==> x in LineAfter(run + more[..n], l) && y in LineAfter(run + more[..n], l)
    ensures Before(LineAfter(run + more, l), x, y) && !Before(LineAfter(run + more, l), y, x)
    decreases |more|
  {
    hide After, Inv, Step, LevelOk, Before, NoDup, Shifted, Line;
    LineOrdered(run + more, l);
    if more == [] {
      assert run + more == run;
    } else {
      var init, a := more[..|more| - 1], more[|more| - 1];
      forall n | 0 <= n <= |init| ensures x in LineAfter(run + init[..n], l) && y in LineAfter(run + init[..n], l) {
        assert init[..n] == more[..n];
      }
      FirstCome(run, init, l, x, y);
      assert run + more == run + init + [a] && more[..|more|] == more;
      AfterSnoc(run + init, a);
      var c := StepShifts(After(run + init), a, l);
      LineOrdered(run + init, l);
      ShiftKeepsOrder(c, LineAfter(run + init, l), LineAfter(run + more, l), x, y);
    }
    BeforeOneWay(LineAfter(run + more, l), x, y);
  }

  /** A level that is run dispatches the head of its line; nobody else moves. */
  lemma {:induction false} HeadIsServed(run: seq<Action>, l: nat)
    requires l <= HIGH && After(run).phase.Running? && After(run).phase.p == l
    requires |After(run).levels| == 3 && After(run).levels[l].job != []
    ensures LineAfter(run, l) != [] && LineAfter(run + [Tick], l) == LineAfter(run, l)[1..]
    ensures InHand(After(run + [Tick])) == Some(LineAfter(run, l)[0])
  {
    hide After, Inv, LevelOk, LoopStep;
    AfterSnoc(run, Tick);
    var c := TickShifts(After(run), l);
  }

  /** A job added is the last of its line. */
  lemma {:induction false} JobIsLast(run: seq<Action>, p: nat, id: nat)
    requires p <= HIGH && Shaped(After(run)) && Unknown(After(run), JobItem(id))
    ensures LineAfter(run + [JobAdd(p, id)], p) == LineAfter(run, p) + [JobItem(id)]
  {
    hide After, Inv, LevelOk, Unknown, QueuedAt, Shaped;
    AfterSnoc(run, JobAdd(p, id));
    LevelIsOk(After(run), p);
  }

  // ------------------------------------------------------------------- four in a row

  predicate InRun(ph: Phase) {
    ph.Running? || ph.Dispatching?
  }

  /** Dispatches begun in the run of a level that is under way. */
  ghost function Begun(run: seq<Action>): (n: nat) {
    if run == [] || !InRun(After(run).phase) then 0 else
      var before := run[..|run| - 1];
      Begun(before) + One(After(run).phase.Dispatching? && !After(before).phase.Dispatching?)
  }

  predicate Counted(ph: Phase, n: nat) {
    match ph
    case Running(_, k) => n == k && k < QUANTUM
    case Dispatching(_, k, _) => n == k + 1 && k < QUANTUM
    case _ => n == 0
  }

  lemma CountStep(s: State, a: Action, n: nat)
    requires Shaped(s) && Counted(s.phase, n)
    ensures var ph := Step(s, a).phase;
            Counted(ph, if InRun(ph) then n + One(ph.Dispatching? && !s.phase.Dispatching?) else 0)
  {
    hide QueuedAt, Added, Deleted, Expired, Unknown, FreshCheck, ItemAdded, ItemDeleted, Forgotten, Started, Ended,
         Spliced, NextDue, NoneDue, Shaped;
  }

  lemma {:induction false} CountedAfter(run: seq<Action>)
    ensures Counted(After(run).phase, Begun(run))
  {
    hide Inv, Step;
    if run != [] {
      var before, a := run[..|run| - 1], run[|run| - 1];
      assert run == before + [a];
      CountedAfter(before);
      AfterSnoc(before, a);
      CountStep(After(before), a, Begun(before));
    }
  }

  /** A level is left exactly when its list is empty, when four items have been dispatched
      in a row, or when the loop was stopped. */
  lemma {:induction false} AtMostFour(run: seq<Action>)
    requires InRun(After(run).phase)
    ensures Begun(run) <= QUANTUM && Shaped(After(run))
    ensures var s := After(run);
            !InRun(After(run + [Tick]).phase) <==>
            if s.phase.Running? then s.levels[s.phase.p].job == [] else s.stop || Begun(run) == QUANTUM
  {
    hide After, Inv, QueuedAt, Started, Ended, Begun;
    CountedAfter(run);
    AfterSnoc(run, Tick);
  }
}
