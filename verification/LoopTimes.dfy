/**
 Timers and time: a timer fires after its expiry and not before, each poll hands over
 exactly the timers that are due, the earliest first, and a timer is run on the level that
 was asked for.  What was asked for is told from the calls of a run.
 */
module LoopTimes {
  import opened Common
  import opened MainLoop
  import opened LoopTimers

  /** A call of qb_loop_timer_add: the level, and the clock reading plus the duration. */
  datatype Request = Request(p: nat, expire: nat)

  ghost predicate Granted(s: State, a: Action) {
    a.TimerAdd? && a.p <= HIGH && a.check != 0 && FreshCheck(s.timers, a.check)
  }

  /** The calls of a run that were granted, in order. */
  ghost function Requests(run: seq<Action>): (rs: seq<Request>)
    decreases |run|
  {
    if run == [] then []
    else
      var before, a := run[..|run| - 1], run[|run| - 1];
      Requests(before) + if Granted(After(before), a) then [Request(a.p, a.expire)] else []
  }

  /** A timer that a poll at clock reading `now` has handed over. */
  datatype Expiry = Expiry(add: nat, now: nat)

  ghost predicate HandsOver(s: State, a: Action) {
    a.ExpireOne? && s.phase.PollTimers? && NextDue(s.timers, a.h, s.phase.now)
  }

  ghost function ExpiryOf(s: State, a: Action): (e: Expiry)
    requires Shaped(s) && HandsOver(s, a)
  {
    Expiry(s.timers.slots[s.timers.heap[a.h].slot].add, s.phase.now)
  }

  /** Those of a run, in order. */
  ghost function Expiries(run: seq<Action>): (es: seq<Expiry>)
    decreases |run|
  {
    if run == [] then []
    else
      var before, a := run[..|run| - 1], run[|run| - 1];
      InvShaped(After(before));
      Expiries(before) + if HandsOver(After(before), a) then [ExpiryOf(After(before), a)] else []
  }

  // ------------------------------------------------------------------- invariant

  /** A slot in use stands for a request, on its level. */
  ghost predicate SlotAsked(t: Timers, rs: seq<Request>, i: nat)
    requires i < |t.slots|
  {
    t.slots[i].state != Empty ==> t.slots[i].add < |rs| && t.slots[i].p == rs[t.slots[i].add].p
  }

  /** An entry of the timer list expires when the request says. */
  ghost predicate EntryAsked(t: Timers, rs: seq<Request>, h: nat)
    requires h in t.heap
  {
    && t.heap[h].slot < |t.slots| && t.slots[t.heap[h].slot].add < |rs|
    && t.heap[h].expire == rs[t.slots[t.heap[h].slot].add].expire
  }

  ghost predicate Asked(t: Timers, rs: seq<Request>) {
    && |rs| == |t.home|
    && (forall i :: 0 <= i < |t.slots| ==> SlotAsked(t, rs, i))
    && (forall h :: h in t.heap ==> EntryAsked(t, rs, h))
  }

  /** The timer in dispatch is on its own level. */
  ghost predicate HandAsked(s: State) {
    HandSlot(s).Some? ==> HandSlot(s).value < |s.timers.slots| && s.phase.p == s.timers.slots[HandSlot(s).value].p
  }

  /** Whatever is queued or has fired was handed over by a poll that read a later time. */
  ghost predicate Passed(t: Timers, rs: seq<Request>, es: seq<Expiry>) {
    && (forall i :: 0 <= i < |es| ==> es[i].add < |rs| && rs[es[i].add].expire < es[i].now)
    && (forall i :: 0 <= i < |t.slots| && t.slots[i].state == JobList ==> HandedOver(es, t.slots[i].add))
    && (forall a :: a in t.fired ==> HandedOver(es, a))
  }

  ghost predicate HandedOver(es: seq<Expiry>, a: nat) {
    exists i :: 0 <= i < |es| && es[i].add == a
  }

  lemma HandedOverMore(es: seq<Expiry>, e: Expiry)
    ensures forall a :: HandedOver(es, a) ==> HandedOver(es + [e], a)
    ensures HandedOver(es + [e], e.add)
  {
    forall a | HandedOver(es, a) ensures HandedOver(es + [e], a) {
      var i :| 0 <= i < |es| && es[i].add == a;
      assert (es + [e])[i].add == a;
    }
    assert (es + [e])[|es|] == e;
  }

  // --------------------------------------------------------------- changes of timers

  lemma AddedAsked(t: Timers, hand: Option<nat>, rs: seq<Request>, p: nat, expire: nat, check: nat)
    requires TimersOk(t, hand) && Asked(t, rs)
    ensures Asked(Added(t, p, expire, check), rs + [Request(p, expire)])
  {
    hide HistoryOk, AddOk;
    var r, rs' := Added(t, p, expire, check), rs + [Request(p, expire)];
    var pos := FirstEmpty(t.slots);
    forall i | 0 <= i < |r.slots| ensures SlotAsked(r, rs', i) {
      if i != pos {
        assert SlotAsked(t, rs, i);
      }
    }
    forall h | h in r.heap ensures EntryAsked(r, rs', h) {
      if h != t.nextHandle {
        assert EntryAsked(t, rs, h);
        assert EntryOk(t, h);
        assert SlotOk(t, hand, t.heap[h].slot);
      }
    }
  }

  lemma DeletedAsked(t: Timers, hand: Option<nat>, rs: seq<Request>, pos: nat)
    requires TimersOk(t, hand) && Asked(t, rs) && pos < |t.slots|
    ensures Asked(Deleted(t, pos), rs)
  {
    hide HistoryOk, AddOk;
    var r := Deleted(t, pos);
    forall i | 0 <= i < |r.slots| ensures SlotAsked(r, rs, i) {
      assert SlotAsked(t, rs, i);
    }
    forall h | h in r.heap ensures EntryAsked(r, rs, h) {
      assert EntryAsked(t, rs, h);
    }
  }

  lemma SlotsAsked(t: Timers, r: Timers, rs: seq<Request>)
    requires Asked(t, rs) && r.home == t.home && |r.slots| == |t.slots|
    requires forall h :: h in r.heap ==> h in t.heap && r.heap[h] == t.heap[h]
    requires forall i :: 0 <= i < |t.slots| ==>
               r.slots[i].add == t.slots[i].add && r.slots[i].p == t.slots[i].p
               && (r.slots[i].state != Empty ==> t.slots[i].state != Empty)
    ensures Asked(r, rs)
  {
    forall i | 0 <= i < |r.slots| ensures SlotAsked(r, rs, i) {
      assert SlotAsked(t, rs, i);
    }
    forall h | h in r.heap ensures EntryAsked(r, rs, h) {
      assert EntryAsked(t, rs, h);
    }
  }

  // --------------------------------------------------------------------- every step

  lemma TickAsked(s: State, rs: seq<Request>, es: seq<Expiry>)
    requires Inv(s) && Shaped(s) && Asked(s.timers, rs) && HandAsked(s) && Passed(s.timers, rs, es)
    ensures var t := LoopStep(s); Asked(t.timers, rs) && HandAsked(t) && Passed(t.timers, rs, es)
  {
    hide Inv, LevelsOk, TimersOk, QueuesOk, QueuedAt, Asked, Passed;
    match s.phase
    case Running(p, n) =>
      if s.levels[p].job != [] && s.levels[p].job[0].TimerItem? {
        QueuedOnOwnLevel(s, p, s.levels[p].job[0].slot);
        StartedAsked(s.timers, rs, es, s.levels[p].job[0].slot);
      }
    case Dispatching(p, n, x) =>
      if x.TimerItem? {
        EndedAsked(s.timers, rs, es, x.slot);
      }
    case _ =>
  }

  lemma QueuedOnOwnLevel(s: State, p: nat, i: nat)
    requires Inv(s) && |s.levels| == 3 && p <= HIGH && TimerItem(i) in s.levels[p].job
    ensures i < |s.timers.slots| && s.timers.slots[i].p == p && s.timers.slots[i].state == JobList
  {
    hide LevelsOk, TimersOk;
    assert p in QueuedAt(s.levels, i);
    assert QueuedAt(s.levels, i) == Expected(s.timers, HandSlot(s), i);
  }

  lemma StartedAsked(t: Timers, rs: seq<Request>, es: seq<Expiry>, i: nat)
    requires Asked(t, rs) && Passed(t, rs, es) && i < |t.slots| && t.slots[i].state == JobList
    ensures Asked(Started(t, i), rs) && Passed(Started(t, i), rs, es)
  {
    hide SlotAsked, EntryAsked, Asked, HandedOver;
    SlotsAsked(t, Started(t, i), rs);
  }

  lemma EndedAsked(t: Timers, rs: seq<Request>, es: seq<Expiry>, i: nat)
    requires Asked(t, rs) && Passed(t, rs, es) && i < |t.slots|
    ensures Asked(Ended(t, i), rs) && Passed(Ended(t, i), rs, es)
  {
    hide SlotAsked, EntryAsked, Asked, HandedOver;
    SlotsAsked(t, Ended(t, i), rs);
  }

  lemma ExpiredAsked(t: Timers, hand: Option<nat>, rs: seq<Request>, es: seq<Expiry>, h: nat, now: nat)
    requires TimersOk(t, hand) && Asked(t, rs) && Passed(t, rs, es) && NextDue(t, h, now)
    ensures t.heap[h].slot < |t.slots|
    ensures Asked(Expired(t, h), rs) && Passed(Expired(t, h), rs, es + [Expiry(t.slots[t.heap[h].slot].add, now)])
  {
    hide HistoryOk, AddOk;
    assert EntryOk(t, h) && EntryAsked(t, rs, h);
    assert SlotOk(t, hand, t.heap[h].slot);
    hide SlotAsked, EntryAsked, HandedOver, SlotOk, EntryOk, TimersOk;
    SlotsAsked(t, Expired(t, h), rs);
    HandedOverMore(es, Expiry(t.slots[t.heap[h].slot].add, now));
  }

  lemma DeletedPassed(t: Timers, rs: seq<Request>, es: seq<Expiry>, pos: nat)
    requires Passed(t, rs, es) && pos < |t.slots|
    ensures Passed(Deleted(t, pos), rs, es)
  {
    hide HandedOver;
  }

  lemma AddedPassed(t: Timers, rs: seq<Request>, es: seq<Expiry>, p: nat, expire: nat, check: nat)
    requires Passed(t, rs, es)
    ensures Passed(Added(t, p, expire, check), rs + [Request(p, expire)], es)
  {
    hide HandedOver;
  }

  lemma DeletedNotInHand(s: State, pos: nat)
    requires Inv(s) && Shaped(s) && HandAsked(s) && pos < |s.timers.slots|
    ensures HandAsked(TimerDeleted(s, pos))
  {
    hide Inv, QueuedAt, Shaped;
  }

  lemma AddedNotInHand(s: State, p: nat, expire: nat, check: nat)
    requires Inv(s) && HandAsked(s)
    ensures HandAsked(s.(timers := Added(s.timers, p, expire, check)))
  {
    NotInHand(s.timers, HandSlot(s));
    hide Inv, QueuedAt;
  }

  lemma StepAsked(s: State, a: Action, rs: seq<Request>, es: seq<Expiry>)
    requires Inv(s) && Shaped(s) && Asked(s.timers, rs) && HandAsked(s) && Passed(s.timers, rs, es)
    ensures var rs' := rs + if Granted(s, a) then [Request(a.p, a.expire)] else [];
            var es' := es + if HandsOver(s, a) then [ExpiryOf(s, a)] else [];
            var t := Step(s, a);
            Asked(t.timers, rs') && HandAsked(t) && Passed(t.timers, rs', es')
  {
    hide QueuedAt, Asked, Passed, Shaped, LevelsOk, QueuesOk, LoopStep, Added, Deleted, Expired, FreshCheck, NextDue,
         TimersOk, Unknown;
    assert rs + [] == rs && es + [] == es;
    match a
    case Tick => TickAsked(s, rs, es);
    case ExpireOne(h) =>
      if HandsOver(s, a) {
        ExpiredAsked(s.timers, HandSlot(s), rs, es, h, s.phase.now);
      }
    case TimerAdd(p, expire, check) =>
      if Granted(s, a) {
        AddedAsked(s.timers, HandSlot(s), rs, p, expire, check);
        AddedPassed(s.timers, rs, es, p, expire, check);
        AddedNotInHand(s, p, expire, check);
      }
    case TimerDel(check, pos) =>
      if check != 0 && Deletable(s.timers, check, pos) {
        DeletedAsked(s.timers, HandSlot(s), rs, pos);
        DeletedPassed(s.timers, rs, es, pos);
        DeletedNotInHand(s, pos);
      }
    case _ =>
  }

  lemma {:induction false} AfterAsked(run: seq<Action>)
    ensures var s := After(run);
            Asked(s.timers, Requests(run)) && HandAsked(s) && Passed(s.timers, Requests(run), Expiries(run))
    decreases |run|
  {
    hide Step, Inv, Asked, Passed, HandAsked, Granted, HandsOver;
    if run == [] {
      assert After([]) == Init();
      InitAsked();
    } else {
      var before, a := run[..|run| - 1], run[|run| - 1];
      AfterAsked(before);
      InvShaped(After(before));
      StepAsked(After(before), a, Requests(before), Expiries(before));
      AfterSnoc(before, a);
      assert before + [a] == run;
    }
  }

  lemma InitAsked()
    ensures Asked(Init().timers, []) && HandAsked(Init()) && Passed(Init().timers, [], [])
  {
  }

  // ----------------------------------------------------------------------- results

  /** Polls read the clock that they were given. */
  lemma {:induction false} NowWasRead(run: seq<Action>)
    ensures After(run).phase.PollTimers? ==> ReadClock(After(run).phase.now) in run
    ensures forall i :: 0 <= i < |Expiries(run)| ==> ReadClock(Expiries(run)[i].now) in run
    decreases |run|
  {
    hide Step, Inv, HandsOver;
    if run == [] {
      assert After([]) == Init();
    } else {
      var before, a := run[..|run| - 1], run[|run| - 1];
      assert run == before + [a];
      NowWasRead(before);
      AfterSnoc(before, a);
      NowStays(After(before), a);
    }
  }

  lemma NowStays(s: State, a: Action)
    requires Shaped(s)
    ensures var t := Step(s, a); t.phase.PollTimers? ==> t.phase == s.phase || a == ReadClock(t.phase.now)
    ensures HandsOver(s, a) ==> s.phase.PollTimers? && ExpiryOf(s, a).now == s.phase.now
  {
    hide QueuedAt, Shaped, Added, Deleted, Expired, FreshCheck, Unknown;
  }

  /** A timer fires only after a poll whose clock reading was beyond its expiry. */
  lemma {:induction false} FiresAfterExpiry(run: seq<Action>, a: nat) returns (now: nat)
    requires a in After(run).timers.fired
    ensures a < |Requests(run)| && Requests(run)[a].expire < now && ReadClock(now) in run
    ensures Expiry(a, now) in Expiries(run)
  {
    hide After, Inv, Asked, HandAsked, Requests, Expiries;
    AfterAsked(run);
    NowWasRead(run);
    var es := Expiries(run);
    assert HandedOver(es, a);
    var i :| 0 <= i < |es| && es[i].add == a;
    now := es[i].now;
    assert es[i] == Expiry(a, now);
  }

  /** A timer is queued, and dispatched, on the level that was asked for. */
  lemma {:induction false} OnTheLevelAskedFor(run: seq<Action>, i: nat)
    requires i < |After(run).timers.slots| && After(run).timers.slots[i].state == JobList
    ensures var s := After(run);
            var a := s.timers.slots[i].add;
            && a < |Requests(run)|
            && (HandSlot(s) == Some(i) ==> s.phase.p == Requests(run)[a].p)
            && (HandSlot(s) != Some(i) ==> QueuedAt(s.levels, i) == {Requests(run)[a].p})
  {
    hide After, LevelsOk, Requests, TimersOk, Passed;
    AfterAsked(run);
    var s := After(run);
    assert SlotAsked(s.timers, Requests(run), i);
    assert QueuedAt(s.levels, i) == Expected(s.timers, HandSlot(s), i);
  }

  // ------------------------------------------------------------------ one whole poll

  /** The entries that a stretch of a run hands over, in order. */
  ghost function HandedBy(run: seq<Action>, more: seq<Action>): (hs: seq<nat>)
    decreases |more|
  {
    if more == [] then []
    else
      var init, a := more[..|more| - 1], more[|more| - 1];
      HandedBy(run, init) + if HandsOver(After(run + init), a) then [a.h] else []
  }

  /** The stretch is part of one poll. */
  ghost predicate Polling(run: seq<Action>, more: seq<Action>) {
    && (forall i :: 0 <= i < |more| ==> more[i].ExpireOne? || more[i].Tick?)
    && (forall n :: 0 <= n < |more| ==> After(run + more[..n]).phase.PollTimers?)
  }

  /** The entries hs have left, earliest first, and none that is left is earlier. */
  ghost predicate EarliestGone(heap: map<nat, Entry>, now: nat, hs: seq<nat>, rest: map<nat, Entry>) {
    && (forall i :: 0 <= i < |hs| ==> hs[i] in heap && heap[hs[i]].expire < now && hs[i] !in rest)
    && (forall h :: h in heap ==> h in rest || h in hs)
    && (forall h :: h in rest ==> h in heap && rest[h] == heap[h])
    && (forall i, j :: 0 <= i < j < |hs| ==> hs[i] != hs[j] && heap[hs[i]].expire <= heap[hs[j]].expire)
    && (forall i, h :: 0 <= i < |hs| && h in rest ==> heap[hs[i]].expire <= heap[h].expire)
  }

  lemma OneMoreGone(heap: map<nat, Entry>, now: nat, hs: seq<nat>, rest: map<nat, Entry>, h: nat)
    requires EarliestGone(heap, now, hs, rest) && h in rest && rest[h].expire < now
    requires forall g :: g in rest ==> rest[h].expire <= rest[g].expire
    ensures EarliestGone(heap, now, hs + [h], rest - {h})
  {
  }

  lemma PollStep(s: State, a: Action)
    requires Shaped(s) && s.phase.PollTimers? && (a.ExpireOne? || a.Tick?)
    ensures var t := Step(s, a);
            && (HandsOver(s, a) ==>
                  t.phase == s.phase && t.timers.heap == s.timers.heap - {a.h} && a.h in s.timers.heap)
            && (!HandsOver(s, a) ==> t.timers.heap == s.timers.heap && (t.phase == s.phase || t.phase.Decide?))
            && (t.phase.Decide? ==> NoneDue(s.timers, s.phase.now) && t.timers.heap == s.timers.heap)
  {
    hide QueuedAt, Shaped;
  }

  lemma {:induction false} PollSoFar(run: seq<Action>, more: seq<Action>)
    requires After(run).phase.PollTimers? && Polling(run, more)
    ensures var s, t := After(run), After(run + more);
            && EarliestGone(s.timers.heap, s.phase.now, HandedBy(run, more), t.timers.heap)
            && (t.phase == s.phase || (t.phase.Decide? && NoneDue(t.timers, s.phase.now)))
    decreases |more|
  {
    hide After, Step, Inv, HandsOver, EarliestGone, NoneDue;
    var s := After(run);
    if more == [] {
      assert run + more == run;
      NoneGone(s.timers.heap, s.phase.now);
    } else {
      var init, a := more[..|more| - 1], more[|more| - 1];
      forall n | 0 <= n < |init| ensures After(run + init[..n]).phase.PollTimers? {
        assert init[..n] == more[..n];
      }
      PollSoFar(run, init);
      assert run + more == run + init + [a];
      AfterSnoc(run + init, a);
      var u := After(run + init);
      assert more[..|init|] == init && u.phase.PollTimers?;
      PollStep(u, a);
      if HandsOver(u, a) {
        DueFirst(u, a);
        OneMoreGone(s.timers.heap, s.phase.now, HandedBy(run, init), u.timers.heap, a.h);
      } else {
        SameNone(u.timers, After(run + more).timers, s.phase.now);
        assert HandedBy(run, more) == HandedBy(run, init);
      }
    }
  }

  lemma SameNone(t: Timers, r: Timers, now: nat)
    requires r.heap == t.heap
    ensures NoneDue(r, now) == NoneDue(t, now)
  {
  }

  lemma DueFirst(s: State, a: Action)
    requires HandsOver(s, a)
    ensures a.ExpireOne? && s.phase.PollTimers?
    ensures a.h in s.timers.heap && s.timers.heap[a.h].expire < s.phase.now
    ensures forall g :: g in s.timers.heap ==> s.timers.heap[a.h].expire <= s.timers.heap[g].expire
  {
  }

  lemma NoneGone(heap: map<nat, Entry>, now: nat)
    ensures EarliestGone(heap, now, [], heap)
  {
  }

  /** A poll that comes to its end has handed over exactly the timers whose expiry is below
      the clock reading, each once, the earliest first; the others are as they were. */
  lemma {:induction false} PollHandsOverTheDue(run: seq<Action>, more: seq<Action>)
    requires After(run).phase.PollTimers? && Polling(run, more) && After(run + more).phase.Decide?
    ensures var s, t, hs := After(run), After(run + more), HandedBy(run, more);
            && (forall h :: h in hs <==> h in s.timers.heap && s.timers.heap[h].expire < s.phase.now)
            && (forall i, j :: 0 <= i < j < |hs| ==> hs[i] != hs[j])
            && (forall i, j :: 0 <= i < j < |hs| ==>
                  hs[i] in s.timers.heap && hs[j] in s.timers.heap &&
                  s.timers.heap[hs[i]].expire <= s.timers.heap[hs[j]].expire)
            && (forall h :: h in t.timers.heap <==> h in s.timers.heap && s.timers.heap[h].expire >= s.phase.now)
            && (forall h :: h in t.timers.heap ==> h in s.timers.heap && t.timers.heap[h] == s.timers.heap[h])
  {
    hide After, Inv, Polling, HandedBy;
    PollSoFar(run, more);
  }

  /** The expiry of an entry is that of the request that its slot stands for. */
  lemma {:induction false} ExpiryIsAsRequested(run: seq<Action>, h: nat)
    requires h in After(run).timers.heap
    ensures var t := After(run).timers;
            && t.heap[h].slot < |t.slots| && t.slots[t.heap[h].slot].add < |Requests(run)|
            && t.heap[h].expire == Requests(run)[t.slots[t.heap[h].slot].add].expire
  {
    hide After, Inv, Requests, Passed;
    AfterAsked(run);
    assert EntryAsked(After(run).timers, Requests(run), h);
  }
}
