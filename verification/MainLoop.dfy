/**
 The main loop with its timers and jobs as a state machine: every poll of a
 source, every dispatch and every call a user makes in between is a step.
 */
module MainLoop {
  import opened Common

  // ---------------------------------------------------------------- the state

  const LOW := 0
  const HIGH := 2
  const QUANTUM := 4 // to_process

  /** What a level can be asked to dispatch: a timer slot, a job, or an entry of
      another source (file descriptor or signal). */
  datatype Item = TimerItem(slot: nat) | JobItem(id: nat) | OtherItem(id: nat)

  datatype Level = Level(wait: seq<Item>, job: seq<Item>, todo: int)

  datatype SlotState = Empty | JobList | Active

  /** struct qb_loop_timer; `add` is the number of the qb_loop_timer_add call that
      filled the slot last. */
  datatype Slot = Slot(state: SlotState, check: nat, p: nat, handle: Option<nat>, add: nat)

  /** An entry of the timer list: the slot to hand over, and when. */
  datatype Entry = Entry(slot: nat, expire: nat)

  /**
   The timer source.  `issued` (which add got which handle), `home` (its slot),
   `fired` (adds whose callback was started, in order) and `deleted` (adds deleted
   with success) are history.
   */
  datatype Timers = Timers(
    slots: seq<Slot>, heap: map<nat, Entry>, nextHandle: nat,
    issued: map<(nat, nat), nat>, home: seq<nat>, fired: seq<nat>, deleted: set<nat>)

  datatype Phase =
    | Stopped
    | Top                                            // start of an iteration
    | PollJobs
    | PollTimers(now: nat)
    | Decide                                         // choose the poll timeout
    | PollFds
    | AtLevel(p: nat)
    | Running(p: nat, processed: nat)                // in qb_loop_run_level
    | Dispatching(p: nat, processed: nat, item: Item)
    | LevelDone(p: nat)

  datatype Timeout = Zero | Fifty | UntilNextTimer

  /** `tops`, `runs` and `leftover` are history: iterations begun and, for each
      level, runs finished since qb_loop_run was called, and whether it was called
      with jobs already queued. */
  datatype State = State(
    levels: seq<Level>, timers: Timers, phase: Phase, stop: bool, pStop: nat,
    remaining: int, jobTodo: nat, timerTodo: nat, timeout: Timeout,
    tops: nat, runs: seq<nat>, leftover: bool)

  datatype Action =
    | Begin                                          // qb_loop_run
    | Tick                                           // the loop goes on
    | ReadClock(now: nat)
    | ExpireOne(h: nat)                              // one turn of timerlist_expire
    | FdReady(p: nat, id: nat)
    | TimerAdd(p: nat, expire: nat, check: nat)
    | TimerDel(check: nat, pos: nat)
    | JobAdd(p: nat, id: nat)
    | ItemDel(p: nat, item: Item)                    // jobs and entries of other sources
    | Stop

  function Init(): (s: State) {
    State([Level([], [], 0), Level([], [], 0), Level([], [], 0)],
          Timers([], map[], 0, map[], [], [], {}),
          Stopped, false, LOW, 0, 0, 0, Zero, 0, [0, 0, 0], false)
  }

  // ------------------------------------------------------------------- queues

  function IndexOf(q: seq<Item>, x: Item): (i: nat)
    ensures i <= |q|
    ensures x in q <==> i < |q|
    ensures i < |q| ==> q[i] == x
    ensures forall j :: 0 <= j < i ==> q[j] != x
  {
    if q == [] then 0 else if q[0] == x then 0 else 1 + IndexOf(q[1..], x)
  }

  /** qb_list_del */
  function Without(q: seq<Item>, x: Item): (r: seq<Item>) {
    var i := IndexOf(q, x);
    if i < |q| then q[..i] + q[i + 1..] else q
  }

  /** lib/loop.c: qb_loop_level_item_add. */
  function ItemAdded(l: Level, x: Item): (r: Level) {
    l.(job := l.job + [x], todo := l.todo + 1)
  }

  /** lib/loop.c: qb_loop_level_item_del; an item in dispatch is on no list. */
  function ItemDeleted(l: Level, x: Item): (r: Level) {
    if x in l.job then l.(job := Without(l.job, x), todo := l.todo - 1) else l
  }

  /** lib/loop_job.c: get_more_jobs, for one level. */
  function Spliced(l: Level): (r: Level) {
    Level([], l.job + l.wait, l.todo + |l.wait|)
  }

  // ------------------------------------------------------------------- timers

  /** lib/loop_timerlist.c: _get_empty_array_position_. */
  function FirstEmpty(slots: seq<Slot>): (i: nat)
    ensures i <= |slots|
    ensures i < |slots| ==> slots[i].state == Empty
    ensures forall j :: 0 <= j < i ==> slots[j].state != Empty
  {
    if slots == [] || slots[0].state == Empty then 0 else 1 + FirstEmpty(slots[1..])
  }

  /** lib/loop_timerlist.c: qb_loop_timer_add. */
  function Added(t: Timers, p: nat, expire: nat, check: nat): (r: Timers) {
    var pos := FirstEmpty(t.slots);
    var slot := Slot(Active, check, p, Some(t.nextHandle), |t.home|);
    t.(slots := if pos < |t.slots| then t.slots[pos := slot] else t.slots + [slot],
       heap := t.heap[t.nextHandle := Entry(pos, expire)],
       nextHandle := t.nextHandle + 1,
       issued := t.issued[(check, pos) := |t.home|],
       home := t.home + [pos])
  }

  /** lib/loop_timerlist.c: _timer_from_handle_ and the state checks of
      qb_loop_timer_del: whether a handle denotes a timer that can be deleted. */
  predicate Deletable(t: Timers, check: nat, pos: nat) {
    pos < |t.slots| && t.slots[pos].check == check && t.slots[pos].state != Empty
  }

  function Deleted(t: Timers, pos: nat): (r: Timers)
    requires pos < |t.slots|
  {
    var d := t.slots[pos];
    t.(slots := t.slots[pos := d.(state := Empty, handle := None)],
       heap := if d.handle.Some? then t.heap - {d.handle.value} else t.heap,
       deleted := t.deleted + {d.add})
  }

  /** include/tlist.h: timerlist_pre_dispatch, and lib/loop_timerlist.c:
      make_job_from_tmo but for the queueing. */
  function Expired(t: Timers, h: nat): (r: Timers)
    requires h in t.heap && t.heap[h].slot < |t.slots|
  {
    var i := t.heap[h].slot;
    t.(heap := t.heap - {h}, slots := t.slots[i := t.slots[i].(handle := None, state := JobList)])
  }

  /** lib/loop_timerlist.c: timer_dispatch, up to and after the callback. */
  function Started(t: Timers, i: nat): (r: Timers)
    requires i < |t.slots|
  {
    t.(slots := t.slots[i := t.slots[i].(check := 0)], fired := t.fired + [t.slots[i].add])
  }

  function Ended(t: Timers, i: nat): (r: Timers)
    requires i < |t.slots|
  {
    t.(slots := t.slots[i := t.slots[i].(state := Empty)])
  }

  // -------------------------------------------------------------------- steps

  /** The timer that timerlist_expire takes next. */
  ghost predicate NextDue(t: Timers, h: nat, now: nat) {
    && h in t.heap && t.heap[h].expire < now
    && forall g :: g in t.heap ==> t.heap[h].expire <= t.heap[g].expire
  }

  ghost predicate NoneDue(t: Timers, now: nat) {
    forall g :: g in t.heap ==> t.heap[g].expire >= now
  }

  /** The levels on whose job list the item of timer slot `i` is. */
  ghost function QueuedAt(levels: seq<Level>, i: nat): (r: set<nat>) {
    set q: nat | q < |levels| && TimerItem(i) in levels[q].job
  }

  ghost predicate Shaped(s: State) {
    && |s.levels| == 3 && |s.runs| == 3 && s.pStop <= HIGH
    && (s.phase.AtLevel? || s.phase.Running? || s.phase.Dispatching? || s.phase.LevelDone? ==> s.phase.p <= HIGH)
    && (forall h :: h in s.timers.heap ==> s.timers.heap[h].slot < |s.timers.slots|)
    && (forall i: nat :: QueuedAt(s.levels, i) != {} ==> i < |s.timers.slots|)
    && (forall i :: 0 <= i < |s.timers.slots| ==> s.timers.slots[i].p <= HIGH)
    && (s.phase.Dispatching? && s.phase.item.TimerItem? ==> s.phase.item.slot < |s.timers.slots|)
  }

  /** The item being dispatched, if any: it is on no list but still counted. */
  function InHand(s: State): (x: Option<Item>) {
    if s.phase.Dispatching? then Some(s.phase.item) else None
  }

  /** Nowhere in the loop. */
  ghost predicate Unknown(s: State, x: Item)
    requires Shaped(s)
  {
    InHand(s) != Some(x) && forall q :: 0 <= q <= HIGH ==> x !in s.levels[q].job && x !in s.levels[q].wait
  }

  /** An action that is not possible now leaves the state as it is. */
  ghost function Step(s: State, a: Action): (t: State)
    requires Shaped(s)
  {
    match a
    case Begin => if s.phase.Stopped? then Begun(s) else s
    case Tick => LoopStep(s)
    case ReadClock(now) => if s.phase.PollJobs? then PolledJobs(s, now) else s
    case ExpireOne(h) =>
      if s.phase.PollTimers? && NextDue(s.timers, h, s.phase.now) then ExpiredOne(s, h) else s
    case FdReady(p, id) =>
      if s.phase.PollFds? && p <= HIGH && Unknown(s, OtherItem(id)) then
        s.(levels := s.levels[p := ItemAdded(s.levels[p], OtherItem(id))])
      else s
    case TimerAdd(p, expire, check) =>
      if p <= HIGH && check != 0 && FreshCheck(s.timers, check) then
        s.(timers := Added(s.timers, p, expire, check))
      else s
    case TimerDel(check, pos) =>
      if check != 0 && Deletable(s.timers, check, pos) then TimerDeleted(s, pos) else s // else EINVAL
    case JobAdd(p, id) =>
      if p <= HIGH && Unknown(s, JobItem(id)) then
        s.(levels := s.levels[p := s.levels[p].(wait := s.levels[p].wait + [JobItem(id)])])
      else s
    case ItemDel(p, item) =>
      if p <= HIGH && !item.TimerItem? then s.(levels := s.levels[p := Forgotten(s.levels[p], item)]) else s
    case Stop => s.(stop := true)
  }

  /** random() gave a check that no handle carries yet. */
  ghost predicate FreshCheck(t: Timers, check: nat) {
    forall pos: nat :: (check, pos) !in t.issued
  }

  /** lib/loop_job.c: qb_loop_job_del looks at the wait list first. */
  function Forgotten(l: Level, x: Item): (r: Level) {
    if x in l.wait then l.(wait := Without(l.wait, x)) else ItemDeleted(l, x)
  }

  ghost function Begun(s: State): (t: State)
    requires Shaped(s)
  {
    s.(stop := false, pStop := LOW, remaining := 0, phase := Top, tops := 0, runs := [0, 0, 0],
       leftover := exists q :: 0 <= q <= HIGH && s.levels[q].job != [])
  }

  ghost function PolledJobs(s: State, now: nat): (t: State)
    requires Shaped(s)
  {
    var n := |s.levels[0].wait| + |s.levels[1].wait| + |s.levels[2].wait|;
    s.(levels := [Spliced(s.levels[0]), Spliced(s.levels[1]), Spliced(s.levels[2])],
       jobTodo := n, timerTodo := 0, phase := PollTimers(now))
  }

  ghost function ExpiredOne(s: State, h: nat): (t: State)
    requires Shaped(s) && h in s.timers.heap
  {
    var i := s.timers.heap[h].slot;
    var p := s.timers.slots[i].p;
    s.(timers := Expired(s.timers, h), levels := s.levels[p := ItemAdded(s.levels[p], TimerItem(i))],
       timerTodo := s.timerTodo + 1)
  }

  ghost function TimerDeleted(s: State, pos: nat): (t: State)
    requires Shaped(s) && pos < |s.timers.slots|
  {
    var p := s.timers.slots[pos].p;
    s.(timers := Deleted(s.timers, pos),
       levels := if s.timers.slots[pos].state == JobList
                 then s.levels[p := ItemDeleted(s.levels[p], TimerItem(pos))] else s.levels)
  }

  /** lib/loop.c: qb_loop_run and qb_loop_run_level between the choices of others. */
  ghost function LoopStep(s: State): (t: State)
    requires Shaped(s)
    ensures |t.levels| == |s.levels| && |t.runs| == |s.runs|
  {
    match s.phase
    case Top => s.(pStop := if s.pStop == LOW then HIGH else s.pStop - 1, phase := PollJobs, tops := s.tops + 1)
    case PollTimers(now) => if NoneDue(s.timers, now) then s.(phase := Decide) else s
    case Decide =>
      s.(timeout := if s.remaining > 0 || s.timerTodo > 0 then Zero
                    else if s.jobTodo > 0 then Fifty else UntilNextTimer,
         phase := PollFds)
    case PollFds => s.(remaining := 0, phase := AtLevel(HIGH))
    case AtLevel(p) => s.(phase := if p >= s.pStop then Running(p, 0) else LevelDone(p))
    case Running(p, n) =>
      if s.levels[p].job == [] then RunEnds(s, p) else DispatchStarts(s, p, n)
    case Dispatching(p, n, x) => DispatchEnds(s, p, n, x)
    case LevelDone(p) =>
      s.(remaining := s.remaining + s.levels[p].todo,
         phase := if p > LOW then AtLevel(p - 1) else if s.stop then Stopped else Top)
    case _ => s // Stopped, or waiting for ReadClock
  }

  /** Back from qb_loop_run_level. */
  ghost function RunEnds(s: State, p: nat): (t: State)
    requires p < |s.runs|
  {
    s.(phase := if s.stop then Stopped else LevelDone(p), runs := s.runs[p := s.runs[p] + 1])
  }

  ghost function DispatchStarts(s: State, p: nat, n: nat): (t: State)
    requires Shaped(s) && p <= HIGH && s.levels[p].job != []
  {
    var x := s.levels[p].job[0];
    s.(levels := s.levels[p := s.levels[p].(job := s.levels[p].job[1..])],
       timers := if x.TimerItem? then
                   assert p in QueuedAt(s.levels, x.slot); Started(s.timers, x.slot)
                 else s.timers,
       phase := Dispatching(p, n, x))
  }

  ghost function DispatchEnds(s: State, p: nat, n: nat, x: Item): (t: State)
    requires Shaped(s) && s.phase == Dispatching(p, n, x)
  {
    var u := s.(levels := s.levels[p := s.levels[p].(todo := s.levels[p].todo - 1)],
                timers := if x.TimerItem? then Ended(s.timers, x.slot) else s.timers,
                phase := Running(p, n + 1));
    if s.stop || n + 1 >= QUANTUM then RunEnds(u, p) else u
  }
}
