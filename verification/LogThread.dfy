/**
 The logging thread: any number of producers, one worker and one caller of stop,
 interleaved at every step inside and outside the lock.
 */
module LogThread {
  import opened Common

  const RECORD: nat := 48      // sizeof(struct qb_log_record) on LP64
  const LIMIT: nat := 512000

  /** A record by its identity and the length of its message. */
  datatype Rec = Rec(id: nat, len: nat)

  function Size(r: Rec): (n: nat) {
    RECORD + r.len + 1
  }

  function Total(q: seq<Rec>): (n: nat) {
    if q == [] then 0 else Total(q[..|q| - 1]) + Size(q[|q| - 1])
  }

  /** Who is inside the lock, and how far. */
  datatype Lock =
    | Free
    | Entered(rec: Rec)   // a producer, about to add to the memory in use
    | Added(rec: Rec)     // a producer, about to test the limit
    | Rejected(rec: Rec)  // a producer over the limit, about to take its size back
    | Dropped             // a producer, its record counted as lost, about to leave
    | Appended            // a producer, its record queued, about to leave
    | Checking            // the worker, about to look at the exit flag
    | Taking              // the worker, about to take the first record
    | Taken(rec: Rec)     // the worker, about to subtract its size
    | Writing(rec: Rec)   // the worker, about to write it
    | Leaving             // the worker, about to leave
    | Stopping            // the caller of stop, about to set the exit flag
    | Flagged             // the caller of stop, about to leave

  datatype Worker = Waiting | Awake | Inside | Gone
  datatype Stopper = Running | Stopped | Posted

  /**
   `posts` counts the producers that have left the lock and not yet posted.  The
   fields from `offered` on are history: messages offered, records ever queued,
   records written, messages ever dropped, and drops already reported.
   */
  datatype State = State(
    lock: Lock, queue: seq<Rec>, memory: int, lost: nat, sem: nat, posts: nat,
    worker: Worker, stopper: Stopper, shouldExit: bool,
    offered: nat, queued: seq<Rec>, written: seq<Rec>, dropped: nat, reported: nat)

  datatype Action =
    | Offer(rec: Rec)  // a producer takes the lock
    | Post             // a producer posts
    | Wake             // the worker's sem_wait returns
    | Enter            // the worker takes the lock
    | Stop             // the caller of stop takes the lock
    | StopPost         // the caller of stop posts
    | HolderMoves      // whoever is inside the lock takes a step

  const INIT: State := State(Free, [], 0, 0, 0, 0, Waiting, Running, false, 0, [], [], 0, 0)

  /** An action that is not enabled leaves the state as it is. */
  function Step(s: State, a: Action): (t: State) {
    match a
    case Offer(r) => if s.lock.Free? then s.(lock := Entered(r), offered := s.offered + 1) else s
    case Post => if s.posts > 0 then s.(posts := s.posts - 1, sem := s.sem + 1) else s
    case Wake => if s.worker.Waiting? && s.sem > 0 then s.(sem := s.sem - 1, worker := Awake) else s
    case Enter => if s.worker.Awake? && s.lock.Free? then s.(lock := Checking, worker := Inside) else s
    case Stop => if s.stopper.Running? && s.lock.Free? then s.(lock := Stopping, stopper := Stopped) else s
    case StopPost =>
      if s.stopper.Stopped? && s.shouldExit && !s.lock.Flagged? then s.(stopper := Posted, sem := s.sem + 1) else s
    case HolderMoves => HolderStep(s)
  }

  function HolderStep(s: State): (t: State) {
    match s.lock
    case Free => s
    case Entered(r) => s.(memory := s.memory + Size(r), lock := Added(r))
    case Added(r) =>
      if s.memory > LIMIT then s.(lock := Rejected(r))
      else s.(queue := s.queue + [r], queued := s.queued + [r], lock := Appended)
    case Rejected(r) => s.(memory := s.memory - Size(r), lost := s.lost + 1, dropped := s.dropped + 1, lock := Dropped)
    case Dropped => s.(lock := Free)
    case Appended => s.(lock := Free, posts := s.posts + 1)
    case Checking => if s.shouldExit && s.sem == 0 then s.(lock := Free, worker := Gone) else s.(lock := Taking)
    case Taking => if s.queue == [] then s else s.(queue := s.queue[1..], lock := Taken(s.queue[0]))
    case Taken(r) => s.(memory := s.memory - Size(r), lock := Writing(r))
    case Writing(r) => s.(reported := s.reported + s.lost, lost := 0, written := s.written + [r], lock := Leaving)
    case Leaving => s.(lock := Free, worker := Waiting)
    case Stopping => s.(shouldExit := true, lock := Flagged)
    case Flagged => s.(lock := Free)
  }

  // ---------------------------------------------------------------- invariant

  predicate WorkerInside(l: Lock) {
    l.Checking? || l.Taking? || l.Taken? || l.Writing? || l.Leaving?
  }

  predicate StopperInside(l: Lock) {
    l.Stopping? || l.Flagged?
  }

  /** Program counters agree with each other. */
  predicate Counters(s: State) {
    (s.worker.Inside? <==> WorkerInside(s.lock)) &&
    (StopperInside(s.lock) ==> s.stopper.Stopped?) &&
    (s.shouldExit <==> !s.stopper.Running? && !s.lock.Stopping?)
  }

  /** The worker has a token that it has not yet spent on a record. */
  predicate Holding(s: State) {
    s.worker.Awake? || s.lock.Checking? || s.lock.Taking?
  }

  /** Each record in the queue, and the stop, is matched by one token: posted, about to
      be posted, or in the worker's hand.  A worker that has left kept one. */
  predicate Tokens(s: State) {
    |s.queue| + One(s.stopper.Posted?) ==
    s.sem + s.posts + One(s.lock.Appended?) + One(Holding(s)) + One(s.worker.Gone?)
  }

  predicate Memory(s: State) {
    Total(s.queue) <= LIMIT &&
    s.memory == Total(s.queue) + match s.lock
                                 case Added(r) => Size(r)
                                 case Rejected(r) => Size(r)
                                 case Taken(r) => Size(r)
                                 case _ => 0
  }

  /** The record between the queue and the log. */
  function InHand(l: Lock): (q: seq<Rec>) {
    match l
    case Taken(r) => [r]
    case Writing(r) => [r]
    case _ => []
  }

  /** A message between the offer and its fate. */
  predicate Undecided(l: Lock) {
    l.Entered? || l.Added? || l.Rejected?
  }

  /** The records ever queued, split by how far they are. */
  predicate Order(s: State) {
    s.queued == s.written + InHand(s.lock) + s.queue
  }

  /** The messages ever offered, split by what became of them. */
  predicate Fates(s: State) {
    s.offered == s.dropped + |s.queued| + One(Undecided(s.lock)) &&
    s.dropped == s.reported + s.lost
  }

  /** A worker about to take a record has one to take. */
  predicate Fed(s: State) {
    s.lock.Taking? ==> s.queue != []
  }

  predicate Inv(s: State) {
    Counters(s) && Tokens(s) && Memory(s) && Order(s) && Fates(s) && Fed(s)
  }

  lemma {:induction false} TotalTail(q: seq<Rec>)
    requires q != []
    ensures Total(q) == Size(q[0]) + Total(q[1..])
  {
    if |q| > 1 {
      TotalTail(q[..|q| - 1]);
      assert q[1..][..|q| - 2] == q[..|q| - 1][1..];
    }
  }

  lemma TotalSnoc(q: seq<Rec>, r: Rec)
    ensures Total(q + [r]) == Total(q) + Size(r)
  {
    assert (q + [r])[..|q|] == q;
  }

  lemma TokensKept(s: State, a: Action)
    requires Counters(s) && Tokens(s) && Fed(s)
    ensures Tokens(Step(s, a))
  {
  }

  lemma MemoryKept(s: State, a: Action)
    requires Memory(s)
    ensures Memory(Step(s, a))
  {
    hide Total, Size;
    if a.HolderMoves? && s.lock.Added? {
      TotalSnoc(s.queue, s.lock.rec);
    } else if a.HolderMoves? && s.lock.Taking? && s.queue != [] {
      TotalTail(s.queue);
    }
  }

  lemma OrderKept(s: State, a: Action)
    requires Order(s)
    ensures Order(Step(s, a))
  {
    hide Size;
    if a.HolderMoves? && s.lock.Taking? && s.queue != [] {
      assert s.queue == [s.queue[0]] + s.queue[1..];
    } else if a.HolderMoves? && s.lock.Added? {
      assert s.written + [] + (s.queue + [s.lock.rec]) == s.written + [] + s.queue + [s.lock.rec];
    }
  }

  lemma FatesKept(s: State, a: Action)
    requires Fates(s)
    ensures Fates(Step(s, a))
  {
  }

  /** Past the exit check a token is left over for a record. */
  lemma FedKept(s: State, a: Action)
    requires Counters(s) && Tokens(s) && Fed(s)
    ensures Fed(Step(s, a))
  {
  }

  lemma CountersKept(s: State, a: Action)
    requires Counters(s)
    ensures Counters(Step(s, a))
  {
  }

  lemma StepKeeps(s: State, a: Action)
    requires Inv(s)
    ensures Inv(Step(s, a))
  {
    hide Step, Counters, Tokens, Memory, Order, Fates, Fed;
    CountersKept(s, a);
    TokensKept(s, a);
    MemoryKept(s, a);
    OrderKept(s, a);
    FatesKept(s, a);
    FedKept(s, a);
  }

  /** The state after a run. */
  function After(run: seq<Action>): (s: State)
    ensures Inv(s)
  {
    if run == [] then INIT else
      var s := After(run[..|run| - 1]);
      var a := run[|run| - 1];
      StepKeeps(s, a);
      Step(s, a)
  }

  // ----------------------------------------------------------------- results

  /** Whenever the lock is free the memory in use is the size of the queued records
      and within the limit. */
  lemma MemoryWithinLimit(run: seq<Action>)
    ensures var s := After(run); s.lock.Free? ==> s.memory == Total(s.queue) && s.memory <= LIMIT
  {
    hide After, Total, Counters, Tokens, Order, Fates, Fed;
  }

  /** The worker never takes from an empty queue, the extra token of stop included. */
  lemma NeverTakesFromEmpty(run: seq<Action>)
    ensures After(run).lock.Taking? ==> After(run).queue != []
  {
    hide After, Total, Counters, Tokens, Order, Fates, Memory;
  }

  /** Records reach the log in the order in which they were queued; no message is lost
      without being counted, none is written twice. */
  lemma NothingUnaccounted(run: seq<Action>)
    ensures var s := After(run);
            s.written <= s.queued &&
            (s.lock.Free? ==> s.queued == s.written + s.queue && s.offered == s.dropped + |s.written| + |s.queue|) &&
            s.dropped == s.reported + s.lost
  {
    hide After, Total, Counters, Tokens, Memory, Fed;
  }

  /** A message is dropped exactly when it would take the queue over the limit. */
  lemma DroppedIffOverLimit(run: seq<Action>)
    requires After(run).lock.Added?
    ensures var s, t := After(run), Step(After(run), HolderMoves);
            if Total(s.queue) + Size(s.lock.rec) > LIMIT then t.lock.Rejected? && t.queue == s.queue
            else t.lock.Appended? && t.queue == s.queue + [s.lock.rec]
  {
    hide After, Total, Size, Counters, Tokens, Order, Fates, Fed;
  }

  /** No wake-up is lost: once everybody rests, a waiting worker has written it all. */
  lemma RestMeansWritten(run: seq<Action>)
    requires var s := After(run);
             s.lock.Free? && s.posts == 0 && s.worker.Waiting? && s.sem == 0
    ensures After(run).queue == [] && After(run).written == After(run).queued
    ensures !After(run).stopper.Posted?
  {
    hide After, Total, Memory, Counters, Fates, Fed;
  }

  /** What the worker leaves behind when it exits: the records whose producers have not
      posted yet, and one more if stop has not posted either.  So everything is flushed
      if and only if stop has posted and no producer is about to. */
  lemma LeftBehind(run: seq<Action>)
    requires After(run).lock.Checking? && Step(After(run), HolderMoves).worker.Gone?
    ensures var s, t := After(run), Step(After(run), HolderMoves);
            |t.queue| == s.posts + One(!s.stopper.Posted?) &&
            (t.written == t.queued <==> s.stopper.Posted? && s.posts == 0)
  {
    hide After, Total, Memory, Fates, Fed;
    var s := After(run);
    assert s.queued == s.written + s.queue;
  }

  /** A worker that has left stays away, and later records stay in the queue. */
  lemma GoneForGood(run: seq<Action>, a: Action)
    requires After(run).worker.Gone?
    ensures Step(After(run), a).worker.Gone? && Step(After(run), a).written == After(run).written
  {
    hide After, Total, Memory, Fates, Tokens, Order, Fed;
  }

  /** Setting the flag before posting can lose a record: a worker already awake for
      one record finds the flag, no further token, and leaves. */
  lemma StopCanLoseARecord(r: Rec)
    requires Size(r) <= LIMIT
    ensures exists run ::
              After(run).worker.Gone? && After(run).stopper.Posted? && After(run).queue == [r] &&
              After(run).written == []
  {
    hide After, Total, Size, Inv;
    Nothing();
    var run3 := Three([], Offer(r), HolderMoves, HolderMoves);
    assert After(run3).queue == [r] && After(run3).lock.Appended?;
    var run6 := Three(run3, HolderMoves, Post, Wake);
    assert After(run6).worker.Awake? && After(run6).sem == 0;
    var run9 := Three(run6, Stop, HolderMoves, HolderMoves);
    var run := Three(run9, Enter, HolderMoves, StopPost);
    assert After(run).worker.Gone?;
  }

  lemma Nothing()
    ensures After([]) == INIT
  {
  }

  /** A run and three more actions. */
  lemma Three(run: seq<Action>, a: Action, b: Action, c: Action) returns (longer: seq<Action>)
    ensures After(longer) == Step(Step(Step(After(run), a), b), c)
  {
    hide Step, Inv;
    longer := run + [a, b, c];
    assert longer[..|longer| - 1] == run + [a, b];
    assert (run + [a, b])[..|run| + 1] == run + [a];
    assert (run + [a])[..|run|] == run;
    assert After(run + [a]) == Step(After(run), a);
    assert After(run + [a, b]) == Step(After(run + [a]), b);
  }
}
