/** The logging thread gets its work done, and the records it is given are the ones written. */
module LogDrain {
  import opened Common
  import opened LogThread

  lemma AfterOne(run: seq<Action>, a: Action)
    ensures After(run + [a]) == Step(After(run), a)
  {
    hide Step, Inv;
    assert (run + [a])[..|run|] == run;
  }

  // ----------------------------------------------------- records, as the run has them

  /** The record of the last producer that took the lock. */
  function LastOffered(run: seq<Action>): (r: Rec)
    decreases |run|
  {
    if run == [] then Rec(0, 0)
    else
      var before, a := run[..|run| - 1], run[|run| - 1];
      if a.Offer? && After(before).lock.Free? then a.rec else LastOffered(before)
  }

  predicate LetIn(p: Lock, q: Lock) {
    p.Added? && q.Appended?
  }

  /** The records of all producers that passed the limit test, in order. */
  function LetThrough(run: seq<Action>): (rs: seq<Rec>)
    decreases |run|
  {
    if run == [] then []
    else
      var before := run[..|run| - 1];
      LetThrough(before) + if LetIn(After(before).lock, After(run).lock) then [LastOffered(before)] else []
  }

  predicate Carries(l: Lock, r: Rec) {
    l.Entered? || l.Added? || l.Rejected? ==> l.rec == r
  }

  lemma StepCarries(s: State, a: Action, r: Rec)
    requires Carries(s.lock, r)
    ensures var t := Step(s, a);
            && Carries(t.lock, if a.Offer? && s.lock.Free? then a.rec else r)
            && t.queued == s.queued + if LetIn(s.lock, t.lock) then [r] else []
  {
  }

  /** What is queued, and so what is written, are the records that were offered and let
      through, whole and in order. */
  lemma {:induction false} QueuedIsWhatWasOffered(run: seq<Action>)
    ensures After(run).queued == LetThrough(run) && Carries(After(run).lock, LastOffered(run))
    ensures After(run).written <= LetThrough(run)
    decreases |run|
  {
    hide Step, Inv;
    if run != [] {
      var before, a := run[..|run| - 1], run[|run| - 1];
      QueuedIsWhatWasOffered(before);
      StepCarries(After(before), a, LastOffered(before));
    }
    NothingUnaccounted(run);
  }

  // ------------------------------------------------------------------------ progress

  /** Nobody is inside the lock or about to post; the worker waits, and will not leave
      before the extra token of stop is there. */
  predicate AtRest(s: State) {
    s.lock.Free? && s.posts == 0 && s.worker.Waiting? && (s.shouldExit ==> s.stopper.Posted?)
  }

  /** What the worker does for one record. */
  function Turn(): (run: seq<Action>) {
    [Wake, Enter, HolderMoves, HolderMoves, HolderMoves, HolderMoves, HolderMoves]
  }

  function Served(s: State): (t: State)
    requires s.queue != [] && s.sem > 0
  {
    s.(queue := s.queue[1..], memory := s.memory - Size(s.queue[0]), sem := s.sem - 1,
       written := s.written + [s.queue[0]], reported := s.reported + s.lost, lost := 0)
  }

  lemma ServeOne(s: State)
    requires Inv(s) && AtRest(s) && s.queue != []
    ensures s.sem > 0
    ensures var h := HolderMoves;
            Step(Step(Step(Step(Step(Step(Step(s, Wake), Enter), h), h), h), h), h) == Served(s)
  {
    hide Memory, Order, Fates, Fed;
    assert s.sem == |s.queue| + One(s.stopper.Posted?);
    var t := s.(sem := s.sem - 1, worker := Awake);
    assert Step(s, Wake) == t;
    var u := t.(lock := Checking, worker := Inside);
    assert Step(t, Enter) == u;
    assert HolderStep(u) == u.(lock := Taking);
    var v := u.(queue := s.queue[1..], lock := Taken(s.queue[0]));
    assert HolderStep(u.(lock := Taking)) == v;
    var w := v.(memory := s.memory - Size(s.queue[0]), lock := Writing(s.queue[0]));
    assert HolderStep(v) == w;
  }

  lemma TurnServes(run: seq<Action>)
    requires AtRest(After(run)) && After(run).queue != []
    ensures After(run).sem > 0 && After(run + Turn()) == Served(After(run)) && AtRest(After(run + Turn()))
  {
    hide After, Step, Inv;
    ServeOne(After(run));
    var h := HolderMoves;
    AfterOne(run, Wake);
    AfterOne(run + [Wake], Enter);
    AfterOne(run + [Wake] + [Enter], h);
    AfterOne(run + [Wake] + [Enter] + [h], h);
    AfterOne(run + [Wake] + [Enter] + [h] + [h], h);
    AfterOne(run + [Wake] + [Enter] + [h] + [h] + [h], h);
    AfterOne(run + [Wake] + [Enter] + [h] + [h] + [h] + [h], h);
    assert run + Turn() == run + [Wake] + [Enter] + [h] + [h] + [h] + [h] + [h];
  }

  function Turns(n: nat): (run: seq<Action>) {
    if n == 0 then [] else Turn() + Turns(n - 1)
  }

  /** With as many turns as records are queued the worker writes all of them. */
  lemma {:induction false} WorkerDrains(run: seq<Action>)
    requires AtRest(After(run))
    ensures var s, t := After(run), After(run + Turns(|After(run).queue|));
            && AtRest(t) && t.queue == [] && t.written == s.queued == t.queued
            && t.stopper == s.stopper && t.sem == One(s.stopper.Posted?)
    decreases |After(run).queue|
  {
    hide After, Step, Inv, Turn;
    var s := After(run);
    if s.queue == [] {
      assert run + Turns(0) == run;
      AllWritten(s);
    } else {
      TurnServes(run);
      WorkerDrains(run + Turn());
      assert run + Turns(|s.queue|) == run + Turn() + Turns(|s.queue| - 1);
    }
  }

  lemma AllWritten(s: State)
    requires Inv(s) && AtRest(s) && s.queue == []
    ensures s.written == s.queued && s.sem == One(s.stopper.Posted?)
  {
    hide Memory, Fates, Fed;
  }

  /** Once stop has posted, and no producer is about to, the worker writes everything that
      is queued and then leaves. */
  lemma {:induction false} StopFlushes(run: seq<Action>)
    requires AtRest(After(run)) && After(run).stopper.Posted?
    ensures var t := After(run + Turns(|After(run).queue|) + [Wake, Enter, HolderMoves]);
            t.worker.Gone? && t.queue == [] && t.written == After(run).queued
  {
    hide After, Inv, Turns;
    WorkerDrains(run);
    var done := run + Turns(|After(run).queue|);
    ExitSet(After(done));
    AfterOne(done, Wake);
    AfterOne(done + [Wake], Enter);
    AfterOne(done + [Wake] + [Enter], HolderMoves);
    assert done + [Wake, Enter, HolderMoves] == done + [Wake] + [Enter] + [HolderMoves];
  }

  lemma ExitSet(s: State)
    requires Inv(s) && s.stopper.Posted?
    ensures s.shouldExit
  {
    hide Memory, Fates, Fed, Order, Tokens;
  }
}
