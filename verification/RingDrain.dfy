/** Nothing committed to a ring is lost: readers that go on get all of it. */
module RingDrain {
  import opened RingLayout
  import opened RingProtocol

  /** With the reader at rest and no token left, everything committed was delivered,
      unless the writer is about to post its last chunk. */
  lemma RestMeansDelivered(size: nat, run: seq<Action>)
    requires Area(Init(size).mem)
    requires After(size, run).reader.RIdle? && After(size, run).sem == 0
    ensures var s := After(size, run);
            if s.writer.WPost? then |s.log| == |s.delivered| + 1 && s.delivered <= s.log else s.delivered == s.log
  {
    hide After, Stored, WriterView, ReaderView, Step, ChunksAt;
    var s := After(size, run);
    assert s.delivered + Queue(s) == s.log;
  }

  /** A read is under way and its buffer is large enough for the head of the queue. */
  ghost predicate Serving(s: State) {
    Inv(s) && Queue(s) != [] &&
    match s.reader
    case RIdle => false
    case RRepost => false
    case RMagic(room) => room >= |Queue(s)[0]|
    case RSize(room) => room >= |Queue(s)[0]|
    case _ => true
  }

  /** Steps that the read under way still takes. */
  ghost function Ahead(s: State): (n: nat)
    requires Serving(s)
  {
    var len := |Queue(s)[0]|;
    match s.reader
    case RMagic(_) => len + 8
    case RSize(_) => len + 7
    case RCopy(_, buf) => len - |buf| + 6
    case RReclaim(_) => 5
    case RStep(_) => 4
    case RClear(_, _) => 3
    case RDead(_, _) => 2
    case RPoint(_, _) => 1
  }

  /** A step of a read brings it nearer to its end, or delivers the head of the queue. */
  lemma ServeStep(s: State)
    requires Serving(s)
    ensures Sane(s)
    ensures var t := ReaderStep(s);
            && Inv(t) && t.writer == s.writer && t.log == s.log && t.sem == s.sem
            && if s.reader.RPoint? then t.reader.RIdle? && t.delivered == s.delivered + [Queue(s)[0]]
               else Serving(t) && t.delivered == s.delivered && Ahead(t) < Ahead(s)
  {
    ReaderKeeps(s);
    if HeadIntact(s.reader) {
      HeadReadable(s);
    }
    ServeMoves(s);
  }

  lemma ServeMoves(s: State)
    requires Serving(s) && Sane(s) && Inv(ReaderStep(s))
    requires HeadIntact(s.reader) ==>
               LoadWord(s.mem, Wrap(s.rp + 1, WordSize(s.mem))) == MAGIC && LoadWord(s.mem, s.rp) == |Queue(s)[0]|
    ensures var t := ReaderStep(s);
            && t.writer == s.writer && t.log == s.log && t.sem == s.sem
            && if s.reader.RPoint? then t.reader.RIdle? && t.delivered == s.delivered + [Queue(s)[0]]
               else Serving(t) && t.delivered == s.delivered && Ahead(t) < Ahead(s)
  {
    hide Stored, WriterView, Tokens, Wrap, LoadWord, ChunkStep, ChunkWords, TotalWords, StoreWord, Cell;
  }

  lemma AfterMore(size: nat, run: seq<Action>, a: Action)
    requires Area(Init(size).mem)
    ensures Sane(After(size, run)) && After(size, run + [a]) == Step(After(size, run), a)
  {
    hide Inv, Step;
    assert (run + [a])[..|run|] == run;
    StepKeeps(After(size, run), a);
  }

  /** A read under way is finished by the reader alone. */
  lemma {:induction false} Finish(size: nat, run: seq<Action>) returns (more: seq<Action>)
    requires Area(Init(size).mem) && Serving(After(size, run))
    ensures forall i :: 0 <= i < |more| ==> more[i] == ReaderMoves
    ensures var s, t := After(size, run), After(size, run + more);
            && t.reader.RIdle? && t.writer == s.writer && t.log == s.log && t.sem == s.sem
            && t.delivered == s.delivered + [Queue(s)[0]]
    decreases Ahead(After(size, run))
  {
    hide After, Inv, ReaderStep, Serving, Ahead;
    var s := After(size, run);
    AfterMore(size, run, ReaderMoves);
    ServeStep(s);
    if s.reader.RPoint? {
      more := [ReaderMoves];
    } else {
      HeadStays(s, ReaderStep(s));
      var rest := Finish(size, run + [ReaderMoves]);
      more := [ReaderMoves] + rest;
      assert run + more == run + [ReaderMoves] + rest;
    }
  }

  lemma HeadStays(s: State, t: State)
    requires Serving(s) && Serving(t) && t.log == s.log && t.delivered == s.delivered
    ensures Queue(t) == Queue(s)
  {
  }

  function Reads(run: seq<Action>): (n: nat) {
    if run == [] then 0 else (if run[0].Read? then 1 else 0) + Reads(run[1..])
  }

  lemma {:induction false} NoReads(run: seq<Action>, rest: seq<Action>)
    requires forall i :: 0 <= i < |run| ==> run[i] == ReaderMoves
    ensures Reads(run + rest) == Reads(rest)
  {
    if run == [] {
      assert run + rest == rest;
    } else {
      assert (run + rest)[1..] == run[1..] + rest;
      NoReads(run[1..], rest);
    }
  }

  /** A read finds a token as long as a posted chunk is queued. */
  lemma ReadStarts(s: State, room: nat)
    requires Inv(s) && s.reader.RIdle? && !s.writer.WPost? && Queue(s) != [] && room >= |Queue(s)[0]|
    ensures Sane(s)
    ensures var t := Step(s, Read(room));
            Serving(t) && t.writer == s.writer && t.log == s.log && t.delivered == s.delivered
  {
    StepKeeps(s, Read(room));
    hide Stored, WriterView, ChunkWords, TotalWords;
  }

  /**
   No loss: wherever the writer stands, save before its post, exactly as many reads as
   chunks are queued, with buffers large enough, deliver everything committed.
   */
  lemma {:induction false} Drained(size: nat, run: seq<Action>, room: nat) returns (more: seq<Action>)
    requires Area(Init(size).mem)
    requires var s := After(size, run);
             && s.reader.RIdle? && !s.writer.WPost?
             && forall i :: 0 <= i < |Queue(s)| ==> |Queue(s)[i]| <= room
    ensures forall i :: 0 <= i < |more| ==> more[i] == Read(room) || more[i] == ReaderMoves
    ensures Reads(more) == |Queue(After(size, run))|
    ensures var s, t := After(size, run), After(size, run + more);
            t.log == s.log && t.delivered == t.log && t.writer == s.writer
    decreases |Queue(After(size, run))|
  {
    hide After, Inv, Step, Serving;
    var s := After(size, run);
    LogSplit(s);
    if Queue(s) == [] {
      more := [];
      assert run + more == run;
    } else {
      AfterMore(size, run, Read(room));
      ReadStarts(s, room);
      var one := Finish(size, run + [Read(room)]);
      var run' := run + [Read(room)] + one;
      QueueShrinks(s, After(size, run + [Read(room)]), After(size, run'));
      var rest := Drained(size, run', room);
      more := [Read(room)] + one + rest;
      assert run + more == run' + rest;
      assert more[1..] == one + rest;
      NoReads(one, rest);
    }
  }

  lemma LogSplit(s: State)
    requires Inv(s)
    ensures s.delivered + Queue(s) == s.log
  {
    hide Stored, WriterView, ReaderView, Tokens;
  }

  lemma QueueShrinks(s: State, u: State, t: State)
    requires Inv(s) && Inv(u) && Inv(t) && Queue(s) != []
    requires u.log == s.log == t.log && u.delivered == s.delivered && t.delivered == s.delivered + [Queue(u)[0]]
    ensures Queue(t) == Queue(s)[1..]
  {
    hide Stored, WriterView, ReaderView, Tokens;
  }
}
