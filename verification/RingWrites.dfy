/** What is committed to a ring is what its callers asked to write, byte for byte. */
module RingWrites {
  import opened Common
  import opened RingLayout
  import opened RingProtocol

  // --------------------------------------------------- requests, as the run has them

  /** The data of the last write that was begun. */
  ghost function Asked(size: nat, run: seq<Action>): (d: Bytes)
    requires Area(Init(size).mem)
    decreases |run|
  {
    if run == [] then []
    else
      var before, a := run[..|run| - 1], run[|run| - 1];
      if a.Write? && After(size, before).writer.WIdle? then a.data else Asked(size, before)
  }

  /** The space check has just let a write through. */
  predicate LetThrough(p: Writer, q: Writer) {
    (p.WCheck? || p.WQLen?) && q.WSize0?
  }

  /** The data of all writes that were let through, in order. */
  ghost function Accepted(size: nat, run: seq<Action>): (ds: seq<Bytes>)
    requires Area(Init(size).mem)
    decreases |run|
  {
    if run == [] then []
    else
      var before := run[..|run| - 1];
      Accepted(size, before) +
      if LetThrough(After(size, before).writer, After(size, run).writer) then [Asked(size, before)] else []
  }

  /** The write under way that has its words but is not committed yet. */
  ghost function Underway(p: Writer): (ds: seq<Bytes>) {
    if Granted(p) || p.WMagic? then [p.data] else []
  }

  /** A writer that is busy works on what was asked for. */
  ghost predicate WorksOn(p: Writer, d: Bytes) {
    !p.WIdle? && !p.WPost? ==> p.data == d
  }

  lemma AfterLast(size: nat, run: seq<Action>)
    requires Area(Init(size).mem) && run != []
    ensures var s := After(size, run[..|run| - 1]);
            Sane(s) && After(size, run) == Step(s, run[|run| - 1])
  {
    hide Inv, Step;
    StepKeeps(After(size, run[..|run| - 1]), run[|run| - 1]);
  }

  /** One step of a writer that works on d. */
  lemma StepWorks(s: State, a: Action, d: Bytes, accepted: seq<Bytes>)
    requires Sane(s) && WorksOn(s.writer, d) && s.log + Underway(s.writer) == accepted
    ensures var t := Step(s, a);
            && WorksOn(t.writer, if a.Write? && s.writer.WIdle? then a.data else d)
            && t.log + Underway(t.writer) == accepted + if LetThrough(s.writer, t.writer) then [d] else []
  {
    hide Wrap, Store, StoreWord, LoadWord, ChunkStep, SpaceFree, Cell;
  }

  lemma {:induction false} WorksOnAsked(size: nat, run: seq<Action>)
    requires Area(Init(size).mem)
    ensures var s := After(size, run);
            WorksOn(s.writer, Asked(size, run)) && s.log + Underway(s.writer) == Accepted(size, run)
    decreases |run|
  {
    hide Step, Inv;
    if run != [] {
      AfterLast(size, run);
      hide After;
      var before, a := run[..|run| - 1], run[|run| - 1];
      WorksOnAsked(size, before);
      StepWorks(After(size, before), a, Asked(size, before), Accepted(size, before));
    }
  }

  /** The log of the ring is the sequence of the writes that were let through, each with
      all the data it was called with, save one that is still under way. */
  lemma {:induction false} LogIsWhatWasAsked(size: nat, run: seq<Action>)
    requires Area(Init(size).mem)
    ensures After(size, run).log <= Accepted(size, run)
    ensures var s := After(size, run); s.writer.WIdle? ==> s.log == Accepted(size, run)
    ensures |Accepted(size, run)| <= |After(size, run).log| + 1
  {
    hide After, Step, Inv, Accepted, Asked;
    WorksOnAsked(size, run);
  }

  // -------------------------------------------------------------- writes come to an end

  /** Steps that a write takes from here on, at most. */
  function Ahead(p: Writer): (n: nat) {
    match p
    case WIdle => 0
    case WCheck(d) => |d| + 9
    case WQLen(d) => |d| + 8
    case WSize0(d) => |d| + 7
    case WAlloc(d) => |d| + 6
    case WCopy(d, n) => if n <= |d| then |d| - n + 5 else 5
    case WSize(_) => 4
    case WPoint(_) => 3
    case WMagic(_, _) => 2
    case WPost => 1
  }

  /** Each step brings a write nearer to its end. */
  lemma WriteStepEnds(s: State)
    requires Sane(s) && !s.writer.WIdle?
    ensures Ahead(WriterStep(s).writer) < Ahead(s.writer)
  {
    hide Wrap, Store, StoreWord, LoadWord, ChunkStep, SpaceFree, Cell;
  }

  function WriterSteps(run: seq<Action>): (n: nat) {
    if run == [] then 0 else WriterSteps(run[..|run| - 1]) + One(run[|run| - 1].WriterMoves?)
  }

  /** Reader steps in between do not matter. */
  lemma OthersLeaveWriter(s: State, a: Action)
    requires Sane(s) && (a.Read? || a.ReaderMoves?)
    ensures Step(s, a).writer == s.writer && Step(s, a).log == s.log
  {
    hide Wrap, Store, StoreWord, LoadWord, ChunkStep, Cell;
  }

  lemma {:induction false} WriteEnds(size: nat, run: seq<Action>, more: seq<Action>)
    requires Area(Init(size).mem) && forall i :: 0 <= i < |more| ==> !more[i].Write?
    ensures Ahead(After(size, run + more).writer) == 0 ||
            Ahead(After(size, run + more).writer) + WriterSteps(more) <= Ahead(After(size, run).writer)
    decreases |more|
  {
    hide After, Inv, WriterStep, ReaderStep, Ahead;
    if more == [] {
      assert run + more == run;
    } else {
      var init, a := more[..|more| - 1], more[|more| - 1];
      WriteEnds(size, run, init);
      assert (run + more)[..|run + more| - 1] == run + init;
      AfterLast(size, run + more);
      var s := After(size, run + init);
      IdleIsEnd(s.writer);
      if a.WriterMoves? {
        if !s.writer.WIdle? {
          WriteStepEnds(s);
        } else {
          IdleStays(s);
        }
      } else {
        OthersLeaveWriter(s, a);
      }
    }
  }

  lemma IdleIsEnd(p: Writer)
    ensures Ahead(p) == 0 <==> p.WIdle?
  {
  }

  lemma IdleStays(s: State)
    requires Sane(s) && s.writer.WIdle?
    ensures WriterStep(s).writer.WIdle?
  {
    hide Wrap, Store, StoreWord, LoadWord, ChunkStep, SpaceFree;
  }

  // ------------------------------------------------------------ what becomes of a write

  /** The margin test fails: an empty ring has room for its size less 12 bytes, another one
      for one word less than what is not in use, less 12 bytes. */
  ghost predicate Full(s: State, len: nat)
    requires |s.delivered| <= |s.log| && Area(s.mem)
  {
    if Used(s) > 0 then 4 * (WordSize(s.mem) - Used(s) - 1) < len + CHUNK_MARGIN else |s.mem| < len + CHUNK_MARGIN
  }

  predicate Checking(p: Writer) {
    p.WCheck? || p.WQLen?
  }

  /** How far a write of d is that found the log as `log`. */
  ghost predicate Stage(s: State, d: Bytes, log: seq<Bytes>) {
    match s.writer
    case WIdle => s.log == log || s.log == log + [d]
    case WPost => s.log == log + [d]
    case p => p.data == d && s.log == log
  }

  /** A write was refused, or else it has been let through. */
  ghost predicate Refused(s: State, log: seq<Bytes>) {
    s.writer.WIdle? && s.log == log
  }

  /** A step on the way.  The check decides, and what it decides stays. */
  lemma StageStep(s: State, a: Action, d: Bytes, log: seq<Bytes>)
    requires Inv(s) && !a.Write? && Stage(s, d, log)
    ensures Sane(s)
    ensures var t := Step(s, a);
            && Stage(t, d, log)
            && (!Checking(s.writer) ==> !Checking(t.writer) && (Refused(t, log) <==> Refused(s, log)))
            && (Checking(s.writer) && !Checking(t.writer) ==> (Refused(t, log) <==> Full(s, |d|)))
  {
    hide WriterStep, ReaderStep, Inv, Full, Stage;
    SaneOf(s);
    if a.WriterMoves? {
      StageMoves(s, d, log);
      if Checking(s.writer) {
        StageData(s, d, log);
        CheckDecides(s);
      }
    } else {
      OthersLeaveWriter(s, a);
      SameStage(s, Step(s, a), d, log);
    }
  }

  lemma StageData(s: State, d: Bytes, log: seq<Bytes>)
    requires Stage(s, d, log) && Checking(s.writer)
    ensures s.writer.data == d && s.log == log && !Refused(s, log)
  {
  }

  lemma SameStage(s: State, t: State, d: Bytes, log: seq<Bytes>)
    requires t.writer == s.writer && t.log == s.log
    ensures Stage(t, d, log) == Stage(s, d, log) && Refused(t, log) == Refused(s, log)
  {
  }

  lemma StageMoves(s: State, d: Bytes, log: seq<Bytes>)
    requires Sane(s) && Stage(s, d, log)
    ensures var t := WriterStep(s);
            && Stage(t, d, log)
            && (!Checking(s.writer) ==> !Checking(t.writer) && (Refused(t, log) <==> Refused(s, log)))
            && (Checking(s.writer) ==> t.log == log)
  {
    hide Wrap, Store, StoreWord, LoadWord, ChunkStep, SpaceFree, Cell;
  }

  lemma SaneOf(s: State)
    requires Inv(s)
    ensures Sane(s) && |s.delivered| <= |s.log|
  {
    hide Stored, WriterView, ReaderView, Tokens, Wrap, Used;
  }

  lemma CheckDecides(s: State)
    requires Inv(s) && Sane(s) && Checking(s.writer)
    ensures var t := WriterStep(s);
            Checking(t.writer) || (t.writer.WIdle? <==> Full(s, |s.writer.data|))
  {
    hide Stored, ReaderView, ChunkWords, Wrap, Store, StoreWord, LoadWord;
    SpaceFreeMeaning(WordSize(s.mem), s.base, Used(s), 0);
  }

  /** Through any actions of the reader and steps of the writer, a write of d goes on as it
      should; k is the moment of the check that decided it. */
  lemma {:induction false} WriteGoesOn(size: nat, run: seq<Action>, d: Bytes, more: seq<Action>) returns (k: nat)
    requires Area(Init(size).mem) && After(size, run).writer.WIdle?
    requires forall i :: 0 <= i < |more| ==> !more[i].Write?
    ensures k <= |more|
    ensures var log, t, u := After(size, run).log, After(size, run + [Write(d)] + more),
                             After(size, run + [Write(d)] + more[..k]);
            && Inv(u) && |u.delivered| <= |u.log|
            && Stage(t, d, log)
            && (!Checking(t.writer) ==> (Refused(t, log) <==> Full(u, |d|)))
    decreases |more|
  {
    hide After, Step, Inv, Full;
    var log, start := After(size, run).log, run + [Write(d)];
    if more == [] {
      k := 0;
      assert start[..|start| - 1] == run;
      AfterLast(size, start);
      Begun(After(size, run), d);
      assert start + more == start && start + more[..0] == start;
      SaneOf(After(size, start));
    } else {
      var init, a := more[..|more| - 1], more[|more| - 1];
      var j := WriteGoesOn(size, run, d, init);
      assert (start + more)[..|start + more| - 1] == start + init;
      AfterLast(size, start + more);
      var s := After(size, start + init);
      StageStep(s, a, d, log);
      SaneOf(s);
      if Checking(s.writer) {
        k := |init|;
        assert more[..k] == init;
      } else {
        k := j;
        assert more[..k] == init[..k];
      }
    }
  }

  lemma Begun(s: State, d: Bytes)
    requires Sane(s) && s.writer.WIdle?
    ensures var t := Step(s, Write(d)); Stage(t, d, s.log) && Checking(t.writer) && Ahead(t.writer) <= |d| + 9
  {
  }

  /**
   A write comes to an end after |d| + 9 steps of the writer, whatever readers do in
   between.  It was refused, and nothing has changed, if and only if there was no room at
   the moment of its check; otherwise exactly its data were committed.  There is one token,
   in the semaphore or in the reader's hand, for each chunk not delivered.
   */
  lemma {:induction false} WriteCompletes(size: nat, run: seq<Action>, d: Bytes, more: seq<Action>) returns (k: nat)
    requires Area(Init(size).mem) && After(size, run).writer.WIdle?
    requires (forall i :: 0 <= i < |more| ==> !more[i].Write?) && WriterSteps(more) >= |d| + 9
    ensures k <= |more|
    ensures var s, t, u := After(size, run), After(size, run + [Write(d)] + more),
                           After(size, run + [Write(d)] + more[..k]);
            && t.writer.WIdle? && |u.delivered| <= |u.log| && Area(u.mem)
            && t.log == (if Full(u, |d|) then s.log else s.log + [d])
            && t.sem + One(!t.reader.RIdle?) == |t.log| - |t.delivered|
  {
    hide After, Step, Inv, Full, WriterSteps, Ahead;
    k := WriteGoesOn(size, run, d, more);
    var start := run + [Write(d)];
    assert start[..|start| - 1] == run;
    AfterLast(size, start);
    Begun(After(size, run), d);
    WriteEnds(size, start, more);
    IdleIsEnd(After(size, start + more).writer);
    SaneOf(After(size, start + more[..k]));
    TokensAtRest(After(size, start + more));
  }

  lemma TokensAtRest(s: State)
    requires Inv(s) && s.writer.WIdle?
    ensures |s.delivered| <= |s.log| && s.sem + One(!s.reader.RIdle?) == |s.log| - |s.delivered|
  {
    hide Stored, WriterView, ReaderView, Wrap, TotalWords;
  }

  // --------------------------------------------------------------- reads that do not fit

  /** A read whose buffer is too small for the chunk at hand is refused (ENOBUFS) and gives
      its token back; the chunk stays.  Any other read goes on to copy. */
  lemma RefusedIffTooSmall(s: State)
    requires Inv(s) && s.reader.RSize?
    ensures Sane(s) && Queue(s) != []
    ensures var t := ReaderStep(s);
            && (t.reader.RRepost? <==> s.reader.room < |Queue(s)[0]|)
            && (t.reader.RCopy? <==> s.reader.room >= |Queue(s)[0]|)
            && t == s.(reader := t.reader)
    ensures s.reader.room < |Queue(s)[0]| ==>
              ReaderStep(ReaderStep(s)) == s.(reader := RIdle, sem := s.sem + 1)
  {
    hide Wrap, LoadWord, ChunkStep, Stored, WriterView, ReaderView, TotalWords;
    HeadReadable(s);
  }

  /** Two steps into a read with `room` bytes, the chunk at hand decides whether it goes on;
      if not, the third step leaves everything as it was before the read. */
  lemma ReadDecides(s: State, room: nat)
    requires Inv(s) && s.reader.RIdle? && s.sem > 0
    ensures Sane(s) && Queue(s) != []
    ensures Sane(Step(s, Read(room))) && Sane(ReaderStep(Step(s, Read(room))))
    ensures var n, t := |Queue(s)[0]|, ReaderStep(ReaderStep(Step(s, Read(room))));
            && t == s.(sem := s.sem - 1, reader := if room < n then RRepost else RCopy(n, []))
            && Sane(t) && (room < n ==> ReaderStep(t) == s)
  {
    hide Wrap, LoadWord, ChunkStep, Inv, TotalWords;
    StepKeeps(s, Read(room));
    var t := Step(s, Read(room));
    HeadReadable(t);
    StepKeeps(t, ReaderMoves);
    HeadReadable(ReaderStep(t));
    SaneOf(s);
    SaneOf(t);
    SaneOf(ReaderStep(t));
  }
}
