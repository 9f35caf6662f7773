/**
 One writer and one reader of a ring in normal (not overwriting) mode with its
 semaphore, interleaved at every shared access: each load or store of a header
 word, each copied byte, each index update and each semaphore operation is a
 step of its own.
 */
module RingProtocol {
  import opened Common
  import opened RingLayout

  /** Where the writer is inside qb_rb_chunk_write.  From WSize0 up to WPoint it
      owns the words it was granted; WMagic is past the write_pt update. */
  datatype Writer =
    | WIdle
    | WCheck(data: Bytes)              // qb_rb_space_free: about to read read_pt
    | WQLen(data: Bytes)               // indices were equal: about to read q_len
    | WSize0(data: Bytes)              // alloc: about to clear the size word
    | WAlloc(data: Bytes)              // alloc: about to store MAGIC_ALLOC
    | WCopy(data: Bytes, n: nat)       // memcpy: n bytes copied
    | WSize(data: Bytes)               // commit: about to store the size
    | WPoint(data: Bytes)              // commit: about to move write_pt
    | WMagic(data: Bytes, from: nat)    // commit: about to store MAGIC
    | WPost                            // commit: about to post

  /** Where the reader is inside qb_rb_chunk_read.  It holds a semaphore token
      in every state but RIdle. */
  datatype Reader =
    | RIdle
    | RMagic(room: nat)                // past the wait: about to check the magic
    | RSize(room: nat)                 // about to read the size
    | RCopy(size: nat, buf: Bytes)     // memcpy: |buf| bytes copied
    | RReclaim(buf: Bytes)             // reclaim: about to check the magic again
    | RStep(buf: Bytes)                // reclaim: about to step over the chunk
    | RClear(buf: Bytes, next: nat)    // reclaim: about to clear the size
    | RDead(buf: Bytes, next: nat)     // reclaim: about to store MAGIC_DEAD
    | RPoint(buf: Bytes, next: nat)    // reclaim: about to move read_pt
    | RRepost                          // EBADMSG or ENOBUFS: about to post back

  /**
   The shared state and both program counters.  `log`, `delivered` and `base` are
   history: every chunk committed, every chunk handed to a reader, and the
   unwrapped value of read_pt.
   */
  datatype State = State(
    mem: Bytes, wp: nat, rp: nat, sem: nat, writer: Writer, reader: Reader,
    log: seq<Bytes>, delivered: seq<Bytes>, base: nat)

  /** What happens next: a caller starts an operation, or one side takes a step. */
  datatype Action = Write(data: Bytes) | WriterMoves | Read(room: nat) | ReaderMoves

  function Init(size: nat): (s: State)
  {
    State(seq(size, _ => 0), 0, 0, 0, WIdle, RIdle, [], [], 0)
  }

  /** An action that is not enabled leaves the state as it is. */
  function Step(s: State, a: Action): (t: State)
    requires Sane(s)
  {
    match a
    case Write(d) => if s.writer.WIdle? then s.(writer := WCheck(d)) else s
    case Read(room) => // sem_timedwait; a timeout changes nothing
      if s.reader.RIdle? && s.sem > 0 then s.(sem := s.sem - 1, reader := RMagic(room)) else s
    case WriterMoves => WriterStep(s)
    case ReaderMoves => ReaderStep(s)
  }

  /** What the code needs in order to index its memory at all. */
  predicate Sane(s: State) {
    Area(s.mem) && s.wp < WordSize(s.mem) && s.rp < WordSize(s.mem)
  }

  /** lib/ringbuffer.c: qb_rb_chunk_write, one access at a time. */
  function WriterStep(s: State): (t: State)
    requires Sane(s)
  {
    var w := WordSize(s.mem);
    match s.writer
    case WIdle => s
    case WCheck(d) =>
      if s.wp == s.rp then s.(writer := WQLen(d))
      else if SpaceFree(w, s.wp, s.rp, 0) < |d| + CHUNK_MARGIN then s.(writer := WIdle) // EAGAIN
      else s.(writer := WSize0(d))
    case WQLen(d) =>
      if SpaceFree(w, 0, 0, s.sem) < |d| + CHUNK_MARGIN then s.(writer := WIdle) // EAGAIN
      else s.(writer := WSize0(d))
    case WSize0(d) => s.(mem := StoreWord(s.mem, s.wp, 0), writer := WAlloc(d))
    case WAlloc(d) => s.(mem := StoreWord(s.mem, Wrap(s.wp + 1, w), MAGIC_ALLOC), writer := WCopy(d, 0))
    case WCopy(d, n) =>
      if n < |d| then
        s.(mem := Store(s.mem, 4 * Wrap(s.wp + HEADER_WORDS, w) + n, [d[n]]), writer := WCopy(d, n + 1))
      else s.(writer := WSize(d))
    case WSize(d) => s.(mem := StoreWord(s.mem, s.wp, |d| % U32), writer := WPoint(d))
    case WPoint(d) => s.(wp := ChunkStep(s.mem, s.wp), writer := WMagic(d, s.wp))
    case WMagic(d, from) =>
      s.(mem := StoreWord(s.mem, Wrap(from + 1, w), MAGIC), writer := WPost, log := s.log + [d])
    case WPost => s.(sem := s.sem + 1, writer := WIdle)
  }

  /** lib/ringbuffer.c: qb_rb_chunk_read and _rb_chunk_reclaim, one access at a time. */
  function ReaderStep(s: State): (t: State)
    requires Sane(s)
  {
    var w := WordSize(s.mem);
    match s.reader
    case RIdle => s
    case RMagic(room) =>
      if LoadWord(s.mem, Wrap(s.rp + 1, w)) != MAGIC then s.(reader := RRepost) // EBADMSG
      else s.(reader := RSize(room))
    case RSize(room) =>
      var size := LoadWord(s.mem, s.rp);
      if room < size then s.(reader := RRepost) // ENOBUFS
      else s.(reader := RCopy(size, []))
    case RCopy(size, buf) =>
      if |buf| < size then
        s.(reader := RCopy(size, buf + [Cell(s.mem, 4 * Wrap(s.rp + HEADER_WORDS, w) + |buf|)]))
      else s.(reader := RReclaim(buf))
    case RReclaim(buf) =>
      if LoadWord(s.mem, Wrap(s.rp + 1, w)) != MAGIC then
        s.(reader := RIdle, delivered := s.delivered + [buf]) // reclaim failed, result ignored
      else s.(reader := RStep(buf))
    case RStep(buf) => s.(reader := RClear(buf, ChunkStep(s.mem, s.rp)))
    case RClear(buf, next) => s.(mem := StoreWord(s.mem, s.rp, 0), reader := RDead(buf, next))
    case RDead(buf, next) =>
      s.(mem := StoreWord(s.mem, Wrap(s.rp + 1, w), MAGIC_DEAD), reader := RPoint(buf, next))
    case RPoint(buf, next) =>
      s.(rp := next, reader := RIdle, delivered := s.delivered + [buf],
         base := s.base + ChunkWords(|buf|))
    case RRepost => s.(sem := s.sem + 1, reader := RIdle)
  }

  // ---------------------------------------------------------------- invariant

  /** The chunks committed and not yet taken out of the ring. */
  ghost function Queue(s: State): (q: seq<Bytes>)
    requires |s.delivered| <= |s.log|
  {
    s.log[|s.delivered|..]
  }

  /** Words between the unwrapped indices. */
  ghost function Used(s: State): (n: nat)
    requires |s.delivered| <= |s.log|
  {
    TotalWords(Queue(s)) + if s.writer.WMagic? then ChunkWords(|s.writer.data|) else 0
  }

  predicate Granted(p: Writer) {
    p.WSize0? || p.WAlloc? || p.WCopy? || p.WSize? || p.WPoint?
  }

  ghost function Claim(p: Writer): (n: nat) {
    if Granted(p) then ChunkWords(|p.data|) else 0
  }

  /** The indices, the history, and the gap that always stays between them. */
  ghost predicate Indices(s: State) {
    && Area(s.mem)
    && |s.delivered| <= |s.log|
    && s.delivered == s.log[..|s.delivered|]
    && s.rp == Wrap(s.base, WordSize(s.mem))
    && s.wp == Wrap(s.base + Used(s), WordSize(s.mem))
    && Used(s) + Claim(s.writer) < WordSize(s.mem)
  }

  predicate HeadIntact(p: Reader) {
    !p.RDead? && !p.RPoint?
  }

  /** Every queued chunk is in memory, the one being cleared excepted. */
  ghost predicate Stored(s: State)
    requires Indices(s)
  {
    var q := Queue(s);
    q != [] ==>
      && ChunksAt(s.mem, s.base + ChunkWords(|q[0]|), q[1..])
      && (HeadIntact(s.reader) ==> ChunkAt(s.mem, s.base, q[0]))
  }

  /** What the writer has put in place so far, at the end of the queue. */
  ghost predicate WriterView(s: State)
    requires Indices(s)
  {
    var v := s.base + TotalWords(Queue(s));
    match s.writer
    case WQLen(d) => Queue(s) == []
    case WCopy(d, n) => n <= |d| && Holds(s.mem, 4 * v + 8, d[..n])
    case WSize(d) => Holds(s.mem, 4 * v + 8, d)
    case WPoint(d) => |d| < U32 && Holds(s.mem, 4 * v, Enc(|d|)) && Holds(s.mem, 4 * v + 8, d)
    case WMagic(d, from) =>
      && from == Wrap(v, WordSize(s.mem))
      && |d| < U32 && Holds(s.mem, 4 * v, Enc(|d|)) && Holds(s.mem, 4 * v + 8, d)
    case _ => true
  }

  /** What the reader has learned so far about the head of the queue. */
  ghost predicate ReaderView(s: State)
    requires Indices(s)
  {
    var q := Queue(s);
    match s.reader
    case RCopy(size, buf) => q != [] && size == |q[0]| && buf <= q[0]
    case RReclaim(buf) => q != [] && buf == q[0]
    case RStep(buf) => q != [] && buf == q[0]
    case RClear(buf, next) => q != [] && buf == q[0] && next == Behind(s, buf)
    case RDead(buf, next) => q != [] && buf == q[0] && next == Behind(s, buf)
    case RPoint(buf, next) => q != [] && buf == q[0] && next == Behind(s, buf)
    case _ => true
  }

  ghost function Behind(s: State, buf: Bytes): (i: nat)
    requires Area(s.mem)
  {
    Wrap(s.base + ChunkWords(|buf|), WordSize(s.mem))
  }

  /** Tokens in the semaphore, in the reader's hand, or about to be posted: one
      for each queued chunk. */
  ghost predicate Tokens(s: State)
    requires Indices(s)
  {
    s.sem + (if s.reader.RIdle? then 0 else 1) + (if s.writer.WPost? then 1 else 0) == |Queue(s)|
  }

  ghost predicate Inv(s: State) {
    Indices(s) && Stored(s) && WriterView(s) && ReaderView(s) && Tokens(s)
  }

  // ------------------------------------------------------------- preservation

  /** A store into the claimed words disturbs no queued chunk and nothing the
      writer has put in place beside it. */
  lemma ClaimedStore(s: State, a: nat, x: Bytes, b: nat, y: Bytes)
    requires Indices(s) && Stored(s)
    requires Granted(s.writer) || s.writer.WMagic?
    requires var v := s.base + TotalWords(Queue(s));
             4 * v <= a && a + |x| <= 4 * v + 4 * ChunkWords(|s.writer.data|)
    requires Holds(s.mem, b, y)
    requires var v := s.base + TotalWords(Queue(s));
             4 * v <= b && b + |y| <= 4 * v + 4 * ChunkWords(|s.writer.data|)
    requires a + |x| <= b || b + |y| <= a
    ensures Stored(s.(mem := Store(s.mem, a, x)))
    ensures Holds(Store(s.mem, a, x), a, x)
    ensures Holds(Store(s.mem, a, x), b, y)
  {
    hide Wrap, Enc, Store, ChunksAt, ChunkAt, ChunkWords, Holds;
    var q := Queue(s);
    if q != [] {
      ChunksFrame(s.mem, a, x, s.base + ChunkWords(|q[0]|), q[1..]);
      if HeadIntact(s.reader) {
        ChunkFrame(s.mem, a, x, s.base, q[0]);
      }
    }
    StoreHolds(s.mem, a, x);
    StoreFrame(s.mem, a, x, b, y);
  }

  /** The indices the writer uses, as unwrapped addresses. */
  lemma WriterAddresses(s: State)
    requires Indices(s) && Granted(s.writer)
    ensures var w, v := WordSize(s.mem), s.base + TotalWords(Queue(s));
            s.wp == Wrap(v, w) && Wrap(s.wp + 1, w) == Wrap(v + 1, w)
  {
    hide Wrap, TotalWords, ChunkWords;
    ModAdd(s.base + TotalWords(Queue(s)), 1, WordSize(s.mem));
  }

  lemma WriterStoreKeeps(s: State)
    requires Inv(s)
    requires s.writer.WSize0? || s.writer.WAlloc? || s.writer.WSize?
    ensures Inv(WriterStep(s))
  {
    hide Wrap, Enc, Dec, Store, Load, LoadWord, Cell, ChunksAt, ChunkAt, TotalWords, ChunkWords, SpaceFree, ChunkStep;
    var v := s.base + TotalWords(Queue(s));
    var d := s.writer.data;
    WriterAddresses(s);
    match s.writer
    case WSize0(_) =>
      StoreWordAt(s.mem, v, 0);
      ClaimedStore(s, 4 * v, Enc(0), 4 * v + 8, []);
    case WAlloc(_) =>
      StoreWordAt(s.mem, v + 1, MAGIC_ALLOC);
      ClaimedStore(s, 4 * v + 4, Enc(MAGIC_ALLOC), 4 * v + 8, []);
    case WSize(_) =>
      StoreWordAt(s.mem, v, |d|);
      ClaimedStore(s, 4 * v, Enc(|d|), 4 * v + 8, d);
  }

  lemma HoldsExtend(m: Bytes, a: nat, d: Bytes, n: nat)
    requires Area(m) && n < |d| && Holds(m, a, d[..n]) && Holds(m, a + n, [d[n]])
    ensures Holds(m, a, d[..n + 1])
  {
    assert Cell(m, a + n + 0) == [d[n]][0];
    var s := d[..n + 1];
    forall i | 0 <= i < |s| ensures Cell(m, a + i) == s[i] {
      if i < n {
        assert s[i] == d[..n][i];
      }
    }
  }

  lemma WriterCopyKeeps(s: State)
    requires Inv(s) && s.writer.WCopy?
    ensures Inv(WriterStep(s))
  {
    hide Wrap, Enc, Dec, Store, Load, LoadWord, ChunksAt, ChunkAt, TotalWords, ChunkWords, SpaceFree, ChunkStep;
    var v := s.base + TotalWords(Queue(s));
    var WCopy(d, n) := s.writer;
    if n < |d| {
      var a := 4 * Wrap(s.wp + HEADER_WORDS, WordSize(s.mem)) + n;
      DataAddress(s.mem, v, n);
      StoreCongruent(s.mem, a, 4 * v + 8 + n, [d[n]]);
      ClaimedStore(s, 4 * v + 8 + n, [d[n]], 4 * v + 8, d[..n]);
      var t := WriterStep(s);
      HoldsExtend(t.mem, 4 * v + 8, d, n);
    } else {
      assert d[..n] == d;
    }
  }

  lemma WriterPointKeeps(s: State)
    requires Inv(s) && s.writer.WPoint?
    ensures Inv(WriterStep(s))
  {
    hide Wrap, Enc, Dec, Store, Load, LoadWord, Cell, Holds, ChunksAt, ChunkAt, TotalWords, ChunkWords, SpaceFree,
         ChunkStep;
    var v := s.base + TotalWords(Queue(s));
    StepLands(s.mem, v, |s.writer.data|);
  }

  lemma WriterMagicKeeps(s: State)
    requires Inv(s) && s.writer.WMagic?
    ensures Inv(WriterStep(s))
  {
    hide Wrap, Enc, Dec, Store, Load, LoadWord, Cell, Holds, ChunksAt, ChunkWords, SpaceFree, ChunkStep;
    var q := Queue(s);
    var v := s.base + TotalWords(q);
    var d := s.writer.data;
    var t := WriterStep(s);
    ModAdd(v, 1, WordSize(s.mem));
    StoreWordAt(s.mem, v + 1, MAGIC);
    ClaimedStore(s, 4 * v + 4, Enc(MAGIC), 4 * v, Enc(|d|));
    ClaimedStore(s, 4 * v + 4, Enc(MAGIC), 4 * v + 8, d);
    assert ChunkAt(t.mem, v, d);
    assert Queue(t) == q + [d];
    TotalWordsAppend(q, d);
    TailAppend(t.mem, s.base, q, d);
  }

  lemma WriterCheckKeeps(s: State)
    requires Inv(s) && (s.writer.WCheck? || s.writer.WQLen?)
    ensures Inv(WriterStep(s))
  {
    hide Wrap, Enc, Dec, Store, Load, LoadWord, ChunksAt, ChunkAt, ChunkStep;
    SpaceFreeMeaning(WordSize(s.mem), s.base, Used(s), 0);
  }

  lemma WriterKeeps(s: State)
    requires Inv(s)
    ensures Sane(s) && Inv(WriterStep(s))
  {
    hide Wrap, Store, StoreWord, Enc, LoadWord, ChunkStep, ChunksAt, ChunkAt, TotalWords, Holds;
    match s.writer
    case WCheck(_) => WriterCheckKeeps(s);
    case WQLen(_) => WriterCheckKeeps(s);
    case WCopy(_, _) => WriterCopyKeeps(s);
    case WPoint(_) => WriterPointKeeps(s);
    case WMagic(_, _) => WriterMagicKeeps(s);
    case WIdle =>
    case WPost =>
    case _ => WriterStoreKeeps(s);
  }

  /** A store into the head's header disturbs nothing behind it. */
  lemma HeadStore(s: State, a: nat, x: Bytes)
    requires Inv(s) && Queue(s) != []
    requires 4 * s.base <= a && a + |x| <= 4 * s.base + 8
    ensures var t := s.(mem := Store(s.mem, a, x));
            && WriterView(t)
            && ChunksAt(t.mem, s.base + ChunkWords(|Queue(s)[0]|), Queue(s)[1..])
  {
    hide Wrap, Enc, Dec, Store, Load, LoadWord, Cell, Holds, ChunksAt, ChunkAt, ChunkWords, SpaceFree, ChunkStep;
    var q := Queue(s);
    var v := s.base + TotalWords(q);
    ChunksFrame(s.mem, a, x, s.base + ChunkWords(|q[0]|), q[1..]);
    match s.writer
    case WCopy(d, n) => StoreFrame(s.mem, a, x, 4 * v + 8, d[..n]);
    case WSize(d) => StoreFrame(s.mem, a, x, 4 * v + 8, d);
    case WPoint(d) => StoreFrame(s.mem, a, x, 4 * v, Enc(|d|)); StoreFrame(s.mem, a, x, 4 * v + 8, d);
    case WMagic(d, _) => StoreFrame(s.mem, a, x, 4 * v, Enc(|d|)); StoreFrame(s.mem, a, x, 4 * v + 8, d);
    case _ =>
  }

  /** A reader holding a token finds the head of the queue, magic and all. */
  lemma HeadReadable(s: State)
    requires Inv(s) && !s.reader.RIdle? && HeadIntact(s.reader)
    ensures Sane(s) && Queue(s) != []
    ensures LoadWord(s.mem, Wrap(s.rp + 1, WordSize(s.mem))) == MAGIC
    ensures LoadWord(s.mem, s.rp) == |Queue(s)[0]|
  {
    hide Wrap, Enc, Dec, Store, Load, LoadWord, ChunksAt, TotalWords, ChunkWords;
    ModAdd(s.base, 1, WordSize(s.mem));
    LoadWordAt(s.mem, s.base, |Queue(s)[0]|);
    LoadWordAt(s.mem, s.base + 1, MAGIC);
  }

  lemma ReaderCopyKeeps(s: State)
    requires Inv(s) && s.reader.RCopy?
    ensures Inv(ReaderStep(s))
  {
    hide Wrap, Enc, Dec, Store, Load, LoadWord, ChunksAt, TotalWords, ChunkWords, ChunkStep, SpaceFree;
    var RCopy(size, buf) := s.reader;
    if |buf| < size {
      DataAddress(s.mem, s.base, |buf|);
      var d := Queue(s)[0];
      assert Cell(s.mem, 4 * s.base + 8 + |buf|) == d[|buf|];
    }
  }

  lemma ReaderClearKeeps(s: State)
    requires Inv(s) && (s.reader.RClear? || s.reader.RDead?)
    ensures Inv(ReaderStep(s))
  {
    hide Wrap, Enc, Dec, Store, Load, LoadWord, Cell, Holds, ChunksAt, ChunkAt, TotalWords, ChunkWords, SpaceFree,
         ChunkStep;
    if s.reader.RClear? {
      StoreWordAt(s.mem, s.base, 0);
      HeadStore(s, 4 * s.base, Enc(0));
    } else {
      ModAdd(s.base, 1, WordSize(s.mem));
      StoreWordAt(s.mem, s.base + 1, MAGIC_DEAD);
      HeadStore(s, 4 * s.base + 4, Enc(MAGIC_DEAD));
    }
  }

  lemma ReaderPointKeeps(s: State)
    requires Inv(s) && s.reader.RPoint?
    ensures Inv(ReaderStep(s))
  {
    hide Wrap, Enc, Dec, Store, Load, LoadWord, Cell, Holds, ChunkAt, ChunkWords, SpaceFree, ChunkStep;
    var q, t := Queue(s), ReaderStep(s);
    assert s.log == s.log[..|s.delivered|] + q;
    assert Queue(t) == q[1..];
    assert Used(t) + ChunkWords(|q[0]|) == Used(s);
    assert t.base + Used(t) == s.base + Used(s);
    assert t.base + TotalWords(Queue(t)) == s.base + TotalWords(q);
    assert s.log[..|t.delivered|] == s.log[..|s.delivered|] + [q[0]];
    assert t.delivered == t.log[..|t.delivered|];
    assert Indices(t) && Tokens(t);
    assert ChunksAt(t.mem, t.base, q[1..]);
    assert Stored(t);
    assert WriterView(t) by {
      hide Stored, ReaderView, Tokens, TotalWords, ChunksAt;
    }
  }

  lemma ReaderKeeps(s: State)
    requires Inv(s)
    ensures Sane(s) && Inv(ReaderStep(s))
  {
    hide Wrap, Enc, Dec, Store, Load, LoadWord, Cell, Holds, ChunksAt, ChunkWords, SpaceFree, ChunkStep;
    if !s.reader.RIdle? && HeadIntact(s.reader) {
      HeadReadable(s);
    }
    match s.reader
    case RCopy(_, _) => ReaderCopyKeeps(s);
    case RStep(buf) => StepLands(s.mem, s.base, |buf|);
    case RClear(_, _) => ReaderClearKeeps(s);
    case RDead(_, _) => ReaderClearKeeps(s);
    case RPoint(_, _) => ReaderPointKeeps(s);
    case _ =>
  }

  lemma StepKeeps(s: State, a: Action)
    requires Inv(s)
    ensures Sane(s) && Inv(Step(s, a))
  {
    hide WriterStep, ReaderStep, ChunksAt, ChunkAt, TotalWords;
    WriterKeeps(s);
    ReaderKeeps(s);
  }

  // -------------------------------------------------------------- every run

  /** The state after the actions `run`, from a fresh ring of `size` bytes. */
  ghost function After(size: nat, run: seq<Action>): (s: State)
    requires Area(Init(size).mem)
    ensures Inv(s)
    decreases |run|
  {
    if run == [] then Init(size)
    else
      var prev := After(size, run[..|run| - 1]);
      StepKeeps(prev, run[|run| - 1]);
      Step(prev, run[|run| - 1])
  }

  /** In every state of every run the chunks delivered are, in order and byte for
      byte, the first of the chunks committed; write_pt meets read_pt exactly when
      no committed or half-committed chunk is in the ring. */
  lemma DeliveredIsCommitted(size: nat, run: seq<Action>)
    requires Area(Init(size).mem)
    ensures var s := After(size, run);
            && s.delivered <= s.log
            && (s.wp == s.rp <==> s.delivered == s.log && !s.writer.WMagic?)
  {
    hide After, Step, Wrap, Stored, WriterView, ReaderView, Tokens, SpaceFree, ChunkWords;
    var s := After(size, run);
    assert s.delivered + Queue(s) == s.log;
    SpaceFreeMeaning(WordSize(s.mem), s.base, Used(s), 0);
  }

  /** A reader past the wait always finds the committed magic: neither EBADMSG
      nor the ignored failure of the reclaim inside a read ever happens. */
  lemma ReaderFindsMagic(size: nat, run: seq<Action>)
    requires Area(Init(size).mem)
    ensures var s := After(size, run);
            s.reader.RMagic? || s.reader.RReclaim? ==>
              LoadWord(s.mem, Wrap(s.rp + 1, WordSize(s.mem))) == MAGIC
  {
    hide After, Step, Stored, WriterView, ReaderView, Tokens, Wrap, LoadWord;
    var s := After(size, run);
    if s.reader.RMagic? || s.reader.RReclaim? {
      HeadReadable(s);
    }
  }

  /** Byte address `a` (unwrapped) belongs to a chunk that is not read yet. */
  ghost predicate Unread(s: State, a: nat)
    requires |s.delivered| <= |s.log|
  {
    4 * s.base <= a < 4 * s.base + 4 * TotalWords(Queue(s))
  }

  /** No writer step of any run changes a cell of an unread chunk. */
  lemma WriterSparesUnread(size: nat, run: seq<Action>, a: nat)
    requires Area(Init(size).mem)
    requires Unread(After(size, run), a)
    ensures var s := After(size, run);
            Cell(WriterStep(s).mem, a) == Cell(s.mem, a)
  {
    hide After, Step, WriterStep, Inv, Unread;
    WriterSpares(After(size, run), a);
  }

  lemma WriterSpares(s: State, a: nat)
    requires Inv(s) && Unread(s, a)
    ensures Cell(WriterStep(s).mem, a) == Cell(s.mem, a)
  {
    hide Wrap, Enc, Store, Cell, LoadWord, ChunkStep, ChunksAt, ChunkAt, ChunkWords, TotalWords, Holds, SpaceFree,
         Stored, ReaderView, Tokens;
    var v, w := s.base + TotalWords(Queue(s)), WordSize(s.mem);
    match s.writer
    case WSize0(d) =>
      StoreWordAt(s.mem, v, 0);
      StoreCell(s.mem, 4 * v, Enc(0), a);
    case WAlloc(d) =>
      ModAdd(v, 1, w);
      StoreWordAt(s.mem, v + 1, MAGIC_ALLOC);
      StoreCell(s.mem, 4 * v + 4, Enc(MAGIC_ALLOC), a);
    case WCopy(d, n) =>
      if n < |d| {
        DataAddress(s.mem, v, n);
        StoreCongruent(s.mem, 4 * Wrap(s.wp + HEADER_WORDS, w) + n, 4 * v + 8 + n, [d[n]]);
        StoreCell(s.mem, 4 * v + 8 + n, [d[n]], a);
      }
    case WSize(d) =>
      StoreWordAt(s.mem, v, |d|);
      StoreCell(s.mem, 4 * v, Enc(|d|), a);
    case WMagic(d, _) =>
      ModAdd(v, 1, w);
      StoreWordAt(s.mem, v + 1, MAGIC);
      StoreCell(s.mem, 4 * v + 4, Enc(MAGIC), a);
    case _ =>
  }

  /** A write is refused exactly when it would not leave the margin: an empty
      ring takes any chunk up to its size less 12 bytes, a non-empty one keeps
      one further word free. */
  lemma RefusedIffFull(size: nat, run: seq<Action>)
    requires Area(Init(size).mem)
    ensures var s := After(size, run);
            && (s.writer.WCheck? ==>
                  (WriterStep(s).writer.WIdle? <==>
                     Used(s) > 0 && 4 * (WordSize(s.mem) - Used(s) - 1) < |s.writer.data| + CHUNK_MARGIN))
            && (s.writer.WQLen? ==>
                  (WriterStep(s).writer.WIdle? <==> |s.mem| < |s.writer.data| + CHUNK_MARGIN))
  {
    hide After, Step, Stored, ReaderView, TotalWords, ChunkWords, Wrap, Store, StoreWord, LoadWord;
    var s := After(size, run);
    SpaceFreeMeaning(WordSize(s.mem), s.base, Used(s), 0);
  }
}
