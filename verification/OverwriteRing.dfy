/**
 A ring opened with QB_RB_FLAG_OVERWRITE and without a semaphore: a write that
 finds too little room first reclaims the oldest chunks.
 */
module OverwriteRing {
  import opened Common
  import opened RingLayout
  import opened RingReclaim

  // ------------------------------------------------------------ specification

  /** Free bytes as the ring reports them when it holds the chunks `q`. */
  function Room(w: nat, q: seq<Bytes>): (free: int) {
    if q == [] then 4 * w else 4 * (w - TotalWords(q) - 1)
  }

  predicate Fits(w: nat, q: seq<Bytes>, len: nat) {
    len + CHUNK_MARGIN <= Room(w, q)
  }

  predicate Suffix(r: seq<Bytes>, q: seq<Bytes>) {
    |r| <= |q| && r == q[|q| - |r|..]
  }

  /** The chunks that survive making room for `len` bytes. */
  function Kept(w: nat, q: seq<Bytes>, len: nat): (r: seq<Bytes>)
    ensures Suffix(r, q)
    ensures len + CHUNK_MARGIN <= 4 * w ==> Fits(w, r, len)
    decreases |q|
  {
    if q == [] || Fits(w, q, len) then q else Kept(w, q[1..], len)
  }

  lemma FitsLeavesGap(w: nat, q: seq<Bytes>, len: nat)
    requires Fits(w, q, len)
    ensures TotalWords(q) + ChunkWords(len) < w
  {
  }

  /** Nothing is dropped that could have stayed: every longer suffix is too big. */
  lemma {:induction false} KeptIsLongest(w: nat, q: seq<Bytes>, len: nat, i: nat)
    requires i < |q| - |Kept(w, q, len)|
    ensures !Fits(w, q[i..], len)
    decreases |q|
  {
    if i == 0 {
      assert q[0..] == q;
    } else {
      KeptIsLongest(w, q[1..], len, i - 1);
      assert q[1..][i - 1..] == q[i..];
    }
  }

  /** What a ring of `w` words holds after the writes `ds`. */
  function Holding(w: nat, ds: seq<Bytes>): (q: seq<Bytes>)
    decreases |ds|
  {
    if ds == [] then []
    else
      var d := ds[|ds| - 1];
      Kept(w, Holding(w, ds[..|ds| - 1]), |d|) + [d]
  }

  /** After any writes the ring holds the newest of them, the last one included. */
  lemma {:induction false} HoldingIsSuffix(w: nat, ds: seq<Bytes>)
    ensures var q := Holding(w, ds);
            Suffix(q, ds) && (ds != [] ==> q != [])
    decreases |ds|
  {
    hide Kept, Fits, Room, TotalWords, ChunkWords, Suffix;
    if ds != [] {
      var init, d := ds[..|ds| - 1], ds[|ds| - 1];
      HoldingIsSuffix(w, init);
      assert ds == init + [d];
      SuffixStep(init, Holding(w, init), Kept(w, Holding(w, init), |d|), d);
    } else {
      SuffixEmpty();
    }
  }

  lemma SuffixEmpty()
    ensures Suffix([], [])
  {
  }

  lemma SuffixStep(ds: seq<Bytes>, h: seq<Bytes>, k: seq<Bytes>, d: Bytes)
    requires Suffix(h, ds) && Suffix(k, h)
    ensures Suffix(k + [d], ds + [d])
  {
  }

  /** Walking `n` chunks from word index p, as a reader of the ring does. */
  function Walk(m: Bytes, p: nat, n: nat): (q: nat)
    requires Area(m)
    decreases n
  {
    if n == 0 then p else Walk(m, ChunkStep(m, p), n - 1)
  }

  lemma {:induction false} WalkLands(m: Bytes, v: nat, q: seq<Bytes>)
    requires Area(m) && ChunksAt(m, v, q) && TotalWords(q) <= WordSize(m)
    ensures Walk(m, Wrap(v, WordSize(m)), |q|) == Wrap(v + TotalWords(q), WordSize(m))
    decreases |q|
  {
    hide Wrap, Enc, Holds, Cell, ChunkWords, ChunkStep, LoadWord;
    if q != [] {
      StepLands(m, v, |q[0]|);
      WalkLands(m, v + ChunkWords(|q[0]|), q[1..]);
    }
  }

  // ------------------------------------------------- the memory after a write

  function Allocated(m: Bytes, wp: nat): (m': Bytes)
    requires Area(m)
    ensures |m'| == |m|
  {
    StoreWord(StoreWord(m, wp, 0), Wrap(wp + 1, WordSize(m)), MAGIC_ALLOC)
  }

  function Copied(m: Bytes, wp: nat, d: Bytes): (m': Bytes)
    requires Area(m)
    ensures |m'| == |m|
  {
    Store(m, 4 * Wrap(wp + HEADER_WORDS, WordSize(m)), d)
  }

  function Committed(m: Bytes, wp: nat, len: nat): (m': Bytes)
    requires Area(m) && len < U32
    ensures |m'| == |m|
  {
    StoreWord(StoreWord(m, wp, len), Wrap(wp + 1, WordSize(m)), MAGIC)
  }

  /** The three together. */
  function Written(m: Bytes, wp: nat, d: Bytes): (m': Bytes)
    requires Area(m)
    ensures |m'| == |m|
  {
    Committed(Copied(Allocated(m, wp), wp, d), wp, |d| % U32)
  }

  lemma EmptyAt(m: Bytes, p: nat)
    requires Area(m) && p < WordSize(m)
    ensures ChunksAt(m, p, []) && TotalWords([]) == 0 && Wrap(p, WordSize(m)) == p
  {
  }

  /** Stores right behind the chunks, each at its unwrapped address. */
  lemma HeaderStores(m: Bytes, v: nat, x: nat, y: nat, base: nat, q: seq<Bytes>, k: nat)
    requires Area(m) && x < U32 && y < U32
    requires ChunksAt(m, base, q) && v == base + TotalWords(q)
    requires 2 <= k && TotalWords(q) + k <= WordSize(m)
    ensures var w := WordSize(m);
            var m' := StoreWord(StoreWord(m, Wrap(v, w), x), Wrap(Wrap(v, w) + 1, w), y);
            && ChunksAt(m', base, q)
            && Holds(m', 4 * v, Enc(x)) && Holds(m', 4 * v + 4, Enc(y))
  {
    hide Wrap, Enc, Store, ChunksAt, Holds, TotalWords, Cell;
    var w := WordSize(m);
    ModAdd(v, 1, w);
    StoreWordAt(m, v, x);
    var m1 := Store(m, 4 * v, Enc(x));
    StoreWordAt(m1, v + 1, y);
    ChunksFrame(m, 4 * v, Enc(x), base, q);
    StoreHolds(m, 4 * v, Enc(x));
    ChunksFrame(m1, 4 * v + 4, Enc(y), base, q);
    StoreFrame(m1, 4 * v + 4, Enc(y), 4 * v, Enc(x));
    StoreHolds(m1, 4 * v + 4, Enc(y));
  }

  /** What a write leaves in memory: the kept chunks and the new one. */
  lemma WriteImage(m: Bytes, base: nat, q: seq<Bytes>, d: Bytes)
    requires Area(m) && ChunksAt(m, base, q)
    requires TotalWords(q) + ChunkWords(|d|) <= WordSize(m)
    ensures |d| < U32
    ensures var w := WordSize(m);
            var wp := Wrap(base + TotalWords(q), w);
            var m' := Committed(Copied(Allocated(m, wp), wp, d), wp, |d|);
            && ChunksAt(m', base, q + [d])
            && ChunkStep(StoreWord(Copied(Allocated(m, wp), wp, d), wp, |d|), wp)
               == Wrap(base + TotalWords(q + [d]), w)
            && TotalWords(q + [d]) == TotalWords(q) + ChunkWords(|d|)
  {
    hide Wrap, Enc, Store, ChunksAt, Holds, TotalWords, Cell, ChunkWords, ChunkStep, StoreWord;
    var w := WordSize(m);
    var v := base + TotalWords(q);
    var wp := Wrap(v, w);
    HeaderStores(m, v, 0, MAGIC_ALLOC, base, q, ChunkWords(|d|));
    var m1 := Allocated(m, wp);
    CopyImage(m1, v, d, base, q);
    var m2 := Copied(m1, wp, d);
    HeaderStores(m2, v, |d|, MAGIC, base, q, ChunkWords(|d|));
    CommitStep(m2, v, d);
    ChunksAppend(Committed(m2, wp, |d|), base, q, d);
    TotalWordsAppend(q, d);
  }

  lemma CopyImage(m: Bytes, v: nat, d: Bytes, base: nat, q: seq<Bytes>)
    requires Area(m) && ChunksAt(m, base, q) && v == base + TotalWords(q)
    requires TotalWords(q) + ChunkWords(|d|) <= WordSize(m)
    ensures var m' := Copied(m, Wrap(v, WordSize(m)), d);
            ChunksAt(m', base, q) && Holds(m', 4 * v + 8, d)
  {
    hide Wrap, Store, ChunksAt, Holds, TotalWords, Cell, ChunkWords;
    DataAddress(m, v, 0);
    StoreCongruent(m, 4 * Wrap(Wrap(v, WordSize(m)) + HEADER_WORDS, WordSize(m)), 4 * v + 8, d);
    ChunksFrame(m, 4 * v + 8, d, base, q);
    StoreHolds(m, 4 * v + 8, d);
  }

  lemma CommitStep(m: Bytes, v: nat, d: Bytes)
    requires Area(m) && |d| < U32 && Holds(m, 4 * v + 8, d) && ChunkWords(|d|) <= WordSize(m)
    ensures var w := WordSize(m);
            && ChunkAt(Committed(m, Wrap(v, w), |d|), v, d)
            && ChunkStep(StoreWord(m, Wrap(v, w), |d|), Wrap(v, w)) == Wrap(v + ChunkWords(|d|), w)
  {
    hide Wrap, Enc, Store, Holds, Cell, ChunkWords, ChunkStep;
    var w := WordSize(m);
    ModAdd(v, 1, w);
    StoreWordAt(m, v, |d|);
    var m1 := Store(m, 4 * v, Enc(|d|));
    StoreHolds(m, 4 * v, Enc(|d|));
    StoreFrame(m, 4 * v, Enc(|d|), 4 * v + 8, d);
    StepLands(m1, v, |d|);
    StoreWordAt(m1, v + 1, MAGIC);
    StoreHolds(m1, 4 * v + 4, Enc(MAGIC));
    StoreFrame(m1, 4 * v + 4, Enc(MAGIC), 4 * v, Enc(|d|));
    StoreFrame(m1, 4 * v + 4, Enc(MAGIC), 4 * v + 8, d);
  }

  lemma {:induction false} StoreSnoc(m: Bytes, a: nat, s: Bytes, x: Byte)
    requires Area(m)
    ensures Store(m, a, s + [x]) == Store(m, a, s)[Wrap(a + |s|, |m|) := x]
    decreases |s|
  {
    if s != [] {
      assert (s + [x])[1..] == s[1..] + [x];
      StoreSnoc(m[Wrap(a, |m|) := s[0]], a + 1, s[1..], x);
    } else {
      assert (s + [x])[1..] == [];
      assert Store(m, a, s + [x]) == Store(m[Wrap(a, |m|) := x], a + 1, []);
    }
  }

  const EINVAL := -22

  /** Room is missing: an oldest chunk is there, and has to go. */
  lemma MustDrop(w: nat, q: seq<Bytes>, len: nat)
    requires len + CHUNK_MARGIN <= 4 * w && Room(w, q) < len + CHUNK_MARGIN
    ensures q != [] && Kept(w, q, len) == Kept(w, q[1..], len)
  {
  }

  lemma MayStay(w: nat, q: seq<Bytes>, len: nat)
    requires Room(w, q) >= len + CHUNK_MARGIN
    ensures Fits(w, q, len) && Kept(w, q, len) == q
  {
  }

  lemma FitsAtAll(w: nat, q: seq<Bytes>, len: nat)
    ensures Fits(w, q, len) ==> len + CHUNK_MARGIN <= 4 * w && len + CHUNK_MARGIN <= Room(w, q)
  {
  }

  /** A ring whose last chunk has no likeness of a header behind it is drained exactly. */
  lemma CleanDrain(m: Bytes, base: nat, q: seq<Bytes>)
    requires Area(m) && ChunksAt(m, base, q) && TotalWords(q) <= WordSize(m)
    ensures var w := WordSize(m);
            var end := Wrap(base + TotalWords(q), w);
            !LooksHeaded(m, end) ==> Drained(m, Wrap(base, w)).1 == end
  {
    hide Wrap, LooksHeaded, ChunksAt, TotalWords;
    var m' := DrainedChunks(m, base, q);
  }

  // ---------------------------------------------------------------- the ring

  class Ring {
    const words: nat
    const data: array<Byte>
    var writePt: nat
    var readPt: nat
    ghost var base: nat             // unwrapped readPt
    ghost var contents: seq<Bytes>  // the chunks in the ring, oldest first

    ghost predicate Valid()
      reads this, data
      ensures Valid() ==> Sane()
    {
      && Area(data[..]) && words == WordSize(data[..])
      && TotalWords(contents) < words
      && ChunksAt(data[..], base, contents)
      && readPt == Wrap(base, words)
      && writePt == Wrap(base + TotalWords(contents), words)
    }

    /** lib/ringbuffer.c: the sizing in qb_rb_open_2.  A ring opened for `size`
        bytes takes any chunk of up to `size` bytes when it is empty. */
    constructor (size: nat, page: nat)
      requires page > 0 && page % 4 == 0
      requires size + CHUNK_MARGIN + page <= U32
      ensures Valid() && fresh(data) && contents == [] && base == 0
      ensures size + CHUNK_MARGIN < 4 * words && data.Length == (size + CHUNK_MARGIN + page) / page * page
    {
      var size' := size + CHUNK_MARGIN + 1;
      var pages := (size' + (page - 1)) / page;
      PagesCover(size', page);
      data := new Byte[pages * page](_ => 0);
      words := (pages * page) / 4;
      writePt, readPt := 0, 0;
      base, contents := 0, [];
    }

    /** The indices are indices, whatever lies in memory. */
    ghost predicate Sane()
      reads this, data
    {
      Area(data[..]) && words == WordSize(data[..]) && readPt < words && writePt < words
    }

    method SpaceFree() returns (n: nat)
      requires Sane()
      ensures n <= 4 * words
      ensures Valid() ==> n == Room(words, contents)
    {
      if Valid() {
        SpaceFreeMeaning(words, base, TotalWords(contents), 0);
      }
      if writePt > readPt {
        n := readPt + words - writePt - 1;
      } else if writePt < readPt {
        n := readPt - writePt - 1;
      } else {
        n := words;
      }
      n := n * 4;
    }

    method PutWord(p: nat, x: nat)
      requires Area(data[..]) && p < WordSize(data[..]) && x < U32
      modifies data
      ensures data[..] == StoreWord(old(data[..]), p, x)
    {
      Copy(4 * p, Enc(x));
    }

    /** memcpy into the doubly mapped area. */
    method Copy(a: nat, s: Bytes)
      requires Area(data[..])
      modifies data
      ensures data[..] == Store(old(data[..]), a, s)
    {
      var i := 0;
      while i < |s|
        invariant i <= |s|
        invariant data[..] == Store(old(data[..]), a, s[..i])
      {
        StoreSnoc(old(data[..]), a, s[..i], s[i]);
        assert s[..i + 1] == s[..i] + [s[i]];
        data[Wrap(a + i, data.Length)] := s[i];
        i := i + 1;
      }
      assert s[..i] == s;
    }

    /** What lies behind the last chunk looks like a header: the payload of a chunk that
        was dropped can. */
    ghost predicate Stale()
      requires Valid()
      reads this, data
    {
      LooksHeaded(data[..], writePt)
    }

    /**
     lib/ringbuffer.c: _rb_chunk_reclaim.  On a non-empty ring it drops the oldest chunk
     and nothing else.  An empty ring is refused, unless what lies there looks like a
     header: then that is cleared and stepped over as a chunk would be.
     */
    method Reclaim() returns (rc: int)
      requires Sane()
      modifies this`readPt, this`base, this`contents, data
      ensures Sane() && (rc == 0 <==> old(LooksHeaded(data[..], readPt)))
      ensures rc == 0 ==> data[..] == old(Cleared(data[..], readPt)) && readPt == old(ChunkStep(data[..], readPt))
      ensures rc != 0 ==> rc == EINVAL && data[..] == old(data[..]) && readPt == old(readPt)
      ensures rc != 0 ==> base == old(base) && contents == old(contents)
      ensures old(Valid()) && old(contents) != [] ==> rc == 0 && Valid() && contents == old(contents)[1..]
      ensures old(Valid()) && old(contents) != [] ==> base == old(base + ChunkWords(|contents[0]|))
    {
      hide ChunksAt, Wrap, Store, StoreWord, LoadWord, ChunkStep, ChunkWords, Drained, Magics;
      DrainStep(data[..], readPt);
      ghost var held := Valid() && contents != [];
      if held {
        ReclaimImage(data[..], base, contents);
      }
      var magicAt := Wrap(readPt + 1, words);
      if LoadWord(data[..], magicAt) != MAGIC {
        return EINVAL;
      }
      var next := ChunkStep(data[..], readPt);
      PutWord(readPt, 0);
      PutWord(magicAt, MAGIC_DEAD);
      readPt := next;
      if held {
        base, contents := base + ChunkWords(|contents[0]|), contents[1..];
      }
      rc := 0;
    }

    /**
     lib/ringbuffer.c: the reclaim loop of qb_rb_chunk_alloc.  It ends on every memory.  A
     length that even the empty ring has no room for is refused, once everything that is a
     chunk or looks like one is reclaimed.
     */
    method MakeRoom(len: nat) returns (ok: bool)
      requires Valid()
      modifies this`readPt, this`base, this`contents, data
      ensures Sane() && (ok <==> len + CHUNK_MARGIN <= 4 * words)
      ensures ok ==> Valid() && contents == Kept(words, old(contents), len) && Fits(words, contents, len)
      ensures Fits(words, old(contents), len) ==>
                readPt == old(readPt) && base == old(base) && data[..] == old(data[..])
      ensures !ok ==> (data[..], readPt) == old(Drained(data[..], readPt))
    {
      hide ChunksAt, Wrap, TotalWords, LoadWord, Cleared, ChunkStep, ChunkWords, LooksHeaded, Drained, Magics, Kept,
           Fits, Room, Valid;
      var free := SpaceFree();
      FitsAtAll(words, contents, len);
      ghost var fits := len + CHUNK_MARGIN <= 4 * words;
      while free < len + CHUNK_MARGIN
        invariant Sane() && free <= 4 * words
        invariant fits ==> Valid() && free == Room(words, contents)
        invariant fits ==> Kept(words, contents, len) == Kept(words, old(contents), len)
        invariant !fits ==> Drained(data[..], readPt) == old(Drained(data[..], readPt))
        invariant Fits(words, old(contents), len) ==>
                    readPt == old(readPt) && base == old(base) && contents == old(contents) && data[..] == old(data[..])
        decreases |Magics(data[..])|
      {
        DrainStep(data[..], readPt);
        if fits {
          MustDrop(words, contents, len);
        }
        var rc := Reclaim();
        if rc != 0 {
          return false;
        }
        free := SpaceFree();
      }
      MayStay(words, contents, len);
      ok := true;
    }

    /**
     lib/ringbuffer.c: qb_rb_chunk_write.  A chunk that an empty ring has room for, which
     is any of at most the size given to open, is accepted, and exactly the oldest chunks
     that leave too little room are gone.  A longer one is refused.  It leaves an empty ring
     if and only if reclaiming stops at write_pt, and so on every ring that is not stale.
     */
    method Write(d: Bytes) returns (res: int)
      requires Valid()
      modifies this, data
      ensures Sane() && res == if |d| + CHUNK_MARGIN <= 4 * words then |d| else EINVAL
      ensures |d| + CHUNK_MARGIN <= 4 * words ==> Valid() && contents == Kept(words, old(contents), |d|) + [d]
      ensures |d| + CHUNK_MARGIN > 4 * words ==>
                && (data[..], readPt) == old(Drained(data[..], readPt)) && writePt == old(writePt) && contents == []
                && (Valid() <==> readPt == writePt) && (!old(Stale()) ==> Valid())
      ensures Fits(words, old(contents), |d|) ==>
                readPt == old(readPt) && base == old(base) && data[..] == Written(old(data[..]), old(writePt), d)
    {
      hide ChunksAt, Wrap, Store, TotalWords, ChunkStep, ChunkWords, Kept, LoadWord, LooksHeaded, Cleared, Drained,
           Magics, Written;
      CleanDrain(data[..], base, contents);
      FitsAtAll(words, contents, |d|);
      hide Fits, Room;
      var ok := MakeRoom(|d|);
      if !ok {
        base, contents := readPt, [];
        EmptyAt(data[..], readPt);
        return EINVAL;
      }
      res := Append(d);
    }

    /** lib/ringbuffer.c: qb_rb_chunk_write from the allocation on. */
    method Append(d: Bytes) returns (res: int)
      requires Valid() && Fits(words, contents, |d|)
      modifies this`writePt, this`contents, data
      ensures Valid() && res == |d| && contents == old(contents) + [d]
      ensures data[..] == Written(old(data[..]), old(writePt), d)
    {
      hide ChunksAt, Wrap, Store, StoreWord, TotalWords, ChunkStep, ChunkWords;
      FitsLeavesGap(words, contents, |d|);
      WriteImage(data[..], base, contents, d);
      PutWord(writePt, 0);
      PutWord(Wrap(writePt + 1, words), MAGIC_ALLOC);
      // memcpy
      Copy(4 * Wrap(writePt + HEADER_WORDS, words), d);
      Commit(|d|);
      contents := contents + [d];
      res := |d|;
    }

    /** lib/ringbuffer.c: qb_rb_chunk_commit. */
    method Commit(len: nat)
      requires Area(data[..]) && words == WordSize(data[..]) && writePt < words && len < U32
      modifies this`writePt, data
      ensures data[..] == Committed(old(data[..]), old(writePt), len)
      ensures writePt == ChunkStep(StoreWord(old(data[..]), old(writePt), len), old(writePt))
    {
      hide Wrap, Store, StoreWord, ChunkStep;
      var oldWritePt := writePt;
      PutWord(oldWritePt, len);
      writePt := ChunkStep(data[..], oldWritePt);
      PutWord(Wrap(oldWritePt + 1, words), MAGIC);
    }

    /** Any sequence of writes, each no longer than the size given to open. */
    method WriteAll(ds: seq<Bytes>)
      requires Valid() && contents == []
      requires forall i :: 0 <= i < |ds| ==> |ds[i]| + CHUNK_MARGIN <= 4 * words
      modifies this, data
      ensures Valid() && contents == Holding(words, ds)
      ensures Walk(data[..], readPt, |contents|) == writePt
    {
      hide ChunksAt, Wrap, Store, StoreWord, TotalWords, ChunkStep, ChunkWords, Kept;
      assert ds[..0] == [];
      for n := 0 to |ds|
        invariant Valid() && contents == Holding(words, ds[..n])
      {
        assert ds[..n + 1][..n] == ds[..n];
        var res := Write(ds[n]);
      }
      assert ds[..|ds|] == ds;
      WalkLands(data[..], base, contents);
    }
  }

  /** Rounding up to whole pages covers the size and stays whole words. */
  lemma PagesCover(size: nat, page: nat)
    requires page > 0 && page % 4 == 0
    ensures var realSize := (size + (page - 1)) / page * page;
            size <= realSize < size + page && realSize % 4 == 0
  {
    var n := (size + (page - 1)) / page;
    assert size + (page - 1) == n * page + (size + (page - 1)) % page;
    var k := page / 4;
    assert n * page == 4 * (n * k) by {
      assert page == 4 * k;
    }
  }
}
