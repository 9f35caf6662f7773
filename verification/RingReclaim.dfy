/**
 Reclaiming chunk after chunk, on any memory: also where payload left behind looks like
 the header of a chunk.
 */
module RingReclaim {
  import opened Common
  import opened RingLayout

  /** The word that a reclaim at index p looks at. */
  predicate LooksHeaded(m: Bytes, p: nat)
    requires Area(m)
  {
    LoadWord(m, Wrap(p + 1, WordSize(m))) == MAGIC
  }

  /** Memory after a reclaim at index p: its header is cleared. */
  function Cleared(m: Bytes, p: nat): (m': Bytes)
    requires Area(m)
    ensures |m'| == |m|
  {
    StoreWord(StoreWord(m, p, 0), Wrap(p + 1, WordSize(m)), MAGIC_DEAD)
  }

  /** Clearing the header of the first chunk keeps the others. */
  lemma ReclaimImage(m: Bytes, base: nat, q: seq<Bytes>)
    requires Area(m) && q != [] && ChunksAt(m, base, q) && TotalWords(q) <= WordSize(m)
    ensures var w := WordSize(m);
            var rp := Wrap(base, w);
            && LoadWord(m, Wrap(rp + 1, w)) == MAGIC
            && ChunkStep(m, rp) == Wrap(base + ChunkWords(|q[0]|), w)
            && ChunksAt(Cleared(m, rp),
                        base + ChunkWords(|q[0]|), q[1..])
  {
    hide Wrap, Enc, Store, Holds, Cell, ChunkWords, ChunkStep, LoadWord;
    var w := WordSize(m);
    ModAdd(base, 1, w);
    LoadWordAt(m, base + 1, MAGIC);
    StepLands(m, base, |q[0]|);
    StoreWordAt(m, base, 0);
    var m1 := Store(m, 4 * base, Enc(0));
    ChunksFrame(m, 4 * base, Enc(0), base + ChunkWords(|q[0]|), q[1..]);
    StoreWordAt(m1, base + 1, MAGIC_DEAD);
    ChunksFrame(m1, 4 * base + 4, Enc(MAGIC_DEAD), base + ChunkWords(|q[0]|), q[1..]);
  }

  /** A word after another is stored. */
  lemma WordAfterStore(m: Bytes, p: nat, x: nat, q: nat)
    requires Area(m) && p < WordSize(m) && q < WordSize(m) && x < U32
    ensures LoadWord(StoreWord(m, p, x), q) == if p == q then x else LoadWord(m, q)
  {
    hide Wrap, Enc, Dec, Store, Cell;
    var m' := StoreWord(m, p, x);
    forall i | 0 <= i < 4 ensures Load(m', 4 * q, 4)[i] == if p == q then Enc(x)[i] else Load(m, 4 * q, 4)[i] {
      StoreCell(m, 4 * p, Enc(x), 4 * q + i);
    }
    if p == q {
      assert Load(m', 4 * q, 4) == Enc(x);
      EncDec(x);
    } else {
      assert Load(m', 4 * q, 4) == Load(m, 4 * q, 4);
    }
  }

  /** A word after a header is cleared. */
  lemma WordAfterClear(m: Bytes, p: nat, q: nat)
    requires Area(m) && p < WordSize(m) && q < WordSize(m)
    ensures LoadWord(Cleared(m, p), q) ==
            if q == Wrap(p + 1, WordSize(m)) then MAGIC_DEAD else if q == p then 0 else LoadWord(m, q)
  {
    hide LoadWord, StoreWord, Wrap;
    WordAfterStore(m, p, 0, q);
    WordAfterStore(StoreWord(m, p, 0), Wrap(p + 1, WordSize(m)), MAGIC_DEAD, q);
  }

  // ------------------------------------------------------------- an end to it

  /** The words that look like the magic of a header. */
  ghost function Magics(m: Bytes): (s: set<nat>)
    requires Area(m)
  {
    set p: nat | p < WordSize(m) && LoadWord(m, p) == MAGIC
  }

  /** Each reclaim leaves fewer of them. */
  lemma FewerMagics(m: Bytes, p: nat)
    requires Area(m) && p < WordSize(m) && LooksHeaded(m, p)
    ensures |Magics(Cleared(m, p))| < |Magics(m)|
  {
    hide LoadWord, Wrap, Cleared;
    var m', x := Cleared(m, p), Wrap(p + 1, WordSize(m));
    forall q | q in Magics(m') ensures q in Magics(m) - {x} {
      WordAfterClear(m, p, q);
    }
    assert x in Magics(m);
    Smaller(Magics(m'), Magics(m), x);
  }

  lemma Smaller(a: set<nat>, b: set<nat>, x: nat)
    requires a <= b - {x} && x in b
    ensures |a| < |b|
  {
    assert b == a + (b - a);
    assert x in b - a;
  }

  /** Where reclaiming from index p on stops, and the memory it leaves. */
  ghost function Drained(m: Bytes, p: nat): (r: (Bytes, nat))
    requires Area(m) && p < WordSize(m)
    ensures |r.0| == |m| && r.1 < WordSize(m)
    decreases |Magics(m)|
  {
    if !LooksHeaded(m, p) then (m, p)
    else
      FewerMagics(m, p);
      Drained(Cleared(m, p), ChunkStep(m, p))
  }

  lemma DrainStep(m: Bytes, p: nat)
    requires Area(m) && p < WordSize(m)
    ensures ChunkStep(m, p) < WordSize(m)
    ensures Drained(m, p) == if LooksHeaded(m, p) then Drained(Cleared(m, p), ChunkStep(m, p)) else (m, p)
    ensures LooksHeaded(m, p) ==> |Magics(Cleared(m, p))| < |Magics(m)|
  {
    hide Magics;
    if LooksHeaded(m, p) {
      FewerMagics(m, p);
    }
  }

  /** Over real chunks it comes to the place behind the last one. */
  lemma {:induction false} DrainedChunks(m: Bytes, base: nat, q: seq<Bytes>)
    returns (m': Bytes)
    requires Area(m) && ChunksAt(m, base, q) && TotalWords(q) <= WordSize(m)
    ensures var w := WordSize(m);
            var end := Wrap(base + TotalWords(q), w);
            && |m'| == |m| && Drained(m, Wrap(base, w)) == Drained(m', end)
            && (LooksHeaded(m', end) ==> LooksHeaded(m, end))
    decreases |q|
  {
    hide Wrap, Enc, Store, Holds, Cell, ChunkWords, ChunkStep, LoadWord, Cleared, ChunksAt;
    var w := WordSize(m);
    if q == [] {
      m' := m;
    } else {
      var p, end := Wrap(base, w), Wrap(base + TotalWords(q), w);
      ReclaimImage(m, base, q);
      Shorter(m, base, q);
      m' := DrainedChunks(Cleared(m, p), base + ChunkWords(|q[0]|), q[1..]);
      WordAfterClear(m, p, Wrap(end + 1, w));
    }
  }

  lemma Shorter(m: Bytes, base: nat, q: seq<Bytes>)
    requires Area(m) && q != [] && ChunksAt(m, base, q)
    ensures TotalWords(q) == ChunkWords(|q[0]|) + TotalWords(q[1..])
  {
  }
}
