/**
 A stale ring: payload that is left behind the last chunk and looks like a header, and
 what a chunk too long for the ring then does to it.
 */
module StaleRing {
  import opened Common
  import opened RingLayout
  import opened RingReclaim
  import opened OverwriteRing

  /** A header word for payload. */
  function Likeness(): (d: Bytes)
    ensures |d| == 12
  {
    Enc(MAGIC) + Enc(MAGIC) + Enc(MAGIC)
  }

  /** Words 2, 3 and 4 of a ring of six. */
  ghost predicate Left(m: Bytes, x: nat, y: nat, z: nat) {
    |m| == 24 && LoadWord(m, 2) == x && LoadWord(m, 3) == y && LoadWord(m, 4) == z
  }

  lemma SixWrap(v: nat)
    ensures Wrap(v, 6) == v % 6
  {
    WrapIsMod(v, 6);
  }

  lemma LikenessLeft(m: Bytes)
    requires |m| == 24 && Holds(m, 8, Likeness())
    ensures Left(m, MAGIC, MAGIC, MAGIC)
  {
    hide Wrap, Cell, Enc;
    var d := Likeness();
    forall q | 2 <= q < 5 ensures LoadWord(m, q) == MAGIC {
      forall i | 0 <= i < 4 ensures Cell(m, 4 * q + i) == Enc(MAGIC)[i] {
        var j := 4 * (q - 2) + i;
        assert d[j] == Enc(MAGIC)[i] && Cell(m, 8 + j) == d[j];
      }
      assert Holds(m, 4 * q, Enc(MAGIC));
      LoadWordAt(m, q, MAGIC);
      assert WordSize(m) == 6;
      SixWrap(q);
    }
  }

  /** Clearing the header at p. */
  lemma LeftCleared(m: Bytes, p: nat, x: nat, y: nat, z: nat)
    requires Left(m, x, y, z) && p < 6
    ensures p == 0 || p == 5 ==> Left(Cleared(m, p), x, y, z)
    ensures p == 2 ==> Left(Cleared(m, p), 0, MAGIC_DEAD, z)
    ensures p == 3 ==> Left(Cleared(m, p), x, 0, MAGIC_DEAD)
  {
    hide Wrap, LoadWord, Cleared;
    assert WordSize(m) == 6;
    SixWrap(p + 1);
    WordAfterClear(m, p, 2);
    WordAfterClear(m, p, 3);
    WordAfterClear(m, p, 4);
  }

  /** A chunk of one word written at word 5 takes words 5, 0 and 1. */
  lemma LeftWritten(m: Bytes, x: nat, y: nat, z: nat)
    requires Left(m, x, y, z)
    ensures Left(Written(m, 5, Enc(0)), x, y, z)
  {
    hide LoadWord, StoreWord, Wrap;
    assert WordSize(m) == 6;
    SixWrap(6);
    SixWrap(7);
    assert StoreWord(Allocated(m, 5), 1, 0) == Copied(Allocated(m, 5), 5, Enc(0)) by { Direct(Allocated(m, 5)); }
    forall q | 2 <= q < 5 ensures LoadWord(Written(m, 5, Enc(0)), q) == LoadWord(m, q) {
      WordAfterStore(m, 5, 0, q);
      WordAfterStore(StoreWord(m, 5, 0), 0, MAGIC_ALLOC, q);
      var n := Allocated(m, 5);
      WordAfterStore(n, 1, 0, q);
      WordAfterStore(StoreWord(n, 1, 0), 5, 4, q);
      WordAfterStore(StoreWord(StoreWord(n, 1, 0), 5, 4), 0, MAGIC, q);
    }
  }

  lemma Direct(m: Bytes)
    requires |m| == 24
    ensures StoreWord(m, 1, 0) == Copied(m, 5, Enc(0))
  {
    hide Store, Enc;
    SixWrap(7);
  }

  /** The steps over what looks like a header: from word 2 to 3, and from 3 to 3. */
  lemma FalseSteps(m: Bytes, p: nat)
    requires |m| == 24 && p < 6
    ensures p == 2 && LoadWord(m, p) == MAGIC ==> ChunkStep(m, p) == 3
    ensures p == 3 && LoadWord(m, p) == MAGIC_DEAD ==> ChunkStep(m, p) == 3
  {
    hide LoadWord, Wrap;
    var w := ChunkWords(LoadWord(m, p));
    SixWrap((p + w) % U32);
  }

  lemma FalseHeads(m: Bytes)
    requires Left(m, MAGIC, MAGIC, MAGIC)
    ensures Drained(m, 2).1 == 3
  {
    hide LoadWord, Cleared, ChunkStep, Wrap, Drained, Magics;
    assert WordSize(m) == 6;
    SixWrap(3);
    SixWrap(4);
    var m1 := Cleared(m, 2);
    var m2 := Cleared(m1, 3);
    LeftCleared(m, 2, MAGIC, MAGIC, MAGIC);
    LeftCleared(m1, 3, 0, MAGIC_DEAD, MAGIC);
    FalseSteps(m, 2);
    FalseSteps(m1, 3);
    DrainStep(m, 2);
    DrainStep(m1, 3);
    DrainStep(m2, 3);
  }

  /** What lies in a ring of six words that holds `d` alone, from word 0 on. */
  lemma FirstHeld(m: Bytes, d: Bytes)
    requires |m| == 24 && ChunksAt(m, 0, [d])
    ensures Holds(m, 8, d)
  {
    assert ChunkAt(m, 0, d);
  }

  lemma WordsOf(base: nat)
    ensures ChunkWords(12) == 5 && ChunkWords(4) == 3 && TotalWords([]) == 0 && TotalWords([Enc(0)]) == 3
    ensures |Enc(0)| == 4
    ensures Wrap(base, 6) == base % 6 && Wrap(base + 3, 6) == (base + 3) % 6
  {
    SixWrap(base);
    SixWrap(base + 3);
    assert [Enc(0)][1..] == [];
  }

  /** Twelve bytes of payload that look like headers are written and reclaimed; a short
      chunk then ends in front of them. */
  method MakeStale() returns (r: Ring)
    ensures fresh(r) && fresh(r.data) && r.Valid() && r.Stale() && r.words == 6
    ensures r.contents == [Enc(0)] && r.base == 5 && Left(r.data[..], MAGIC, MAGIC, MAGIC)
  {
    hide Wrap, LoadWord, ChunksAt, Cleared, Written, ChunkStep, Holds, Enc, Drained, Magics, ChunkWords, TotalWords;
    r := new Ring(11, 24);
    assert r.words == 6;
    Roomy();
    WordsOf(0);
    var a := r.Write(Likeness());
    assert r.contents == [Likeness()];
    FirstHeld(r.data[..], Likeness());
    LikenessLeft(r.data[..]);
    LeftCleared(r.data[..], 0, MAGIC, MAGIC, MAGIC);
    var b := r.Reclaim();
    WordsOf(5);
    LeftWritten(r.data[..], MAGIC, MAGIC, MAGIC);
    var c := r.Write(Enc(0));
    assert r.contents == [Enc(0)] && r.writePt == 2;
    SixWrap(3);
  }

  /** An empty ring of six words takes twelve bytes. */
  lemma Roomy()
    ensures Fits(6, [], 12) && Fits(6, [], 4) && Kept(6, [], 12) == [] && Kept(6, [], 4) == []
  {
  }

  /** A chunk too long for the ring is refused, but read_pt is carried past write_pt. */
  method OverlongOnStale(d: Bytes) returns (r: Ring, res: int)
    requires |d| >= 13
    ensures fresh(r) && res == EINVAL && r.words == 6 && r.readPt == 3 && r.writePt == 2 && !r.Valid()
  {
    hide Wrap, LoadWord, ChunksAt, Cleared, ChunkStep, Drained, Magics, Enc, ChunkWords, TotalWords;
    r := MakeStale();
    WordsOf(5);
    ghost var m := r.data[..];
    SixWrap(6);
    ReclaimImage(m, 5, r.contents);
    LeftCleared(m, 5, MAGIC, MAGIC, MAGIC);
    FalseHeads(Cleared(m, 5));
    DrainStep(m, 5);
    res := r.Write(d);
  }
}
