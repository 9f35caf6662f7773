/**
 The shared data area of a ring buffer and the chunks laid out in it.

 The area is 4 * W bytes, mapped twice in a row so that an access that runs off
 its end continues at its start: byte address `a` names cell `Wrap(a, |m|)`.  Proofs
 use *unwrapped* addresses, which only ever grow; two unwrapped addresses less
 than |m| apart name different cells, which is what every frame argument needs.
 */
module RingLayout {
  import opened Common

  type Byte = b: int | 0 <= b < 256
  type Bytes = seq<Byte>

  const HEADER_WORDS := 2
  const CHUNK_MARGIN := 12 // 4 * (HEADER_WORDS + one word for unaligned data)
  const MAGIC := 0xA1A1_A1A1
  const MAGIC_DEAD := 0xD0D0_D0D0
  const MAGIC_ALLOC := 0xA110_CED0

  /** A data area: whole words, and small enough for 32-bit chunk sizes. */
  predicate Area(m: Bytes) {
    0 < |m| && |m| % 4 == 0 && |m| <= U32
  }

  function WordSize(m: Bytes): (w: nat) {
    |m| / 4
  }

  /** The index or cell that an unwrapped index or address names: v % n, counted
      down lap by lap so that proofs stay linear (see WrapIsMod). */
  function Wrap(v: nat, n: nat): (r: nat)
    requires 0 < n
    ensures r < n
  {
    if v < n then v else Wrap(v - n, n)
  }

  /** 32-bit words are stored as four bytes. */
  function Enc(x: nat): (s: Bytes)
    requires x < U32
    ensures |s| == 4
  {
    [x % 256, x / 0x100 % 256, x / 0x1_0000 % 256, x / 0x100_0000]
  }

  function Dec(s: Bytes): (x: nat)
    requires |s| == 4
    ensures x < U32
  {
    s[0] as int + 0x100 * s[1] as int + 0x1_0000 * s[2] as int + 0x100_0000 * s[3] as int
  }

  lemma EncDec(x: nat)
    requires x < U32
    ensures Dec(Enc(x)) == x
  {
    assert x / 0x1_0000 == x / 0x100 / 0x100;
    assert x / 0x100_0000 == x / 0x1_0000 / 0x100;
  }

  function Cell(m: Bytes, a: nat): (b: Byte)
    requires Area(m)
  {
    m[Wrap(a, |m|)]
  }

  function Load(m: Bytes, a: nat, n: nat): (s: Bytes)
    requires Area(m)
    ensures |s| == n
    ensures forall i :: 0 <= i < n ==> s[i] == Cell(m, a + i)
  {
    seq<Byte>(n, i requires 0 <= i < n => Cell(m, a + i))
  }

  function LoadWord(m: Bytes, p: nat): (x: nat)
    requires Area(m)
    ensures x < U32
  {
    Dec(Load(m, 4 * p, 4))
  }

  /** Bytes `s` stored from address `a` on, wrapping at the end of the area. */
  function Store(m: Bytes, a: nat, s: Bytes): (m': Bytes)
    requires Area(m)
    ensures |m'| == |m|
    decreases |s|
  {
    if s == [] then m else Store(m[Wrap(a, |m|) := s[0]], a + 1, s[1..])
  }

  function StoreWord(m: Bytes, p: nat, x: nat): (m': Bytes)
    requires Area(m) && x < U32
    ensures |m'| == |m|
  {
    Store(m, 4 * p, Enc(x))
  }

  /** The bytes at address `a` are `s`. */
  ghost predicate Holds(m: Bytes, a: nat, s: Bytes)
    requires Area(m)
  {
    forall i :: 0 <= i < |s| ==> Cell(m, a + i) == s[i]
  }

  // ---------------------------------------------------------------- addresses

  lemma {:induction false} WrapIsMod(v: nat, n: nat)
    requires 0 < n
    ensures Wrap(v, n) == v % n
  {
    if v >= n {
      WrapIsMod(v - n, n);
      var q := (v - n) / n;
      assert v == (q + 1) * n + (v - n) % n;
      ModUnique(v, n, q + 1, (v - n) % n);
    } else {
      ModUnique(v, n, 0, v);
    }
  }

  lemma MulLap(d: int, n: nat)
    ensures d >= 1 ==> d * n >= n
    ensures d <= -1 ==> d * n <= 0 - n
  {
    if d >= 1 {
      assert d * n == (d - 1) * n + n;
    } else if d <= -1 {
      assert d * n == (d + 1) * n - n;
    }
  }

  lemma ModUnique(a: int, n: nat, q: int, r: int)
    requires n > 0 && a == q * n + r && 0 <= r < n
    ensures a % n == r
  {
    var d := a / n - q;
    assert d * n == r - a % n;
    MulLap(d, n);
  }

  /** Addresses less than one lap apart name different cells. */
  lemma {:induction false} CellsDiffer(a: nat, b: nat, n: nat)
    requires 0 < n && a < b < a + n
    ensures Wrap(a, n) != Wrap(b, n)
  {
    if a >= n {
      CellsDiffer(a - n, b - n, n);
    }
  }

  /** Word index Wrap(v, W) is byte address 4 * v: both wrap together. */
  lemma {:induction false} WordAddress(v: nat, w: nat)
    requires 0 < w
    ensures Wrap(4 * v, 4 * w) == 4 * Wrap(v, w)
  {
    if v >= w {
      WordAddress(v - w, w);
    }
  }

  /** Stepping an index around the ring, as an index and as an unwrapped one. */
  lemma {:induction false} ModAdd(v: nat, k: nat, n: nat)
    requires 0 < n
    ensures Wrap(Wrap(v, n) + k, n) == Wrap(v + k, n)
  {
    if v >= n {
      ModAdd(v - n, k, n);
    }
  }

  lemma ModShift(a: nat, b: nat, k: nat, n: nat)
    requires 0 < n && Wrap(a, n) == Wrap(b, n)
    ensures Wrap(a + k, n) == Wrap(b + k, n)
  {
    ModAdd(a, k, n);
    ModAdd(b, k, n);
  }

  // --------------------------------------------------------- loads and stores

  lemma StoreCongruent(m: Bytes, a: nat, b: nat, s: Bytes)
    requires Area(m) && Wrap(a, |m|) == Wrap(b, |m|)
    ensures Store(m, a, s) == Store(m, b, s)
    decreases |s|
  {
    if s != [] {
      ModShift(a, b, 1, |m|);
      StoreCongruent(m[Wrap(a, |m|) := s[0]], a + 1, b + 1, s[1..]);
    }
  }

  lemma LoadCongruent(m: Bytes, a: nat, b: nat, n: nat)
    requires Area(m) && Wrap(a, |m|) == Wrap(b, |m|)
    ensures Load(m, a, n) == Load(m, b, n)
  {
    var s, t := Load(m, a, n), Load(m, b, n);
    forall i | 0 <= i < n ensures s[i] == t[i] {
      ModShift(a, b, i, |m|);
    }
  }

  /** What a store does to every cell within a lap of it. */
  lemma {:induction false} StoreCell(m: Bytes, a: nat, s: Bytes, b: nat)
    requires Area(m)
    requires a + |s| <= b + |m| && b < a + |m|
    ensures Cell(Store(m, a, s), b) == if a <= b < a + |s| then s[b - a] else Cell(m, b)
    decreases |s|
  {
    if s != [] {
      var m1 := m[Wrap(a, |m|) := s[0]];
      if b < a {
        CellsDiffer(b, a, |m|);
        StoreCell(m1, a + 1, s[1..], b);
      } else if b == a {
        StoreFirst(m, a, s);
      } else {
        CellsDiffer(a, b, |m|);
        StoreCell(m1, a + 1, s[1..], b);
      }
    }
  }

  lemma {:induction false} StoreFirst(m: Bytes, a: nat, s: Bytes)
    requires Area(m) && 0 < |s| <= |m|
    ensures Cell(Store(m, a, s), a) == s[0]
  {
    var m1 := m[Wrap(a, |m|) := s[0]];
    if |s| > 1 {
      StoreOutside(m1, a + 1, s[1..], a);
    }
  }

  lemma {:induction false} StoreOutside(m: Bytes, a: nat, s: Bytes, b: nat)
    requires Area(m) && b < a && a + |s| <= b + |m|
    ensures Cell(Store(m, a, s), b) == Cell(m, b)
    decreases |s|
  {
    if s != [] {
      CellsDiffer(b, a, |m|);
      StoreOutside(m[Wrap(a, |m|) := s[0]], a + 1, s[1..], b);
    }
  }

  lemma StoreHolds(m: Bytes, a: nat, s: Bytes)
    requires Area(m) && |s| <= |m|
    ensures Holds(Store(m, a, s), a, s)
  {
    forall i | 0 <= i < |s| ensures Cell(Store(m, a, s), a + i) == s[i] {
      StoreCell(m, a, s, a + i);
    }
  }

  /** A store keeps what is held elsewhere, if both lie within one lap. */
  lemma StoreFrame(m: Bytes, a: nat, s: Bytes, b: nat, t: Bytes)
    requires Area(m) && Holds(m, b, t)
    requires b + |t| <= a <= a + |s| <= b + |m| || a + |s| <= b <= b + |t| <= a + |m|
    ensures Holds(Store(m, a, s), b, t)
  {
    forall i | 0 <= i < |t| ensures Cell(Store(m, a, s), b + i) == t[i] {
      StoreCell(m, a, s, b + i);
    }
  }

  lemma WordCongruent(m: Bytes, v: nat)
    requires Area(m)
    ensures Wrap(4 * Wrap(v, WordSize(m)), |m|) == Wrap(4 * v, |m|)
  {
    WordAddress(v, WordSize(m));
  }

  /** Storing the word at index Wrap(v, W) is storing at unwrapped address 4 * v. */
  lemma StoreWordAt(m: Bytes, v: nat, x: nat)
    requires Area(m) && x < U32
    ensures StoreWord(m, Wrap(v, WordSize(m)), x) == Store(m, 4 * v, Enc(x))
  {
    var w := WordSize(m);
    WordCongruent(m, v);
    StoreCongruent(m, 4 * Wrap(v, w), 4 * v, Enc(x));
  }

  lemma LoadWordAt(m: Bytes, v: nat, x: nat)
    requires Area(m) && x < U32 && Holds(m, 4 * v, Enc(x))
    ensures LoadWord(m, Wrap(v, WordSize(m))) == x
  {
    hide Wrap, Enc, Dec, Cell;
    var w := WordSize(m);
    WordCongruent(m, v);
    LoadCongruent(m, 4 * Wrap(v, w), 4 * v, 4);
    assert Load(m, 4 * v, 4) == Enc(x);
    EncDec(x);
  }

  /** Byte i of the data that follows the header at word index Wrap(v, W). */
  lemma DataAddress(m: Bytes, v: nat, i: nat)
    requires Area(m)
    ensures var w := WordSize(m);
            Wrap(4 * Wrap(Wrap(v, w) + HEADER_WORDS, w) + i, |m|) == Wrap(4 * v + 8 + i, |m|)
  {
    var w := WordSize(m);
    ModAdd(v, 2, w);
    WordAddress(v + 2, w);
    ModShift(4 * Wrap(v + 2, w), 4 * (v + 2), i, |m|);
  }

  // ------------------------------------------------------------------- chunks

  /** Words taken by a chunk of `len` data bytes, header included. */
  function ChunkWords(len: nat): (w: nat)
    ensures 4 * w - 11 <= len <= 4 * w - 8
  {
    HEADER_WORDS + len / 4 + if len % 4 != 0 then 1 else 0
  }

  /** lib/ringbuffer.c: idx_step. */
  function IndexStep(i: nat, w: nat): (j: nat)
    requires 0 < w
    ensures j == Wrap(i, w)
  {
    WrapIsMod(i, w); if i > w - 1 then i % w else i
  }

  /** lib/ringbuffer.c: qb_rb_chunk_step, with its 32-bit index arithmetic. */
  function ChunkStep(m: Bytes, p: nat): (q: nat)
    requires Area(m)
  {
    IndexStep((p + ChunkWords(LoadWord(m, p))) % U32, WordSize(m))
  }

  /** lib/ringbuffer.c: qb_rb_space_free, in bytes. `qlen` is what q_len_fn
      reports, and zero when there is no q_len_fn. */
  function SpaceFree(w: nat, wp: nat, rp: nat, qlen: nat): (free: nat)
    requires wp < w && rp < w
  {
    if wp > rp then 4 * ((rp - wp + w) - 1)
    else if wp < rp then 4 * ((rp - wp) - 1)
    else if qlen > 0 then 0
    else 4 * w
  }

  function TotalWords(q: seq<Bytes>): (n: nat)
    ensures q != [] ==> n >= 2
  {
    if q == [] then 0 else ChunkWords(|q[0]|) + TotalWords(q[1..])
  }

  lemma TotalWordsAppend(q: seq<Bytes>, d: Bytes)
    ensures TotalWords(q + [d]) == TotalWords(q) + ChunkWords(|d|)
  {
    if q != [] {
      assert (q + [d])[1..] == q[1..] + [d];
      TotalWordsAppend(q[1..], d);
    } else {
      assert q + [d] == [d];
    }
  }

  /** A committed chunk at unwrapped word index v: size, magic, data. */
  ghost predicate ChunkAt(m: Bytes, v: nat, d: Bytes)
    requires Area(m)
  {
    && |d| < U32
    && Holds(m, 4 * v, Enc(|d|))
    && Holds(m, 4 * v + 4, Enc(MAGIC))
    && Holds(m, 4 * v + 8, d)
  }

  /** The chunks `q` laid end to end from unwrapped word index v. */
  ghost predicate ChunksAt(m: Bytes, v: nat, q: seq<Bytes>)
    requires Area(m)
    decreases |q|
  {
    q != [] ==> ChunkAt(m, v, q[0]) && ChunksAt(m, v + ChunkWords(|q[0]|), q[1..])
  }

  lemma ChunksAppend(m: Bytes, v: nat, q: seq<Bytes>, d: Bytes)
    requires Area(m) && ChunksAt(m, v, q) && ChunkAt(m, v + TotalWords(q), d)
    ensures ChunksAt(m, v, q + [d])
    decreases |q|
  {
    if q != [] {
      assert (q + [d])[1..] == q[1..] + [d];
      ChunksAppend(m, v + ChunkWords(|q[0]|), q[1..], d);
    } else {
      assert (q + [d])[1..] == [];
    }
  }

  /** The same for the chunks behind the first. */
  lemma TailAppend(m: Bytes, v: nat, q: seq<Bytes>, d: Bytes)
    requires Area(m) && ChunkAt(m, v + TotalWords(q), d)
    requires q != [] ==> ChunksAt(m, v + ChunkWords(|q[0]|), q[1..])
    ensures var r := q + [d];
            ChunksAt(m, v + ChunkWords(|r[0]|), r[1..])
  {
    if q != [] {
      assert (q + [d])[1..] == q[1..] + [d];
      ChunksAppend(m, v + ChunkWords(|q[0]|), q[1..], d);
    } else {
      assert (q + [d])[1..] == [];
    }
  }

  lemma ChunkFrame(m: Bytes, a: nat, s: Bytes, v: nat, d: Bytes)
    requires Area(m) && ChunkAt(m, v, d)
    requires var end := 4 * (v + ChunkWords(|d|));
             end <= a <= a + |s| <= 4 * v + |m| || a + |s| <= 4 * v <= end <= a + |m|
    ensures ChunkAt(Store(m, a, s), v, d)
  {
    StoreFrame(m, a, s, 4 * v, Enc(|d|));
    StoreFrame(m, a, s, 4 * v + 4, Enc(MAGIC));
    StoreFrame(m, a, s, 4 * v + 8, d);
  }

  /** A store beside the chunks, within one lap of them, keeps them all. */
  lemma {:induction false} ChunksFrame(m: Bytes, a: nat, s: Bytes, v: nat, q: seq<Bytes>)
    requires Area(m) && ChunksAt(m, v, q)
    requires var end := 4 * (v + TotalWords(q));
             end <= a <= a + |s| <= 4 * v + |m| || a + |s| <= 4 * v <= end <= a + |m|
    ensures ChunksAt(Store(m, a, s), v, q)
    decreases |q|
  {
    if q != [] {
      ChunkFrame(m, a, s, v, q[0]);
      ChunksFrame(m, a, s, v + ChunkWords(|q[0]|), q[1..]);
    }
  }

  /** Index arithmetic never wraps at 32 bits. */
  lemma IndexFits(p: nat, k: nat, w: nat)
    requires p < w && k <= w && 4 * w <= U32
    ensures (p + k) % U32 == p + k
  {
  }

  /** Stepping over a chunk lands on the index right behind it. */
  lemma StepLands(m: Bytes, v: nat, len: nat)
    requires Area(m) && len < U32 && Holds(m, 4 * v, Enc(len))
    requires ChunkWords(len) <= WordSize(m)
    ensures ChunkStep(m, Wrap(v, WordSize(m))) == Wrap(v + ChunkWords(len), WordSize(m))
  {
    hide Wrap, Enc, LoadWord, Holds, ChunkWords;
    var w := WordSize(m);
    LoadWordAt(m, v, len);
    IndexFits(Wrap(v, w), ChunkWords(len), w);
    ModAdd(v, ChunkWords(len), w);
  }

  /**
   The free-space computation, from unwrapped indices: when `used` words of the
   ring are taken (fewer than all), what is reported is all of an empty ring and
   one word less than the rest of a non-empty one.
   */
  lemma SpaceFreeMeaning(w: nat, base: nat, used: nat, qlen: nat)
    requires 0 < w && used < w
    ensures Wrap(base + used, w) == Wrap(base, w) <==> used == 0
    ensures SpaceFree(w, Wrap(base + used, w), Wrap(base, w), qlen) ==
            if used > 0 then 4 * (w - used - 1) else if qlen > 0 then 0 else 4 * w
  {
    ModAdd(base, used, w);
    if used > 0 {
      CellsDiffer(base, base + used, w);
    }
  }
}
