/** The chained hash table, the plainest of the three maps. */
module HashTable {
  import opened Common
  import opened MapTypes
  import opened StrCmp

  const FNV_32_PRIME: nat := 0x0100_0193
  const FNV_32_BASIS: nat := 0x811c_9dc5

  datatype HashNode = HashNode(key: Key, value: Value)

  type Bucket = seq<HashNode>

  function Pow2(n: nat): (p: nat)
    ensures p > 0
  {
    if n == 0 then 1 else 2 * Pow2(n - 1)
  }

  /** Bitwise exclusive or, and bitwise and. */
  function Xor(x: nat, y: nat): (r: nat) {
    if x == 0 && y == 0 then 0 else (if x % 2 == y % 2 then 0 else 1) + 2 * Xor(x / 2, y / 2)
  }

  function And(x: nat, y: nat): (r: nat)
    ensures r <= x && r <= y
  {
    if x == 0 || y == 0 then 0 else (if x % 2 == 1 && y % 2 == 1 then 1 else 0) + 2 * And(x / 2, y / 2)
  }

  function ShiftRight(x: nat, n: nat): (r: nat) {
    if n == 0 then x else ShiftRight(x / 2, n - 1)
  }

  /** One character of the 32-bit FNV hash. */
  function Mix(h: nat, c: Ch): (r: nat) {
    Xor(h, Unsigned(c)) * FNV_32_PRIME % U32
  }

  /** The bucket number: the hash folded onto itself and masked. */
  function Fold(h: nat, order: nat): (b: nat)
    ensures b < Pow2(order)
  {
    And(Xor(ShiftRight(h, order), h), Pow2(order) - 1)
  }

  /** The hash of the first n characters. */
  function Fnv(key: Key, n: nat): (h: nat)
    requires n <= |key|
  {
    if n == 0 then FNV_32_BASIS else Mix(Fnv(key, n - 1), key[n - 1])
  }

  /** The bucket of a key. */
  function Home(key: Key, order: nat): (b: nat)
    ensures b < Pow2(order)
  {
    Fold(Fnv(key, |key|), order)
  }

  /** lib/hashtable.c: hash_fnv. */
  method HashFnv(key: Key, order: nat) returns (b: nat)
    ensures b == Home(key, order)
  {
    hide Mix, Fold;
    var h, i := FNV_32_BASIS, 0;
    while i < |key|
      invariant 0 <= i <= |key| && h == Fnv(key, i)
    {
      h := Mix(h, key[i]);
      i := i + 1;
    }
    b := Fold(h, order);
  }

  // -------------------------------------------------------------------- bits

  /** Bit i of a number, the lowest being bit 0. */
  predicate Bit(x: nat, i: nat) {
    if i == 0 then x % 2 == 1 else Bit(x / 2, i - 1)
  }

  lemma {:induction false} ZeroBit(i: nat)
    ensures !Bit(0, i)
  {
    if i > 0 {
      ZeroBit(i - 1);
    }
  }

  lemma {:induction false} XorBit(x: nat, y: nat, i: nat)
    ensures Bit(Xor(x, y), i) <==> Bit(x, i) != Bit(y, i)
    decreases i
  {
    if x == 0 && y == 0 {
      ZeroBit(i);
    } else if i > 0 {
      XorBit(x / 2, y / 2, i - 1);
      assert Xor(x, y) / 2 == Xor(x / 2, y / 2);
    }
  }

  lemma {:induction false} AndBit(x: nat, y: nat, i: nat)
    ensures Bit(And(x, y), i) <==> Bit(x, i) && Bit(y, i)
    decreases i
  {
    if x == 0 || y == 0 {
      ZeroBit(i);
    } else if i > 0 {
      AndBit(x / 2, y / 2, i - 1);
      assert And(x, y) / 2 == And(x / 2, y / 2);
    }
  }

  lemma {:induction false} ShiftBit(x: nat, n: nat, i: nat)
    ensures Bit(ShiftRight(x, n), i) == Bit(x, n + i)
    decreases n
  {
    if n > 0 {
      ShiftBit(x / 2, n - 1, i);
    }
  }

  lemma {:induction false} MaskBit(k: nat, i: nat)
    ensures Bit(Pow2(k) - 1, i) <==> i < k
    decreases k
  {
    if k == 0 {
      ZeroBit(i);
    } else if i > 0 {
      MaskBit(k - 1, i - 1);
      assert (Pow2(k) - 1) / 2 == Pow2(k - 1) - 1;
    }
  }

  /** A bucket number has the low bits of the hash, each changed by the bit that the shift brings onto it. */
  lemma FoldBits(h: nat, order: nat, i: nat)
    ensures Bit(Fold(h, order), i) <==> i < order && Bit(h, order + i) != Bit(h, i)
  {
    AndBit(Xor(ShiftRight(h, order), h), Pow2(order) - 1, i);
    XorBit(ShiftRight(h, order), h, i);
    ShiftBit(h, order, i);
    MaskBit(order, i);
  }

  lemma {:induction false} XorZero(x: nat)
    ensures Xor(x, 0) == x
  {
    if x != 0 {
      XorZero(x / 2);
    }
  }

  /** One character more: the multiplication comes behind the exclusive or. */
  lemma FnvAppended(key: Key, c: Ch)
    ensures Fnv(key + [c], |key| + 1) == Mix(Fnv(key, |key|), c)
  {
    hide Mix;
    SameHash(key, key + [c], |key|);
  }

  lemma {:induction false} SameHash(a: Key, b: Key, n: nat)
    requires n <= |a| && n <= |b| && a[..n] == b[..n]
    ensures Fnv(a, n) == Fnv(b, n)
  {
    hide Mix;
    if n > 0 {
      assert a[n - 1] == a[..n][n - 1] && b[n - 1] == b[..n][n - 1];
      assert a[..n - 1] == a[..n][..n - 1] && b[..n - 1] == b[..n][..n - 1];
      SameHash(a, b, n - 1);
    }
  }

  lemma XorOnce(x: nat, y: nat)
    requires y > 0
    ensures Xor(x, y) == (if x % 2 == y % 2 then 0 else 1) + 2 * Xor(x / 2, y / 2)
  {
  }

  lemma BasisXorA()
    ensures Xor(FNV_32_BASIS, 97) == 0x811c9da4
  {
    hide Xor;
    XorZero(0x102393b);
    XorOnce(0x2047277, 1);
    XorOnce(0x408e4ee, 3);
    XorOnce(0x811c9dc, 6);
    XorOnce(0x102393b8, 12);
    XorOnce(0x20472771, 24);
    XorOnce(0x408e4ee2, 48);
    XorOnce(0x811c9dc5, 97);
  }

  /** A number below eight by its bits. */
  lemma ThreeBits(r: nat)
    requires r < 8
    ensures r == (if Bit(r, 0) then 1 else 0) + (if Bit(r, 1) then 2 else 0) + (if Bit(r, 2) then 4 else 0)
  {
    assert Bit(r, 1) == Bit(r / 2, 0);
    assert Bit(r, 2) == Bit(r / 2, 1) == Bit(r / 2 / 2, 0);
  }

  lemma LowBits(h: nat)
    ensures Bit(h, 0) == (h % 2 == 1) && Bit(h, 1) == (h / 2 % 2 == 1) && Bit(h, 2) == (h / 2 / 2 % 2 == 1)
  {
    assert Bit(h, 1) == Bit(h / 2, 0);
    assert Bit(h, 2) == Bit(h / 2, 1) == Bit(h / 2 / 2, 0);
  }

  lemma EightBuckets()
    ensures Pow2(3) == 8
  {
    assert Pow2(1) == 2;
    assert Pow2(2) == 4;
  }

  lemma BucketOfA()
    ensures Fold(0xe40c_292c, 3) == 1
  {
    hide Xor, And, Fold, Bit, Pow2;
    var h := 0xe40c_292c;
    FoldBits(h, 3, 0);
    FoldBits(h, 3, 1);
    FoldBits(h, 3, 2);
    LowBits(h);
    LowBits(0x1c81_8525);
    assert ShiftRight(h, 3) == 0x1c81_8525 by {
      assert ShiftRight(h / 2, 2) == ShiftRight(h / 2 / 2, 1) == ShiftRight(h / 2 / 2 / 2, 0);
    }
    ShiftBit(h, 3, 0);
    ShiftBit(h, 3, 1);
    ShiftBit(h, 3, 2);
    EightBuckets();
    ThreeBits(Fold(h, 3));
  }

  /** The published 32-bit FNV-1a hashes of "" and "a", and the bucket of "a" among eight. */
  lemma KnownHashes()
    ensures Fnv([], 0) == 0x811c_9dc5
    ensures Fnv([97], 1) == 0xe40c_292c
    ensures Home([97], 3) == 1
  {
    hide Xor, Fold;
    BasisXorA();
    assert Fnv([97], 1) == Mix(Fnv([97], 0), 97);
    BucketOfA();
  }

  // ----------------------------------------------------------------- buckets

  /** What a bucket says of a key. */
  function Held(b: Bucket, key: Key): (r: Option<Value>) {
    if b == [] then None
    else if b[|b| - 1].key == key then Some(b[|b| - 1].value)
    else Held(b[..|b| - 1], key)
  }

  ghost predicate Distinct(b: Bucket) {
    forall i, j :: 0 <= i < j < |b| ==> b[i].key != b[j].key
  }

  lemma {:induction false} HeldAt(b: Bucket, i: nat)
    requires Distinct(b) && i < |b|
    ensures Held(b, b[i].key) == Some(b[i].value)
  {
    if i < |b| - 1 {
      HeldAt(b[..|b| - 1], i);
    }
  }

  lemma {:induction false} NotHeld(b: Bucket, key: Key)
    requires forall i :: 0 <= i < |b| ==> b[i].key != key
    ensures Held(b, key) == None
  {
    if b != [] {
      NotHeld(b[..|b| - 1], key);
    }
  }

  lemma Appended(b: Bucket, d: HashNode, k: Key)
    ensures Held(b + [d], k) == if k == d.key then Some(d.value) else Held(b, k)
  {
    assert (b + [d])[..|b|] == b;
  }

  /** A node is replaced by one with the same key. */
  lemma {:induction false} Replaced(b: Bucket, i: nat, d: HashNode, k: Key)
    requires Distinct(b) && i < |b| && d.key == b[i].key
    ensures Distinct(b[i := d])
    ensures Held(b[i := d], k) == if k == d.key then Some(d.value) else Held(b, k)
  {
    hide Held;
    var rest, last := b[..|b| - 1], b[|b| - 1];
    assert b == rest + [last];
    Appended(rest, last, k);
    if i < |b| - 1 {
      Replaced(rest, i, d, k);
      assert b[i := d] == rest[i := d] + [last];
      Appended(rest[i := d], last, k);
    } else {
      assert b[i := d] == rest + [d];
      Appended(rest, d, k);
    }
  }

  /** A node is taken out. */
  lemma {:induction false} Removed(b: Bucket, i: nat, k: Key)
    requires Distinct(b) && i < |b|
    ensures Distinct(b[..i] + b[i + 1..])
    ensures Held(b[..i] + b[i + 1..], k) == if k == b[i].key then None else Held(b, k)
  {
    hide Held;
    var rest, last := b[..|b| - 1], b[|b| - 1];
    assert b == rest + [last];
    Appended(rest, last, k);
    if i < |b| - 1 {
      Removed(rest, i, k);
      assert b[..i] + b[i + 1..] == (rest[..i] + rest[i + 1..]) + [last];
      Appended(rest[..i] + rest[i + 1..], last, k);
    } else {
      assert b[..i] + b[i + 1..] == rest;
      NotHeld(rest, last.key);
    }
  }

  /** The order of a table: the bits of its size, and at least 3. */
  method OrderFor(maxSize: nat) returns (order: nat)
    requires maxSize < Pow2(30)
    ensures 3 <= order <= 30 && maxSize < Pow2(order)
    ensures order == 3 || Pow2(order - 1) <= maxSize
  {
    var i, n := 0, maxSize;
    while n != 0
      invariant 0 <= i <= 30 && 0 <= n < Pow2(30 - i)
      invariant n * Pow2(i) <= maxSize < (n + 1) * Pow2(i)
      invariant n == 0 && i > 0 ==> Pow2(i - 1) <= maxSize
      decreases n
    {
      Halve(n, Pow2(i), maxSize);
      n := n / 2;
      i := i + 1;
    }
    order := i;
    if i < 3 {
      Grows(i, 3);
      order := 3;
    }
  }

  lemma Halve(n: nat, p: nat, x: nat)
    requires n > 0 && n * p <= x < (n + 1) * p
    ensures n / 2 * (2 * p) <= x < (n / 2 + 1) * (2 * p)
    ensures n / 2 == 0 ==> p <= x
  {
    var m := n / 2;
    if n == 2 * m {
      assert m * (2 * p) == n * p;
      assert (m + 1) * (2 * p) == (n + 1) * p + p;
    } else {
      assert n == 2 * m + 1;
      assert m * (2 * p) == n * p - p;
      assert (m + 1) * (2 * p) == (n + 1) * p;
    }
  }

  lemma {:induction false} Grows(i: nat, j: nat)
    requires i <= j
    ensures Pow2(i) <= Pow2(j)
    decreases j
  {
    if i < j {
      Grows(i, j - 1);
    }
  }

  /** The buckets hold the contents. */
  ghost predicate Holding(buckets: seq<Bucket>, order: nat, contents: map<Key, Value>) {
    && |buckets| == Pow2(order)
    && (forall b :: 0 <= b < |buckets| ==> Distinct(buckets[b]))
    && (forall k :: Find(contents, k) == Held(buckets[Home(k, order)], k))
  }

  lemma AtHome(buckets: seq<Bucket>, order: nat, contents: map<Key, Value>, key: Key)
    requires Holding(buckets, order, contents)
    ensures var h := Home(key, order);
            h < |buckets| && Distinct(buckets[h]) && Find(contents, key) == Held(buckets[h], key)
  {
    hide Home, Held, Pow2, Distinct;
  }

  lemma NodeGone(buckets: seq<Bucket>, order: nat, contents: map<Key, Value>, h: nat, i: nat)
    requires Holding(buckets, order, contents) && h < |buckets| && i < |buckets[h]| &&
             Home(buckets[h][i].key, order) == h
    ensures var b := buckets[h];
            Holding(buckets[h := b[..i] + b[i + 1..]], order, contents - {b[i].key})
  {
    hide Home, Held, Pow2;
    var b := buckets[h];
    var key, rest := b[i].key, b[..i] + b[i + 1..];
    Removed(b, i, key);
    forall k ensures Find(contents - {key}, k) == Held(buckets[h := rest][Home(k, order)], k) {
      Removed(b, i, k);
      assert Find(contents, k) == Held(buckets[Home(k, order)], k);
    }
  }

  class HashMap {
    var buckets: seq<Bucket>
    var order: nat
    var count: int
    ghost var contents: map<Key, Value>

    ghost predicate Valid()
      reads this
    {
      && order <= 30 && Holding(buckets, order, contents)
      && count == |contents|
    }

    /** lib/hashtable.c: qb_hashtable_create. */
    constructor (maxSize: nat)
      requires maxSize < Pow2(30)
      ensures Valid() && contents == map[]
    {
      hide Home, Fnv, Pow2;
      var o := OrderFor(maxSize);
      order, buckets := o, seq(Pow2(o), _ => []);
      count, contents := 0, map[];
    }

    /** The list loop of lookup, put and rm: where the key is in its bucket. */
    method Seek(b: Bucket, key: Key) returns (i: nat)
      ensures i <= |b| && (i < |b| ==> b[i].key == key)
      ensures forall j :: 0 <= j < i ==> b[j].key != key
    {
      i := 0;
      while i < |b|
        invariant 0 <= i <= |b| && forall j :: 0 <= j < i ==> b[j].key != key
      {
        CompareEqual(b[i].key, key);
        if Compare(b[i].key, key) == 0 {
          return;
        }
        i := i + 1;
      }
    }

    /** lib/hashtable.c: hashtable_lookup and hashtable_get. */
    method Get(key: Key) returns (r: Option<Value>)
      requires Valid()
      ensures r == Find(contents, key)
    {
      var h := HashFnv(key, order);
      var b := buckets[h];
      var i := Seek(b, key);
      if i < |b| {
        HeldAt(b, i);
        r := Some(b[i].value);
      } else {
        NotHeld(b, key);
        r := None;
      }
    }

    /** lib/hashtable.c: hashtable_count_get. */
    method CountGet() returns (n: int)
      requires Valid()
      ensures n == SizeT(|contents|)
    {
      n := SizeT(count);
    }

    /** lib/hashtable.c: hashtable_put. */
    method Put(key: Key, value: Value)
      requires Valid()
      modifies this
      ensures Valid() && contents == old(contents)[key := value]
    {
      hide Home, Fnv, Held, Pow2, Compare;
      var h := HashFnv(key, order);
      var b := buckets[h];
      var i := Seek(b, key);
      if i == |b| {
        NotHeld(b, key);
        count := count + 1;
        var d := HashNode(key, value);
        forall k { Appended(b, d, k); }
        buckets := buckets[h := b + [d]];
      } else {
        HeldAt(b, i);
        var d := b[i].(key := key, value := value);
        forall k { Replaced(b, i, d, k); }
        buckets := buckets[h := b[i := d]];
        assert contents[key := value].Keys == contents.Keys;
      }
      assert Find(contents, key) == Held(b, key);
      contents := contents[key := value];
    }

    /** lib/hashtable.c: hashtable_rm_with_hash; no iterator holds the node, so that it
        goes at once. */
    method Rm(key: Key) returns (found: bool)
      requires Valid()
      modifies this
      ensures Valid() && contents == old(contents) - {key}
      ensures found <==> key in old(contents)
    {
      hide Home, Fnv, Held, Pow2, Compare, Holding, Distinct;
      var h := HashFnv(key, order);
      AtHome(buckets, order, contents, key);
      var b := buckets[h];
      var i := Seek(b, key);
      if i == |b| {
        NotHeld(b, key);
        assert contents - {key} == contents;
        return false;
      }
      HeldAt(b, i);
      NodeGone(buckets, order, contents, h, i);
      buckets := buckets[h := b[..i] + b[i + 1..]];
      count := count - 1;
      RemoveSize(contents, key);
      contents := contents - {key};
      found := true;
    }
  }
}
