/** The hash table, the skiplist and the trie do the same work. */
module ThreeMaps {
  import opened Common
  import opened MapTypes
  import HashTable
  import SkipLanes
  import SkipListMap
  import TrieMap

  /** `level` is the height that the skiplist's random source gives a new node. */
  datatype Op = Put(key: Key, value: Value, level: int) | Get(key: Key) | Rm(key: Key)
  datatype Answer = Done | Got(value: Option<Value>) | Removed(found: bool)

  /** What the source asks of a caller, and the range of the random source. */
  predicate Wellformed(ops: seq<Op>) {
    forall i :: 0 <= i < |ops| ==> IsKey(ops[i].key) && (ops[i].Put? ==> 0 <= ops[i].level <= SkipLanes.LEVEL_MAX)
  }

  /** What an operation does to a plain map. */
  function After(m: map<Key, Value>, op: Op): (r: map<Key, Value>) {
    match op
    case Put(k, v, _) => m[k := v]
    case Get(_) => m
    case Rm(k) => m - {k}
  }

  function Contents(ops: seq<Op>): (m: map<Key, Value>) {
    if ops == [] then map[] else After(Contents(ops[..|ops| - 1]), ops[|ops| - 1])
  }

  function AnswerTo(m: map<Key, Value>, op: Op): (a: Answer) {
    match op
    case Put(_, _, _) => Done
    case Get(k) => Got(Find(m, k))
    case Rm(k) => Removed(k in m)
  }

  /** What a plain map answers. */
  function Answers(ops: seq<Op>): (r: seq<Answer>)
    ensures |r| == |ops|
  {
    if ops == [] then [] else
      Answers(ops[..|ops| - 1]) + [AnswerTo(Contents(ops[..|ops| - 1]), ops[|ops| - 1])]
  }

  /** Only keys that are there are removed. */
  predicate RemovesPresent(ops: seq<Op>) {
    forall i :: 0 <= i < |ops| && ops[i].Rm? ==> ops[i].key in Contents(ops[..i])
  }

  /** In how many places two sequences differ. */
  function Differences(a: seq<Answer>, b: seq<Answer>): (n: nat)
    requires |a| == |b|
    ensures n == 0 <==> a == b
  {
    if a == [] then 0 else
      var x, y := a[..|a| - 1], b[..|b| - 1];
      assert a == x + [a[|a| - 1]] && b == y + [b[|b| - 1]];
      Differences(x, y) + if a[|a| - 1] == b[|b| - 1] then 0 else 1
  }

  /** Two answers differ only where one map claims a removal and the other does not. */
  predicate FalseRemovals(a: seq<Answer>, b: seq<Answer>)
    requires |a| == |b|
  {
    forall i :: 0 <= i < |a| && a[i] != b[i] ==> a[i] == Removed(true) && b[i] == Removed(false)
  }

  lemma DifferOne(a: seq<Answer>, b: seq<Answer>, x: Answer, y: Answer)
    requires |a| == |b|
    ensures Differences(a + [x], b + [y]) == Differences(a, b) + if x == y then 0 else 1
    ensures FalseRemovals(a, b) && (x != y ==> x == Removed(true) && y == Removed(false)) ==>
            FalseRemovals(a + [x], b + [y])
  {
    assert (a + [x])[..|a|] == a && (b + [y])[..|b|] == b;
  }

  /** One operation on all three maps. */
  method Perform(op: Op, h: HashTable.HashMap, s: SkipListMap.SkipList, t: TrieMap.Trie)
    returns (ha: Answer, sa: Answer, ta: Answer)
    requires Wellformed([op]) && h.Valid() && s.Valid() && t.Valid() && t.pins == multiset{}
    requires h.contents == s.contents == t.contents
    modifies h, s, t
    ensures h.Valid() && s.Valid() && t.Valid() && t.pins == multiset{}
    ensures h.contents == s.contents == t.contents == After(old(h.contents), op)
    ensures ha == sa == AnswerTo(old(h.contents), op)
    ensures t.miscounts == old(t.miscounts) + if ta == ha then 0 else 1
    ensures ta != ha ==> ta == Removed(true) && op.Rm? && op.key !in old(h.contents)
  {
    hide HashTable.HashMap.Valid, SkipListMap.SkipList.Valid, TrieMap.Trie.Valid;
    assert IsKey([op][0].key);
    match op
    case Put(k, v, l) =>
      h.Put(k, v);
      s.Put(k, v, l);
      var calls := t.Put(k, v);
      ha, sa, ta := Done, Done, Done;
    case Get(k) =>
      var x := h.Get(k);
      var y := s.Get(k);
      var z := t.Get(k);
      ha, sa, ta := Got(x), Got(y), Got(z);
    case Rm(k) =>
      var x := h.Rm(k);
      var y := s.Rm(k);
      var z, calls := t.Rm(k);
      ha, sa, ta := Removed(x), Removed(y), Removed(z);
  }

  /** After i operations the three maps hold the same, and have answered as promised. */
  ghost predicate Alike(h: HashTable.HashMap, s: SkipListMap.SkipList, t: TrieMap.Trie, ops: seq<Op>, i: nat,
                        ha: seq<Answer>, sa: seq<Answer>, ta: seq<Answer>)
    requires i <= |ops|
    reads h, s, t
  {
    && h.Valid() && s.Valid() && t.Valid() && t.pins == multiset{}
    && h.contents == s.contents == t.contents == Contents(ops[..i])
    && ha == sa == Answers(ops[..i]) && |ta| == |ha| && FalseRemovals(ta, ha)
    && t.miscounts == Differences(ta, ha) && (RemovesPresent(ops) ==> ta == ha)
  }

  method PerformNext(ops: seq<Op>, i: nat, h: HashTable.HashMap, s: SkipListMap.SkipList, t: TrieMap.Trie,
                     ha: seq<Answer>, sa: seq<Answer>, ta: seq<Answer>)
    returns (ha': seq<Answer>, sa': seq<Answer>, ta': seq<Answer>)
    requires i < |ops| && Wellformed(ops) && Alike(h, s, t, ops, i, ha, sa, ta)
    modifies h, s, t
    ensures Alike(h, s, t, ops, i + 1, ha', sa', ta')
  {
    hide HashTable.HashMap.Valid, SkipListMap.SkipList.Valid, TrieMap.Trie.Valid, Contents, Answers, RemovesPresent,
         Differences, FalseRemovals, Wellformed, After;
    Runs(ops, i);
    var a, b, c := Perform(ops[i], h, s, t);
    DifferOne(ta, ha, c, a);
    ha', sa', ta' := ha + [a], sa + [b], ta + [c];
  }

  /**
   Any run of operations on all three maps, put to the same use.  The hash table and
   the skiplist answer and count like a plain map.  The trie differs only where it
   claims to have removed a key that was not there, and counts one too few for each
   such answer; it never does so when only present keys are removed.
   */
  method Run(ops: seq<Op>, maxSize: nat)
    returns (ha: seq<Answer>, sa: seq<Answer>, ta: seq<Answer>, hc: int, sc: int, tc: int)
    requires Wellformed(ops) && maxSize < HashTable.Pow2(30)
    ensures ha == sa == Answers(ops) && hc == sc == SizeT(|Contents(ops)|)
    ensures |ta| == |ops| && FalseRemovals(ta, ha)
    ensures tc == SizeT(|Contents(ops)| - Differences(ta, ha))
    ensures RemovesPresent(ops) ==> ta == ha && tc == hc
  {
    hide HashTable.HashMap.Valid, SkipListMap.SkipList.Valid, TrieMap.Trie.Valid, Contents, Answers, RemovesPresent,
         Differences, FalseRemovals, Wellformed, After;
    var h := new HashTable.HashMap(maxSize);
    var s := new SkipListMap.SkipList();
    var t := new TrieMap.Trie();
    var i := 0;
    ha, sa, ta := [], [], [];
    NoneYet(ops);
    while i < |ops|
      invariant 0 <= i <= |ops| && Alike(h, s, t, ops, i, ha, sa, ta)
    {
      ha, sa, ta := PerformNext(ops, i, h, s, t, ha, sa, ta);
      i := i + 1;
    }
    assert ops[..i] == ops;
    hc := h.CountGet();
    sc := s.CountGet();
    tc := t.CountGet();
  }

  lemma NoneYet(ops: seq<Op>)
    ensures Contents(ops[..0]) == map[] && Answers(ops[..0]) == [] && Differences([], []) == 0 && FalseRemovals([], [])
  {
  }

  lemma Runs(ops: seq<Op>, i: nat)
    requires i < |ops|
    ensures Contents(ops[..i + 1]) == After(Contents(ops[..i]), ops[i])
    ensures Answers(ops[..i + 1]) == Answers(ops[..i]) + [AnswerTo(Contents(ops[..i]), ops[i])]
    ensures Wellformed(ops) ==> Wellformed([ops[i]])
    ensures RemovesPresent(ops) && ops[i].Rm? ==> ops[i].key in Contents(ops[..i])
  {
    assert ops[..i + 1][..i] == ops[..i];
  }
}
