/**
 Walking the trie in key order: trie_node_next goes to the next node of a
 preorder walk, and the iterator built on it visits the live keys one by one.
 */
module TrieIter {
  import opened Common
  import opened MapTypes
  import opened TrieNodes
  import opened TrieNotify
  import opened TrieMap
  import opened KeyOrder

  // ------------------------------------------------------- preorder and key order

  /** A node under `c` lies under the child of `c` in its direction. */
  lemma {:induction false} Descend(ns: Nodes, path: map<Ptr, Key>, c: Ptr, m: Ptr)
    requires Links(ns, path) && c in ns && m in ns && path[c] < path[m]
    ensures var x := Child(ns[c], Index(path[m][|path[c]|]));
            x in ns && path[x] <= path[m]
    decreases |path[m]|
  {
    hide Walk;
    assert m != HEADER && UpLink(ns, path, m);
    var d := ns[m];
    var p := d.parent;
    assert path[p] < path[m];
    if |path[p]| < |path[c]| {
      var s := |path[c]| - |path[p]| - 1;
      assert path[c] == Spelled(ns, path, m, s);
      WalkComplete(ns, path, m, s);
      WalkToNode(ns, path, c);
      assert false; // c would be m
    } else if |path[p]| == |path[c]| {
      assert path[p] == path[m][..|path[p]|] == path[c];
      PathsDiffer(ns, path, p, c);
      assert path[m][|path[c]|] == Char(d.idx);
    } else {
      assert path[c] == path[m][..|path[c]|] == path[p][..|path[c]|];
      Descend(ns, path, c, p);
    }
  }

  /** A child's path goes on with the character of its slot. */
  lemma ChildStarts(ns: Nodes, path: map<Ptr, Key>, c: Ptr, i: nat)
    requires Links(ns, path) && c in ns && Child(ns[c], i) != NULL
    ensures var f := Child(ns[c], i);
            && i < 256 && f in ns && f != HEADER && ns[f].parent == c && ns[f].idx == i
            && path[f] == path[c] + [Char(i)] + ns[f].segment
  {
    assert DownLink(ns, c, i);
    assert UpLink(ns, path, Child(ns[c], i));
  }

  /** Nothing lies between a node and its child in the highest slot. */
  lemma ChildIsNext(ns: Nodes, path: map<Ptr, Key>, c: Ptr, i: nat, m: Ptr)
    requires Links(ns, path) && c in ns && Child(ns[c], i) != NULL
    requires forall j: nat :: j > i ==> Child(ns[c], j) == NULL
    requires m in ns && Less(path[c], path[m])
    ensures var f := Child(ns[c], i);
            f in ns && Less(path[c], path[f]) && (m == f || Less(path[f], path[m]))
  {
    hide Less, UpLink, DownLink, Char;
    ChildStarts(ns, path, c, i);
    var f := Child(ns[c], i);
    PrefixLess(path[c], path[f]);
    if path[c] <= path[m] {
      LessProper(path[c], path[m]);
      Descend(ns, path, c, m);
      Directions(ns, path, c, i, m);
    } else {
      BeyondAll(path[c], path[f], path[m]);
    }
  }

  /** Under `c`, the child in slot i comes before all in lower slots. */
  lemma Directions(ns: Nodes, path: map<Ptr, Key>, c: Ptr, i: nat, m: Ptr)
    requires Links(ns, path) && c in ns && Child(ns[c], i) != NULL
    requires m in ns && path[c] < path[m] && Index(path[m][|path[c]|]) <= i
    ensures var f := Child(ns[c], i);
            f in ns && (m == f || Less(path[f], path[m]))
  {
    ChildStarts(ns, path, c, i);
    var f := Child(ns[c], i);
    Descend(ns, path, c, m);
    var ch := path[m][|path[c]|];
    assert Char(Index(ch)) == ch;
    if Index(ch) == i {
      if path[f] == path[m] {
        PathsDiffer(ns, path, f, m);
      } else {
        PrefixLess(path[f], path[m]);
      }
    } else {
      assert path[m] == path[c] + [ch] + path[m][|path[c]| + 1..];
      PartLess(path[c], Char(i), ns[f].segment, ch, path[m][|path[c]| + 1..]);
    }
  }

  /** The next sibling of `p` comes next after all that lies under `p`. */
  lemma SiblingIsNext(ns: Nodes, path: map<Ptr, Key>, c: Ptr, p: Ptr, i: nat, m: Ptr)
    requires Links(ns, path) && c in ns && p in ns && p != HEADER && path[p] <= path[c]
    requires UpLink(ns, path, p) && i < ns[p].idx && Child(ns[ns[p].parent], i) != NULL
    requires forall j: nat :: i < j < ns[p].idx ==> Child(ns[ns[p].parent], j) == NULL
    requires m in ns && Less(path[c], path[m]) && !(path[p] <= path[m])
    ensures var n := Child(ns[ns[p].parent], i);
            n in ns && (m == n || Less(path[n], path[m]))
  {
    hide Less, DownLink, Char;
    var q := ns[p].parent;
    ChildStarts(ns, path, q, i);
    var n := Child(ns[q], i);
    if path[q] <= path[m] {
      Aside(ns, path, c, p, m);
      Descend(ns, path, q, m);
      Directions(ns, path, q, i, m);
    } else {
      assert path[q] <= path[c];
      BeyondAll(path[q], path[c], path[m]);
      BeyondAll(path[q], path[n], path[m]);
    }
  }

  /** A node under the parent of `p`, beyond `c` and not under `p`, lies in a lower slot. */
  lemma Aside(ns: Nodes, path: map<Ptr, Key>, c: Ptr, p: Ptr, m: Ptr)
    requires Links(ns, path) && c in ns && p in ns && p != HEADER && path[p] <= path[c]
    requires UpLink(ns, path, p)
    requires m in ns && Less(path[c], path[m]) && !(path[p] <= path[m])
    requires path[ns[p].parent] <= path[m]
    ensures var q := ns[p].parent;
            path[q] < path[m] && Index(path[m][|path[q]|]) < ns[p].idx
  {
    hide Less, DownLink;
    var q := ns[p].parent;
    var l := |path[q]|;
    assert path[q] < path[p];
    if path[q] == path[m] {
      PrefixLess(path[m], path[c]);
      NotBoth(path[m], path[c]);
    }
    var a, b := path[c][l], path[m][l];
    assert a == path[p][l] == Char(ns[p].idx);
    assert path[c] == path[q] + [a] + path[c][l + 1..];
    assert path[m] == path[q] + [b] + path[m][l + 1..];
    Descend(ns, path, q, m);
    assert Child(ns[q], Index(a)) == p; // so b == a would put m under p
    PartLess(path[q], a, path[c][l + 1..], b, path[m][l + 1..]);
  }

  lemma SiblingBeyond(ns: Nodes, path: map<Ptr, Key>, c: Ptr, p: Ptr, i: nat)
    requires Links(ns, path) && c in ns && p in ns && p != HEADER && path[p] <= path[c]
    requires UpLink(ns, path, p) && i < ns[p].idx && Child(ns[ns[p].parent], i) != NULL
    ensures Child(ns[ns[p].parent], i) in ns && Less(path[c], path[Child(ns[ns[p].parent], i)])
  {
    hide Less;
    var q := ns[p].parent;
    ChildStarts(ns, path, q, i);
    var n := Child(ns[q], i);
    var l := |path[q]|;
    assert path[c][l] == path[p][l] == Char(ns[p].idx);
    assert path[c] == path[q] + [path[c][l]] + path[c][l + 1..];
    PartLess(path[q], path[c][l], path[c][l + 1..], Char(i), ns[n].segment);
  }

  // ---------------------------------------------------------------- the walk

  /** The key of `n` if a live one: the predicate trie_node_alive. */
  predicate Alive(ns: Nodes, n: Ptr) {
    n in ns && ns[n].value.Some? && ns[n].refcount > 0
  }

  /** Live nodes under `root` beyond key `k`. */
  ghost predicate Ahead(ns: Nodes, path: map<Ptr, Key>, root: Ptr, k: Key, m: Ptr)
    requires path.Keys == ns.Keys && root in ns
  {
    m in ns && Alive(ns, m) && path[root] <= path[m] && Less(k, path[m])
  }

  /** Nodes beyond `c`, to count down the walk. */
  ghost function Beyond(ns: Nodes, path: map<Ptr, Key>, c: Ptr): (s: set<Ptr>)
    requires path.Keys == ns.Keys && c in ns
  {
    set m | m in ns && Less(path[c], path[m])
  }

  lemma BeyondShrinks(ns: Nodes, path: map<Ptr, Key>, c: Ptr, n: Ptr)
    requires path.Keys == ns.Keys && c in ns && n in ns && Less(path[c], path[n])
    ensures Beyond(ns, path, n) < Beyond(ns, path, c)
  {
    hide Less;
    forall m | m in Beyond(ns, path, n) ensures m in Beyond(ns, path, c) {
      LessTransitive(path[c], path[n], path[m]);
    }
    LessIrreflexive(path[n]);
    assert n in Beyond(ns, path, c) && n !in Beyond(ns, path, n);
  }

  /** lib/trie.c: the slot searches of trie_node_next. */
  method LastChildBelow(d: Node, hi: nat) returns (n: Ptr, ghost slot: nat)
    requires hi <= |d.children|
    ensures forall j: nat :: slot < j < hi ==> Child(d, j) == NULL
    ensures n == NULL <==> forall j: nat :: j < hi ==> Child(d, j) == NULL
    ensures n != NULL ==> slot < hi && Child(d, slot) == n
  {
    var i := hi;
    slot := 0;
    while i > 0
      invariant 0 <= i <= hi && forall j: nat :: i <= j < hi ==> Child(d, j) == NULL
    {
      i := i - 1;
      if d.children[i] != NULL {
        assert Child(d, i) != NULL;
        return d.children[i], i;
      }
    }
    return NULL, 0;
  }

  /** The next node of any kind: a child if there is one, else the nearest
      sibling on the way up to `root`. */
  method Successor(ns: Nodes, ghost path: map<Ptr, Key>, c: Ptr, root: Ptr) returns (n: Ptr)
    requires Links(ns, path) && c in ns && root in ns && path[root] <= path[c]
    ensures n != NULL ==> n in ns && Less(path[c], path[n]) && path[root] <= path[n]
    ensures n != NULL ==>
              forall m :: m in ns && path[root] <= path[m] && Less(path[c], path[m]) ==>
                m == n || Less(path[n], path[m])
    ensures n == NULL ==> forall m :: m in ns && path[root] <= path[m] ==> !Less(path[c], path[m])
  {
    hide Less, UpLink, DownLink;
    ghost var slot;
    n, slot := LastChildBelow(ns[c], |ns[c].children|);
    if n != NULL {
      ChildStarts(ns, path, c, slot);
      PrefixLess(path[c], path[n]);
      forall m | m in ns && path[root] <= path[m] && Less(path[c], path[m])
        ensures m == n || Less(path[n], path[m])
      {
        ChildIsNext(ns, path, c, slot, m);
      }
      return;
    }
    NothingUnder(ns, path, c);
    if c == root {
      return;
    }
    n := Climb(ns, path, c, root);
  }

  lemma NothingUnder(ns: Nodes, path: map<Ptr, Key>, c: Ptr)
    requires Links(ns, path) && c in ns && forall j: nat :: Child(ns[c], j) == NULL
    ensures forall m :: m in ns && Less(path[c], path[m]) ==> !(path[c] <= path[m])
  {
    hide Less, UpLink, DownLink;
    forall m | m in ns && path[c] <= path[m] ensures !Less(path[c], path[m]) {
      if path[c] == path[m] {
        LessIrreflexive(path[c]);
      } else {
        Descend(ns, path, c, m);
      }
    }
  }

  method Climb(ns: Nodes, ghost path: map<Ptr, Key>, c: Ptr, root: Ptr) returns (n: Ptr)
    requires Links(ns, path) && c in ns && root in ns && path[root] <= path[c] && c != root
    requires forall m :: m in ns && Less(path[c], path[m]) ==> !(path[c] <= path[m])
    ensures n != NULL ==> n in ns && Less(path[c], path[n]) && path[root] <= path[n]
    ensures n != NULL ==>
              forall m :: m in ns && path[root] <= path[m] && Less(path[c], path[m]) ==>
                m == n || Less(path[n], path[m])
    ensures n == NULL ==> forall m :: m in ns && path[root] <= path[m] ==> !Less(path[c], path[m])
  {
    hide Less, DownLink;
    var p := c;
    n := NULL;
    while p != root
      invariant n == NULL && p in ns && path[p] <= path[c] && path[root] <= path[p]
      invariant forall m :: m in ns && Less(path[c], path[m]) ==> !(path[p] <= path[m])
      decreases |path[p]|
    {
      StrictlyUnder(ns, path, p, root);
      var q := ns[p].parent;
      ghost var slot;
      n, slot := LastChildBelow(ns[q], ns[p].idx);
      if n != NULL {
        SiblingBeyond(ns, path, c, p, slot);
        ChildStarts(ns, path, q, slot);
        forall m | m in ns && path[root] <= path[m] && Less(path[c], path[m])
          ensures m == n || Less(path[n], path[m])
        {
          SiblingIsNext(ns, path, c, p, slot, m);
        }
        return;
      }
      forall m | m in ns && Less(path[c], path[m]) ensures !(path[q] <= path[m]) {
        if path[q] <= path[m] {
          Aside(ns, path, c, p, m);
          Descend(ns, path, q, m);
        }
      }
      p := q;
    }
  }

  lemma StrictlyUnder(ns: Nodes, path: map<Ptr, Key>, p: Ptr, root: Ptr)
    requires Links(ns, path) && p in ns && root in ns && p != root && path[root] <= path[p]
    ensures p != HEADER && UpLink(ns, path, p) && ns[p].idx < |ns[ns[p].parent].children|
    ensures path[root] <= path[ns[p].parent] && path[ns[p].parent] < path[p]
  {
    if path[p] == path[root] {
      PathsDiffer(ns, path, p, root);
    }
    assert UpLink(ns, path, p);
    var q := ns[p].parent;
    assert Child(ns[q], ns[p].idx) == p;
    Descend(ns, path, root, p);
    if |path[q]| < |path[root]| {
      var s := |path[root]| - |path[q]| - 1;
      assert path[root] == Spelled(ns, path, p, s);
      WalkComplete(ns, path, p, s);
      WalkToNode(ns, path, root);
      assert false; // root would be p
    }
    assert path[root] == path[p][..|path[root]|] == path[q][..|path[root]|];
  }

  /** lib/trie.c: trie_node_next, skipping nodes that are not alive. */
  method NodeNext(ns: Nodes, ghost path: map<Ptr, Key>, node: Ptr, root: Ptr) returns (n: Ptr)
    requires Links(ns, path) && node in ns && root in ns && path[root] <= path[node]
    ensures n != NULL ==> n in ns && Ahead(ns, path, root, path[node], n)
    ensures forall m :: Ahead(ns, path, root, path[node], m) ==>
              n != NULL && (m == n || Less(path[n], path[m]))
  {
    hide Less, UpLink, DownLink, Beyond;
    var c := node;
    while true
      invariant c in ns && path[root] <= path[c] && (c == node || Less(path[node], path[c]))
      invariant forall m :: Ahead(ns, path, root, path[node], m) ==> Less(path[c], path[m])
      decreases Beyond(ns, path, c)
    {
      n := Successor(ns, path, c, root);
      if n == NULL {
        return;
      }
      if c != node {
        LessTransitive(path[node], path[c], path[n]);
      }
      if Alive(ns, n) {
        return;
      }
      BeyondShrinks(ns, path, c, n);
      c := n;
    }
  }

  // ------------------------------------------------------------ the iterator

  /** Where a prefix leads, all the keys that have it lie. */
  lemma {:induction false} UnderPrefix(ns: Nodes, path: map<Ptr, Key>, prefix: Key, m: Ptr)
    requires Links(ns, path) && prefix != [] && m in ns && prefix <= path[m]
    ensures var p := Walk(ns, prefix);
            p.At? && p.node in ns && path[p.node] <= path[m]
    decreases |path[m]|
  {
    hide Walk;
    assert m != HEADER && UpLink(ns, path, m);
    var q := ns[m].parent;
    assert path[q] < path[m];
    if |prefix| <= |path[q]| {
      assert prefix == path[m][..|prefix|] == path[q][..|prefix|];
      UnderPrefix(ns, path, prefix, q);
      PrefixTransitive(path[Walk(ns, prefix).node], path[q], path[m]);
    } else {
      var s := |prefix| - |path[q]| - 1;
      assert prefix == Spelled(ns, path, m, s);
      WalkComplete(ns, path, m, s);
    }
  }

  lemma PrefixTransitive(a: Key, b: Key, c: Key)
    ensures a <= b && b <= c ==> a <= c
  {
    if a <= b && b <= c {
      assert a == b[..|a|] == c[..|a|];
    }
  }

  /** A key with a value has a live node, and a live node has its key. */
  lemma KeyNode(t: Trie, k: Key) returns (m: Ptr)
    requires t.Valid() && k in t.contents
    ensures m in t.nodes && t.path[m] == k && Alive(t.nodes, m)
  {
    hide Walk, Links;
    assert CellAt(t.nodes, k) == Cell(Find(t.contents, k), RegsAt(t.regs, k));
    m := CellHasNode(t.nodes, t.path, k);
  }

  lemma NodeKey(t: Trie, m: Ptr)
    requires t.Valid() && Alive(t.nodes, m)
    ensures m in t.path && t.path[m] in t.contents && m != HEADER
    ensures t.nodes[m].key == Some(t.path[m]) && t.nodes[m].value == Some(t.contents[t.path[m]])
  {
    hide Walk, UpLink, DownLink;
    StoredAt(t.nodes, t.path, m, t.contents, t.regs);
  }

  datatype Iter = Iter(prefix: Option<Key>, n: Ptr, root: Ptr)

  /** lib/trie.c: trie_iter_create. */
  function IterCreate(prefix: Option<Key>): (it: Iter) {
    Iter(prefix, HEADER, HEADER)
  }

  predicate Matches(it: Iter, k: Key) {
    it.prefix.Some? ==> it.prefix.value <= k
  }

  /** The keys an iterator has still to return. */
  ghost function Pending(contents: map<Key, Value>, path: map<Ptr, Key>, it: Iter): (s: set<Key>)
    requires it.n == NULL || it.n in path
  {
    if it.n == NULL then {}
    else set k | k in contents && Matches(it, k) && (it.n == HEADER || Less(path[it.n], k))
  }

  /** The live nodes under `root` are those whose keys the iterator wants. */
  ghost predicate RootMatches(ns: Nodes, path: map<Ptr, Key>, it: Iter, root: Ptr)
    requires path.Keys == ns.Keys && root in ns
  {
    forall m :: m in ns && Alive(ns, m) ==> (path[root] <= path[m] <==> Matches(it, path[m]))
  }

  /** An iterator stands at the header, on a live node it holds a reference to, or
      at the end. */
  ghost predicate Standing(t: Trie, it: Iter)
    requires t.Valid()
    reads t
  {
    && (it.prefix.Some? ==> IsKey(it.prefix.value))
    && (it.n == NULL || (it.n in t.nodes && it.root in t.nodes))
    && (it.n == HEADER ==> it.root == HEADER && t.pins == multiset{})
    && (it.n == NULL ==> t.pins == multiset{})
    && (it.n != NULL && it.n != HEADER ==>
          && Alive(t.nodes, it.n) && t.pins == multiset{it.n}
          && t.path[it.root] <= t.path[it.n]
          && RootMatches(t.nodes, t.path, it, it.root))
  }

  /** lib/trie.c: the choice of the next node in trie_iter_next. */
  method Choose(t: Trie, it: Iter) returns (n: Ptr, root: Ptr)
    requires t.Valid() && Standing(t, it) && it.n != NULL
    ensures n == NULL ==> Pending(t.contents, t.path, it) == {}
    ensures n != NULL ==>
              && n in t.nodes && root in t.nodes && Alive(t.nodes, n) && t.path[root] <= t.path[n]
              && RootMatches(t.nodes, t.path, it, root)
              && t.path[n] in Pending(t.contents, t.path, it)
              && forall k :: k in Pending(t.contents, t.path, it) ==> k == t.path[n] || Less(t.path[n], k)
  {
    hide Less, Walk, UpLink, DownLink, Stores, Owned;
    if t.nodes[it.n].parent == NULL && it.prefix.Some? {
      TopIsHeader(t.nodes, t.path, it.n);
      var seg: nat;
      root, seg := t.Lookup(it.prefix.value, false);
      if root == NULL {
        NoneMatch(t, it);
        return NULL, NULL;
      }
      PrefixRoot(t, it, root, seg);
      if t.nodes[root].value == None {
        n := NodeNext(t.nodes, t.path, root, root);
        ChosenFromRoot(t, it, root, n);
      } else {
        n := root;
        AliveIfValue(t, n);
        ChosenRoot(t, it, root);
      }
    } else {
      root := it.root;
      n := NodeNext(t.nodes, t.path, it.n, it.root);
      ChosenOn(t, it, n);
    }
  }

  lemma TopIsHeader(ns: Nodes, path: map<Ptr, Key>, n: Ptr)
    requires Links(ns, path) && n in ns && ns[n].parent == NULL
    ensures n == HEADER
  {
    assert n != HEADER ==> UpLink(ns, path, n);
  }

  lemma AliveIfValue(t: Trie, n: Ptr)
    requires t.Valid() && n in t.nodes && t.nodes[n].value.Some?
    ensures Alive(t.nodes, n)
  {
  }

  lemma NoneMatch(t: Trie, it: Iter)
    requires t.Valid() && it.n == HEADER && it.prefix.Some? && IsKey(it.prefix.value)
    requires Walk(t.nodes, it.prefix.value).Lost?
    ensures Pending(t.contents, t.path, it) == {}
  {
    hide Walk, UpLink, DownLink, Stores, Owned;
    forall k | k in t.contents && Matches(it, k) ensures false {
      var m := KeyNode(t, k);
      UnderPrefix(t.nodes, t.path, it.prefix.value, m);
    }
  }

  lemma PrefixRoot(t: Trie, it: Iter, root: Ptr, seg: nat)
    requires t.Valid() && it.prefix.Some? && IsKey(it.prefix.value)
    requires root in t.nodes && Walk(t.nodes, it.prefix.value) == At(root, seg)
    requires seg <= |t.nodes[root].segment|
    requires t.path[root] == it.prefix.value + t.nodes[root].segment[seg..]
    ensures RootMatches(t.nodes, t.path, it, root)
  {
    hide Walk, UpLink, DownLink, Stores, Owned;
    forall m | m in t.nodes && Alive(t.nodes, m)
      ensures t.path[root] <= t.path[m] <==> Matches(it, t.path[m])
    {
      PrefixTransitive(it.prefix.value, t.path[root], t.path[m]);
      if it.prefix.value <= t.path[m] {
        UnderPrefix(t.nodes, t.path, it.prefix.value, m);
      }
    }
  }

  lemma ChosenRoot(t: Trie, it: Iter, root: Ptr)
    requires t.Valid() && it.n == HEADER && root in t.nodes && RootMatches(t.nodes, t.path, it, root)
    requires Alive(t.nodes, root)
    ensures t.path[root] in Pending(t.contents, t.path, it)
    ensures forall k :: k in Pending(t.contents, t.path, it) ==> k == t.path[root] || Less(t.path[root], k)
  {
    hide Less, Walk, UpLink, DownLink, Stores, Owned;
    NodeKey(t, root);
    forall k | k in Pending(t.contents, t.path, it) && k != t.path[root] ensures Less(t.path[root], k) {
      var m := KeyNode(t, k);
      ProperPrefix(t.path[root], k);
      PrefixLess(t.path[root], k);
    }
  }

  lemma ChosenFromRoot(t: Trie, it: Iter, root: Ptr, n: Ptr)
    requires t.Valid() && it.n == HEADER && root in t.nodes && RootMatches(t.nodes, t.path, it, root)
    requires !Alive(t.nodes, root)
    requires n != NULL ==> n in t.nodes && Ahead(t.nodes, t.path, root, t.path[root], n)
    requires forall m :: Ahead(t.nodes, t.path, root, t.path[root], m) ==>
               n != NULL && (m == n || Less(t.path[n], t.path[m]))
    ensures n == NULL ==> Pending(t.contents, t.path, it) == {}
    ensures n != NULL ==> t.path[n] in Pending(t.contents, t.path, it)
    ensures n != NULL ==> forall k :: k in Pending(t.contents, t.path, it) ==> k == t.path[n] || Less(t.path[n], k)
  {
    hide Less, Walk, UpLink, DownLink, Stores, Owned;
    if n != NULL {
      NodeKey(t, n);
    }
    forall k | k in Pending(t.contents, t.path, it) ensures n != NULL && (k == t.path[n] || Less(t.path[n], k)) {
      var m := KeyNode(t, k);
      if t.path[m] == t.path[root] {
        PathsDiffer(t.nodes, t.path, m, root);
      }
      ProperPrefix(t.path[root], t.path[m]);
      PrefixLess(t.path[root], t.path[m]);
      assert Ahead(t.nodes, t.path, root, t.path[root], m);
    }
  }

  lemma ProperPrefix(a: Key, b: Key)
    requires a <= b && a != b
    ensures a < b
  {
    assert b[..|b|] == b;
  }

  lemma ChosenOn(t: Trie, it: Iter, n: Ptr)
    requires t.Valid() && Standing(t, it) && it.n != NULL && (it.n == HEADER ==> it.prefix.None?)
    requires n != NULL ==> n in t.nodes && Ahead(t.nodes, t.path, it.root, t.path[it.n], n)
    requires forall m :: Ahead(t.nodes, t.path, it.root, t.path[it.n], m) ==>
               n != NULL && (m == n || Less(t.path[n], t.path[m]))
    ensures n == NULL ==> Pending(t.contents, t.path, it) == {}
    ensures n != NULL ==> t.path[n] in Pending(t.contents, t.path, it) && RootMatches(t.nodes, t.path, it, it.root)
    ensures n != NULL ==> forall k :: k in Pending(t.contents, t.path, it) ==> k == t.path[n] || Less(t.path[n], k)
  {
    hide Less, Walk, UpLink, DownLink, Stores, Owned;
    assert RootMatches(t.nodes, t.path, it, it.root);
    if n != NULL {
      NodeKey(t, n);
    }
    forall k | k in Pending(t.contents, t.path, it) ensures n != NULL && (k == t.path[n] || Less(t.path[n], k)) {
      var m := KeyNode(t, k);
      PrefixLess([], k);
      assert Ahead(t.nodes, t.path, it.root, t.path[it.n], m);
    }
  }

  /** lib/trie.c: trie_node_ref and trie_node_deref of an iterator's reference. */
  method Pin(t: Trie, n: Ptr)
    requires t.Valid() && n in t.nodes && n != HEADER && Alive(t.nodes, n)
    modifies t`nodes, t`pins
    ensures t.Valid() && t.pins == old(t.pins) + multiset{n}
    ensures SameButCounts(old(t.nodes), t.nodes)
  {
    hide Walk, UpLink, DownLink, CellAt, Stores, Distinct, IsKey, Owned;
    var d := t.nodes[n];
    PinCount(t.nodes, t.path, t.pins, n);
    var e := d.(refcount := d.refcount + 1);
    StoredAt(t.nodes, t.path, n, t.contents, t.regs);
    LoadStores(t.nodes, t.path, n, e, t.contents, t.regs, t.contents, t.regs);
    t.nodes := t.nodes[n := e];
    t.pins := t.pins + multiset{n};
  }

  method Unpin(t: Trie, n: Ptr)
    requires t.Valid() && n in t.nodes && Alive(t.nodes, n) && n in t.pins
    modifies t`nodes, t`pins
    ensures t.Valid() && t.pins == old(t.pins) - multiset{n}
    ensures SameButCounts(old(t.nodes), t.nodes)
  {
    hide Walk, UpLink, DownLink, CellAt, Stores, Distinct, IsKey, Owned;
    var d := t.nodes[n];
    PinCount(t.nodes, t.path, t.pins, n);
    var e := d.(refcount := d.refcount - 1);
    StoredAt(t.nodes, t.path, n, t.contents, t.regs);
    LoadStores(t.nodes, t.path, n, e, t.contents, t.regs, t.contents, t.regs);
    t.nodes := t.nodes[n := e];
    t.pins := t.pins - multiset{n};
    assert e.refcount > 0; // the map's own reference stays
  }

  lemma PinCount(ns: Nodes, path: map<Ptr, Key>, pins: multiset<Ptr>, n: Ptr)
    requires path.Keys == ns.Keys && n in ns && Owned(ns, path, pins) && ns[n].value.Some?
    ensures ns[n].refcount == pins[n] + 1
    ensures Owned(ns[n := ns[n].(refcount := ns[n].refcount + 1)], path, pins + multiset{n})
    ensures n in pins ==> Owned(ns[n := ns[n].(refcount := ns[n].refcount - 1)], path, pins - multiset{n})
  {
  }

  ghost predicate SameButCounts(ns: Nodes, ns': Nodes) {
    && ns'.Keys == ns.Keys
    && forall n :: n in ns ==>
         && ns'[n] == ns[n].(refcount := ns'[n].refcount)
         && (Alive(ns', n) <==> Alive(ns, n))
  }

  /**
   lib/trie.c: trie_iter_next.  It returns the least of the keys still to come,
   or nothing when there are none; the map is as it was but for one reference
   that moves along.
   */
  method IterNext(t: Trie, it: Iter) returns (it': Iter, key: Option<Key>, value: Option<Value>)
    requires t.Valid() && Standing(t, it)
    modifies t`nodes, t`pins
    ensures t.Valid() && Standing(t, it') && it'.prefix == it.prefix
    ensures key.None? ==> Pending(t.contents, t.path, it) == {} && it'.n == NULL
    ensures key.Some? ==>
              && it'.n != NULL && key.value in Pending(t.contents, t.path, it)
              && key.value in t.contents && value == Some(t.contents[key.value])
              && Pending(t.contents, t.path, it') == Pending(t.contents, t.path, it) - {key.value}
              && forall k :: k in Pending(t.contents, t.path, it') ==> Less(key.value, k)
  {
    hide Less, Walk, UpLink, DownLink, CellAt, Stores, Owned, Distinct, Pending, RootMatches, Alive, SameButCounts;
    if it.n == NULL {
      NonePending(t.contents, t.path, it);
      return it, None, None;
    }
    var n, root := Choose(t, it);
    if n == NULL {
      if it.n != HEADER {
        Unpin(t, it.n);
      }
      return it.(n := NULL, root := root), None, None;
    }
    it' := it.(n := n, root := root);
    key, value := t.nodes[n].key, t.nodes[n].value;
    NodeKey(t, n);
    PendingMoves(t.contents, t.path, it, it');
    ghost var before := t.nodes;
    MovePin(t, it.n, n);
    StillMatches(before, t.nodes, t.path, it, it', root);
  }

  /** The new reference is taken before the last one is dropped. */
  method MovePin(t: Trie, p: Ptr, n: Ptr)
    requires t.Valid() && n in t.nodes && n != HEADER && Alive(t.nodes, n) && p in t.nodes
    requires if p == HEADER then t.pins == multiset{} else Alive(t.nodes, p) && t.pins == multiset{p}
    modifies t`nodes, t`pins
    ensures t.Valid() && t.pins == multiset{n} && SameButCounts(old(t.nodes), t.nodes)
  {
    hide Less, Walk, Links, CellAt, Stores, Owned, Distinct;
    Pin(t, n);
    ghost var pinned := t.nodes;
    if p != HEADER {
      Unpin(t, p);
      SameButCountsTransitive(old(t.nodes), pinned, t.nodes);
    }
  }

  lemma NonePending(contents: map<Key, Value>, path: map<Ptr, Key>, it: Iter)
    requires it.n == NULL
    ensures Pending(contents, path, it) == {}
  {
  }

  lemma StillMatches(ns: Nodes, ns': Nodes, path: map<Ptr, Key>, it: Iter, it': Iter, root: Ptr)
    requires path.Keys == ns.Keys && root in ns && SameButCounts(ns, ns')
    requires RootMatches(ns, path, it, root) && it'.prefix == it.prefix
    ensures path.Keys == ns'.Keys && RootMatches(ns', path, it', root)
    ensures forall n :: n in ns ==> (Alive(ns', n) <==> Alive(ns, n))
  {
  }

  lemma SameButCountsTransitive(a: Nodes, b: Nodes, c: Nodes)
    requires SameButCounts(a, b) && SameButCounts(b, c)
    ensures SameButCounts(a, c)
  {
    hide Alive;
  }

  /** Moving to the least key still to come takes that key out. */
  lemma PendingMoves(contents: map<Key, Value>, path: map<Ptr, Key>, it: Iter, it': Iter)
    requires it.n in path && it.n != NULL && it'.n in path && it'.n != HEADER && it'.n != NULL
    requires it'.prefix == it.prefix && path[it'.n] in Pending(contents, path, it)
    requires forall k :: k in Pending(contents, path, it) ==> k == path[it'.n] || Less(path[it'.n], k)
    ensures Pending(contents, path, it') == Pending(contents, path, it) - {path[it'.n]}
    ensures forall k :: k in Pending(contents, path, it') ==> Less(path[it'.n], k)
  {
    hide Less;
    LessIrreflexive(path[it'.n]);
    forall k | k in Pending(contents, path, it') ensures k in Pending(contents, path, it) {
      if it.n != HEADER {
        LessTransitive(path[it.n], path[it'.n], k);
      }
    }
  }

  ghost predicate Ascending(keys: seq<Key>) {
    forall i, j :: 0 <= i < j < |keys| ==> Less(keys[i], keys[j])
  }

  ghost function Wanted(contents: map<Key, Value>, prefix: Option<Key>): (s: set<Key>) {
    set k | k in contents && (prefix.Some? ==> prefix.value <= k)
  }

  /**
   A full walk: from trie_iter_create to the null key, with no update in between.
   It returns each wanted key exactly once, in order, with its value, and gives
   every reference back.
   */
  method IterateAll(t: Trie, prefix: Option<Key>) returns (keys: seq<Key>, values: seq<Value>)
    requires t.Valid() && t.pins == multiset{} && (prefix.Some? ==> IsKey(prefix.value))
    modifies t`nodes, t`pins
    ensures t.Valid() && t.pins == multiset{}
    ensures Ascending(keys)
    ensures (set k | k in keys) == Wanted(t.contents, prefix)
    ensures |values| == |keys| && forall i :: 0 <= i < |keys| ==> Find(t.contents, keys[i]) == Some(values[i])
  {
    hide Less, Walk, Links, CellAt, Stores, Owned, Distinct, Standing, Pending, Progress;
    var it := IterCreate(prefix);
    StandsAtHeader(t, it);
    keys, values := [], [];
    ProgressStart(Wanted(t.contents, prefix));
    var done := false;
    while !done
      invariant t.Valid() && Standing(t, it) && it.prefix == prefix
      invariant StandingAt(t, it)
      invariant done ==> it.n == NULL
      invariant |values| == |keys|
      invariant forall i :: 0 <= i < |keys| ==> Find(t.contents, keys[i]) == Some(values[i])
      invariant Progress(keys, Pending(t.contents, t.path, it), Wanted(t.contents, prefix))
      decreases !done, |Pending(t.contents, t.path, it)|
    {
      ghost var pending := Pending(t.contents, t.path, it);
      var key, value;
      it, key, value := IterNext(t, it);
      StandingPlace(t, it);
      if key.None? {
        NonePending(t.contents, t.path, it);
        done := true;
      } else {
        ProgressStep(keys, pending, Wanted(t.contents, prefix), key.value, Pending(t.contents, t.path, it));
        keys, values := keys + [key.value], values + [value.value];
      }
    }
    NonePending(t.contents, t.path, it);
    ProgressEnd(keys, Wanted(t.contents, prefix));
  }

  /** What has come, what is to come, and that it comes in order. */
  ghost predicate Progress(keys: seq<Key>, pending: set<Key>, wanted: set<Key>) {
    && Ascending(keys)
    && wanted == (set k | k in keys) + pending
    && forall i, k :: 0 <= i < |keys| && k in pending ==> Less(keys[i], k)
  }

  lemma ProgressStart(wanted: set<Key>)
    ensures Progress([], wanted, wanted)
  {
  }

  lemma ProgressEnd(keys: seq<Key>, wanted: set<Key>)
    requires Progress(keys, {}, wanted)
    ensures Ascending(keys) && (set k | k in keys) == wanted
  {
  }

  lemma ProgressStep(keys: seq<Key>, pending: set<Key>, wanted: set<Key>, key: Key, pending': set<Key>)
    requires Progress(keys, pending, wanted) && key in pending && pending' == pending - {key}
    requires forall k :: k in pending' ==> Less(key, k)
    ensures Progress(keys + [key], pending', wanted) && |pending'| < |pending|
  {
    hide Less, Ascending;
    AscendingSnoc(keys, key);
    assert (set k | k in keys + [key]) == (set k | k in keys) + {key};
    assert pending == pending' + {key};
  }

  lemma AscendingSnoc(keys: seq<Key>, key: Key)
    requires Ascending(keys) && forall i :: 0 <= i < |keys| ==> Less(keys[i], key)
    ensures Ascending(keys + [key])
  {
    hide Less;
  }

  ghost predicate StandingAt(t: Trie, it: Iter)
    reads t
  {
    && (it.n == NULL || it.n in t.path)
    && (it.n == NULL ==> t.pins == multiset{})
  }

  lemma StandingPlace(t: Trie, it: Iter)
    requires t.Valid() && Standing(t, it)
    ensures StandingAt(t, it)
  {
  }

  lemma StandsAtHeader(t: Trie, it: Iter)
    requires t.Valid() && t.pins == multiset{} && (it.prefix.Some? ==> IsKey(it.prefix.value))
    requires it.n == HEADER && it.root == HEADER
    ensures Standing(t, it) && StandingAt(t, it)
    ensures Pending(t.contents, t.path, it) == Wanted(t.contents, it.prefix)
  {
  }
}
