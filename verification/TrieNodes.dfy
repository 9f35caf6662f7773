/**
 The nodes of a Patricia trie as they lie in memory, and what a key finds there.

 A node store maps addresses to node records; parents, children and the header
 are addresses, so every update is an update in place that other nodes can see.
 */
module TrieNodes {
  import opened Common
  import opened MapTypes

  datatype Event = Deleted | Replaced | Inserted | Recursive | Free

  datatype Notifier = Notifier(events: set<Event>, callback: int, userData: int)

  datatype Node = Node(
    idx: nat, segment: Key, key: Option<Key>, value: Option<Value>,
    children: seq<Ptr>, refcount: nat, parent: Ptr, notifiers: seq<Notifier>)

  type Nodes = map<Ptr, Node>

  /** lib/trie.c: TRIE_CHAR2INDEX and TRIE_INDEX2CHAR. */
  function Index(c: Ch): (i: nat)
    ensures i < 256
  {
    127 - c as int
  }

  function Char(i: nat): (c: Ch)
    requires i < 256
    ensures Index(c) == i
  {
    127 - i
  }

  /** The child in slot i; slots beyond the allocated ones are empty. */
  function Child(d: Node, i: nat): (c: Ptr) {
    if i < |d.children| then d.children[i] else NULL
  }

  // ---------------------------------------------------------------- structure

  ghost predicate UpLink(ns: Nodes, path: map<Ptr, Key>, n: Ptr)
    requires n in ns && path.Keys == ns.Keys
  {
    var d := ns[n];
    && d.idx < 256 && d.parent in ns
    && Child(ns[d.parent], d.idx) == n
    && path[n] == path[d.parent] + [Char(d.idx)] + d.segment
  }

  ghost predicate DownLink(ns: Nodes, n: Ptr, i: nat)
    requires n in ns
  {
    var c := Child(ns[n], i);
    c != NULL ==> c in ns && c != HEADER && ns[c].parent == n && ns[c].idx == i
  }

  /** A tree under the header, `path` spelling the way to the end of each node. */
  ghost predicate Links(ns: Nodes, path: map<Ptr, Key>) {
    && HEADER in ns && NULL !in ns && path.Keys == ns.Keys
    && ns[HEADER].parent == NULL && ns[HEADER].segment == [] && path[HEADER] == []
    && (forall n {:trigger UpLink(ns, path, n)} :: n in ns && n != HEADER ==> UpLink(ns, path, n))
    && (forall n, i: nat {:trigger DownLink(ns, n, i)} :: n in ns ==> DownLink(ns, n, i))
  }

  // ------------------------------------------------------------------ lookups

  datatype Pos = Lost | At(node: Ptr, seg: nat)

  /** One turn of the loop of trie_lookup. */
  function Advance(ns: Nodes, p: Pos, c: Ch): (q: Pos) {
    if p.Lost? || p.node !in ns then Lost
    else
      var d := ns[p.node];
      if p.seg < |d.segment| then
        if d.segment[p.seg] == c then At(p.node, p.seg + 1) else Lost
      else
        var m := Child(d, Index(c));
        if m != NULL then At(m, 0) else Lost
  }

  /** Where the characters of `k` lead from the header. */
  function Walk(ns: Nodes, k: Key): (p: Pos)
    decreases |k|
  {
    if k == [] then At(HEADER, 0) else Advance(ns, Walk(ns, k[..|k| - 1]), k[|k| - 1])
  }

  lemma WalkEmpty(ns: Nodes)
    ensures Walk(ns, []) == At(HEADER, 0)
  {
  }

  lemma WalkSnoc(ns: Nodes, k: Key, c: Ch)
    ensures Walk(ns, k + [c]) == Advance(ns, Walk(ns, k), c)
  {
    assert (k + [c])[..|k|] == k;
  }

  /** A position reached spells exactly what was walked. */
  lemma {:induction false} WalkSound(ns: Nodes, path: map<Ptr, Key>, k: Key)
    requires Links(ns, path)
    ensures var p := Walk(ns, k);
            p.At? ==> p.node in ns && p.seg <= |ns[p.node].segment|
                      && path[p.node] == k + ns[p.node].segment[p.seg..]
    decreases |k|
  {
    if k != [] {
      var init, c := k[..|k| - 1], k[|k| - 1];
      WalkSound(ns, path, init);
      assert k == init + [c];
      var p := Walk(ns, init);
      if p.At? && p.seg == |ns[p.node].segment| {
        assert DownLink(ns, p.node, Index(c));
        var m := Child(ns[p.node], Index(c));
        if m != NULL {
          assert UpLink(ns, path, m);
          assert ns[m].segment[0..] == ns[m].segment;
        }
      }
    }
  }

  /** What leads to position `s` of the segment of `n`. */
  ghost function Spelled(ns: Nodes, path: map<Ptr, Key>, n: Ptr, s: nat): (k: Key)
    requires n in ns && path.Keys == ns.Keys && s <= |ns[n].segment|
    requires n != HEADER ==> UpLink(ns, path, n)
  {
    if n == HEADER then []
    else path[ns[n].parent] + [Char(ns[n].idx)] + ns[n].segment[..s]
  }

  /** From the end of the parent to the start of a node. */
  lemma WalkDown(ns: Nodes, path: map<Ptr, Key>, n: Ptr)
    requires n in ns && n != HEADER && n != NULL && path.Keys == ns.Keys && UpLink(ns, path, n)
    requires Walk(ns, path[ns[n].parent]) == At(ns[n].parent, |ns[ns[n].parent].segment|)
    ensures Walk(ns, Spelled(ns, path, n, 0)) == At(n, 0)
  {
    hide Walk;
    var up, c := path[ns[n].parent], Char(ns[n].idx);
    assert Spelled(ns, path, n, 0) == up + [c];
    WalkSnoc(ns, up, c);
  }

  /** From one position of a segment to the next. */
  lemma WalkAlong(ns: Nodes, path: map<Ptr, Key>, n: Ptr, s: nat)
    requires n in ns && n != HEADER && path.Keys == ns.Keys && UpLink(ns, path, n) && s < |ns[n].segment|
    requires Walk(ns, Spelled(ns, path, n, s)) == At(n, s)
    ensures Walk(ns, Spelled(ns, path, n, s + 1)) == At(n, s + 1)
  {
    hide Walk;
    var k, c := Spelled(ns, path, n, s), ns[n].segment[s];
    assert Spelled(ns, path, n, s + 1) == k + [c];
    WalkSnoc(ns, k, c);
  }

  /** Every position in the tree is reached by what it spells. */
  lemma {:induction false} WalkComplete(ns: Nodes, path: map<Ptr, Key>, n: Ptr, s: nat)
    requires Links(ns, path) && n in ns && s <= |ns[n].segment|
    ensures n != HEADER ==> UpLink(ns, path, n)
    ensures Walk(ns, Spelled(ns, path, n, s)) == At(n, s)
    decreases |path[n]|, s
  {
    if n == HEADER {
      WalkEmpty(ns);
    } else {
      assert UpLink(ns, path, n);
      hide Walk, Spelled, DownLink;
      if s == 0 {
        WalkToNode(ns, path, ns[n].parent);
        WalkDown(ns, path, n);
      } else {
        WalkComplete(ns, path, n, s - 1);
        WalkAlong(ns, path, n, s - 1);
      }
    }
  }

  lemma WalkToNode(ns: Nodes, path: map<Ptr, Key>, n: Ptr)
    requires Links(ns, path) && n in ns
    ensures Walk(ns, path[n]) == At(n, |ns[n].segment|)
    decreases |path[n]|, |ns[n].segment| + 1
  {
    hide Walk;
    WalkComplete(ns, path, n, |ns[n].segment|);
    assert Spelled(ns, path, n, |ns[n].segment|) == path[n];
  }

  /** No two nodes end at the same place. */
  lemma PathsDiffer(ns: Nodes, path: map<Ptr, Key>, n: Ptr, m: Ptr)
    requires Links(ns, path) && n in ns && m in ns && path[n] == path[m]
    ensures n == m
  {
    WalkToNode(ns, path, n);
    WalkToNode(ns, path, m);
  }

  // --------------------------------------------------------------- abstraction

  /** What the trie stores under one key. */
  datatype Cell = Cell(value: Option<Value>, notifiers: seq<Notifier>)
  const EMPTY := Cell(None, [])

  function CellOf(d: Node): (c: Cell) {
    Cell(d.value, d.notifiers)
  }

  /** What an exact lookup of `k` finds. */
  function CellAt(ns: Nodes, k: Key): (c: Cell) {
    var p := Walk(ns, k);
    if p.At? && p.node in ns && p.seg == |ns[p.node].segment| then CellOf(ns[p.node]) else EMPTY
  }

  lemma CellAtNode(ns: Nodes, path: map<Ptr, Key>, n: Ptr)
    requires Links(ns, path) && n in ns
    ensures CellAt(ns, path[n]) == CellOf(ns[n])
  {
    WalkToNode(ns, path, n);
  }

  lemma CellHasNode(ns: Nodes, path: map<Ptr, Key>, k: Key) returns (n: Ptr)
    requires Links(ns, path) && CellAt(ns, k) != EMPTY
    ensures n in ns && path[n] == k && CellOf(ns[n]) == CellAt(ns, k)
  {
    WalkSound(ns, path, k);
    n := Walk(ns, k).node;
  }

  /** Each loaded node of `ns` is in the same place with the same load in `ns'`,
      where what `a` carried is carried by `b`. */
  ghost predicate Carried(ns: Nodes, path: map<Ptr, Key>, ns': Nodes, path': map<Ptr, Key>, a: Ptr, b: Ptr)
    requires path.Keys == ns.Keys && path'.Keys == ns'.Keys
  {
    forall n :: n in ns && CellOf(ns[n]) != EMPTY ==>
      var m := if n == a then b else n;
      m in ns' && path'[m] == path[n] && CellOf(ns'[m]) == CellOf(ns[n])
  }

  ghost predicate SameCells(ns: Nodes, ns': Nodes) {
    forall k :: CellAt(ns', k) == CellAt(ns, k)
  }

  lemma CarriedBothWays(ns: Nodes, path: map<Ptr, Key>, ns': Nodes, path': map<Ptr, Key>, a: Ptr, b: Ptr)
    requires Links(ns, path) && Links(ns', path')
    requires Carried(ns, path, ns', path', a, b) && Carried(ns', path', ns, path, b, a)
    ensures SameCells(ns, ns')
  {
    hide CellAt;
    forall k ensures CellAt(ns', k) == CellAt(ns, k) {
      if CellAt(ns, k) != EMPTY {
        CarriedTo(ns, path, ns', path', a, b, k);
      } else if CellAt(ns', k) != EMPTY {
        CarriedTo(ns', path', ns, path, b, a, k);
      }
    }
  }

  lemma CarriedTo(ns: Nodes, path: map<Ptr, Key>, ns': Nodes, path': map<Ptr, Key>, a: Ptr, b: Ptr, k: Key)
    requires Links(ns, path) && Links(ns', path') && Carried(ns, path, ns', path', a, b)
    requires CellAt(ns, k) != EMPTY
    ensures CellAt(ns', k) == CellAt(ns, k)
  {
    hide CellAt;
    var n := CellHasNode(ns, path, k);
    CellAtNode(ns', path', if n == a then b else n);
  }

  // ------------------------------------------------------------ restructuring

  function NewNode(parent: Ptr, idx: nat): (d: Node) {
    Node(idx, [], None, None, [], 0, parent, [])
  }

  /** The child array grown, if need be, to hold slot `i`. */
  function Grown(children: seq<Ptr>, i: nat): (r: seq<Ptr>)
    ensures |r| > i
    ensures forall j :: 0 <= j < |r| ==> r[j] == if j < |children| then children[j] else NULL
  {
    if i < |children| then children
    else
      var size := if i + 1 > 30 then i + 1 else 30;
      children + seq<Ptr>(if size > |children| then size - |children| else 0, _ => NULL)
  }

  /** lib/trie.c: new_child_node. */
  function AddChild(ns: Nodes, n: Ptr, q: Ptr, c: Ch): (ns': Nodes)
    requires n in ns
    ensures ns'.Keys == ns.Keys + {q}
  {
    var slots := Grown(ns[n].children, Index(c));
    ns[n := ns[n].(children := slots[Index(c) := q])][q := NewNode(n, Index(c))]
  }

  lemma AddChildLinks(ns: Nodes, path: map<Ptr, Key>, n: Ptr, q: Ptr, c: Ch)
    requires Links(ns, path) && n in ns && q !in ns && q != NULL
    requires Child(ns[n], Index(c)) == NULL
    ensures Links(AddChild(ns, n, q, c), path[q := path[n] + [c]])
  {
    var ns', path' := AddChild(ns, n, q, c), path[q := path[n] + [c]];
    assert Char(Index(c)) == c;
    forall m | m in ns' && m != HEADER ensures UpLink(ns', path', m) {
      if m != q {
        assert UpLink(ns, path, m);
      }
    }
    forall m, i: nat | m in ns' ensures DownLink(ns', m, i) {
      AddChildDown(ns, path, n, q, c, m, i);
    }
  }

  lemma AddChildDown(ns: Nodes, path: map<Ptr, Key>, n: Ptr, q: Ptr, c: Ch, m: Ptr, i: nat)
    requires Links(ns, path) && n in ns && q !in ns && q != NULL
    requires m in AddChild(ns, n, q, c)
    ensures DownLink(AddChild(ns, n, q, c), m, i)
  {
    if m != q {
      assert DownLink(ns, m, i);
    }
  }

  lemma AddChildKeeps(ns: Nodes, path: map<Ptr, Key>, n: Ptr, q: Ptr, c: Ch)
    requires Links(ns, path) && n in ns && q !in ns && q != NULL
    requires Child(ns[n], Index(c)) == NULL
    ensures var ns', path' := AddChild(ns, n, q, c), path[q := path[n] + [c]];
            Links(ns', path') && SameCells(ns, ns')
  {
    hide UpLink, DownLink, SameCells;
    var ns', path' := AddChild(ns, n, q, c), path[q := path[n] + [c]];
    AddChildLinks(ns, path, n, q, c);
    CarriedBothWays(ns, path, ns', path', n, n);
  }

  /** lib/trie.c: the loop of trie_node_split that moves children to `q`. */
  function Reparented(ns: Nodes, children: seq<Ptr>, q: Ptr): (ns': Nodes)
    ensures ns'.Keys == ns.Keys
  {
    map n | n in ns :: if n in children then ns[n].(parent := q) else ns[n]
  }

  /** lib/trie.c: trie_node_split at position `s` of the segment of `n`. */
  function Split(ns: Nodes, n: Ptr, q: Ptr, s: nat): (ns': Nodes)
    requires n in ns && s < |ns[n].segment|
    ensures ns'.Keys == ns.Keys + {q}
  {
    var d := ns[n];
    var i := Index(d.segment[s]);
    var lower := d.(idx := i, segment := d.segment[s + 1..], parent := n);
    var upper := d.(segment := d.segment[..s], key := None, value := None, refcount := 0,
                    children := Grown([], i)[i := q], notifiers := []);
    Reparented(ns, d.children, q)[n := upper][q := lower]
  }

  function SplitPath(ns: Nodes, path: map<Ptr, Key>, n: Ptr, q: Ptr, s: nat): (path': map<Ptr, Key>)
    requires n in ns && path.Keys == ns.Keys && s < |ns[n].segment| <= |path[n]|
  {
    path[n := path[n][..|path[n]| - |ns[n].segment| + s]][q := path[n]]
  }

  /** The paths of the two halves. */
  lemma SplitEnds(ns: Nodes, path: map<Ptr, Key>, n: Ptr, q: Ptr, s: nat)
    requires Links(ns, path) && n in ns && n != HEADER && s < |ns[n].segment|
    ensures |ns[n].segment| <= |path[n]|
    ensures var d, path' := ns[n], SplitPath(ns, path, n, q, s);
            && UpLink(ns, path, n)
            && (q != n ==> path'[n] == path[d.parent] + [Char(d.idx)] + d.segment[..s])
            && (q != n ==> path[n] == path'[n] + [Char(Index(d.segment[s]))] + d.segment[s + 1..])
  {
    hide DownLink;
    assert UpLink(ns, path, n);
    var d := ns[n];
    assert path[n] == path[d.parent] + [Char(d.idx)] + d.segment;
    assert d.segment == d.segment[..s] + [d.segment[s]] + d.segment[s + 1..];
    assert Char(Index(d.segment[s])) == d.segment[s];
  }

  /** The paths of the two halves, and whose children are whose. */
  lemma SplitFacts(ns: Nodes, path: map<Ptr, Key>, n: Ptr, q: Ptr, s: nat)
    requires Links(ns, path) && n in ns && n != HEADER && s < |ns[n].segment|
    ensures |ns[n].segment| <= |path[n]|
    ensures var d, path' := ns[n], SplitPath(ns, path, n, q, s);
            && UpLink(ns, path, n)
            && (q != n ==> path'[n] == path[d.parent] + [Char(d.idx)] + d.segment[..s])
            && (q != n ==> path[n] == path'[n] + [Char(Index(d.segment[s]))] + d.segment[s + 1..])
    ensures forall m :: m in ns && m != HEADER ==> (m in ns[n].children <==> ns[m].parent == n)
    ensures HEADER !in ns[n].children && n !in ns[n].children
  {
    SplitEnds(ns, path, n, q, s);
    forall m | m in ns && m != HEADER ensures m in ns[n].children <==> ns[m].parent == n {
      assert UpLink(ns, path, m);
      ChildOf(ns, path, n, m);
    }
    ChildOf(ns, path, n, HEADER);
    ChildOf(ns, path, n, n);
  }

  lemma ChildOf(ns: Nodes, path: map<Ptr, Key>, n: Ptr, m: Ptr)
    requires Links(ns, path) && n in ns && m in ns
    ensures m in ns[n].children ==> m != HEADER && m != n && ns[m].parent == n
  {
    if m in ns[n].children {
      var i :| 0 <= i < |ns[n].children| && ns[n].children[i] == m;
      assert DownLink(ns, n, i);
      assert m != HEADER ==> UpLink(ns, path, m);
    }
  }

  lemma SplitLinks(ns: Nodes, path: map<Ptr, Key>, n: Ptr, q: Ptr, s: nat)
    requires Links(ns, path) && n in ns && n != HEADER && q !in ns && q != NULL
    requires s < |ns[n].segment|
    ensures |ns[n].segment| <= |path[n]|
    ensures Links(Split(ns, n, q, s), SplitPath(ns, path, n, q, s))
  {
    SplitFacts(ns, path, n, q, s);
    var ns', path' := Split(ns, n, q, s), SplitPath(ns, path, n, q, s);
    forall m | m in ns' && m != HEADER ensures UpLink(ns', path', m) {
      SplitUp(ns, path, n, q, s, m);
    }
    forall m, i: nat | m in ns' ensures DownLink(ns', m, i) {
      SplitDown(ns, path, n, q, s, m, i);
    }
  }

  lemma SplitUp(ns: Nodes, path: map<Ptr, Key>, n: Ptr, q: Ptr, s: nat, m: Ptr)
    requires Links(ns, path) && n in ns && n != HEADER && q !in ns && q != NULL
    requires s < |ns[n].segment| <= |path[n]|
    requires m in Split(ns, n, q, s) && m != HEADER
    ensures UpLink(Split(ns, n, q, s), SplitPath(ns, path, n, q, s), m)
  {
    SplitFacts(ns, path, n, q, s);
    if m != q {
      assert UpLink(ns, path, m);
    }
  }

  lemma SplitDown(ns: Nodes, path: map<Ptr, Key>, n: Ptr, q: Ptr, s: nat, m: Ptr, i: nat)
    requires Links(ns, path) && n in ns && n != HEADER && q !in ns && q != NULL
    requires s < |ns[n].segment| <= |path[n]|
    requires m in Split(ns, n, q, s)
    ensures DownLink(Split(ns, n, q, s), m, i)
  {
    SplitFacts(ns, path, n, q, s);
    if m == q {
      assert DownLink(ns, n, i);
      assert i < |ns[n].children| ==> ns[n].children[i] in ns[n].children;
    } else if m != n {
      assert DownLink(ns, m, i);
    }
  }

  /** The upper half ends where the split was made. */
  lemma SplitUpper(ns: Nodes, path: map<Ptr, Key>, n: Ptr, q: Ptr, s: nat)
    requires Links(ns, path) && n in ns && n != HEADER && q !in ns
    requires s < |ns[n].segment| <= |path[n]|
    ensures var ns', path' := Split(ns, n, q, s), SplitPath(ns, path, n, q, s);
            && ns'[n].segment == ns[n].segment[..s]
            && n in path' && path[n] == path'[n] + ns[n].segment[s..]
            && forall i: nat :: i != Index(ns[n].segment[s]) ==> Child(ns'[n], i) == NULL
  {
    hide DownLink, UpLink, Child, Split;
    SplitEnds(ns, path, n, q, s);
    UpperHalf(ns, n, q, s);
    Rejoin(SplitPath(ns, path, n, q, s)[n], ns[n].segment, s);
  }

  lemma Rejoin(up: Key, seg: Key, s: nat)
    requires s < |seg|
    ensures up + [Char(Index(seg[s]))] + seg[s + 1..] == up + seg[s..]
  {
    assert Char(Index(seg[s])) == seg[s];
  }

  lemma UpperHalf(ns: Nodes, n: Ptr, q: Ptr, s: nat)
    requires n in ns && q !in ns && s < |ns[n].segment|
    ensures var d := Split(ns, n, q, s)[n];
            d.segment == ns[n].segment[..s] && forall i: nat :: i != Index(ns[n].segment[s]) ==> Child(d, i) == NULL
  {
  }

  lemma SplitCarried(ns: Nodes, path: map<Ptr, Key>, n: Ptr, q: Ptr, s: nat)
    requires path.Keys == ns.Keys && n in ns && q !in ns && s < |ns[n].segment| <= |path[n]|
    ensures var ns', path' := Split(ns, n, q, s), SplitPath(ns, path, n, q, s);
            Carried(ns, path, ns', path', n, q) && Carried(ns', path', ns, path, q, n)
  {
    hide Split, SplitPath, Carried;
    SplitCells(ns, n, q, s);
    SplitPaths(ns, path, n, q, s);
    CarryOver(ns, path, Split(ns, n, q, s), SplitPath(ns, path, n, q, s), n, q);
  }

  lemma CarryOver(ns: Nodes, path: map<Ptr, Key>, ns': Nodes, path': map<Ptr, Key>, n: Ptr, q: Ptr)
    requires path.Keys == ns.Keys && path'.Keys == ns'.Keys && ns'.Keys == ns.Keys + {q} && n in ns && q !in ns
    requires CellOf(ns'[q]) == CellOf(ns[n]) && CellOf(ns'[n]) == EMPTY && path'[q] == path[n]
    requires forall m :: m in ns && m != n ==> CellOf(ns'[m]) == CellOf(ns[m]) && path'[m] == path[m]
    ensures Carried(ns, path, ns', path', n, q) && Carried(ns', path', ns, path, q, n)
  {
    hide CellOf;
  }

  lemma SplitPaths(ns: Nodes, path: map<Ptr, Key>, n: Ptr, q: Ptr, s: nat)
    requires path.Keys == ns.Keys && n in ns && q !in ns && s < |ns[n].segment| <= |path[n]|
    ensures var path' := SplitPath(ns, path, n, q, s);
            && path'.Keys == path.Keys + {q} && path'[q] == path[n]
            && forall m :: m in path && m != n ==> path'[m] == path[m]
  {
  }

  /** The lower half has the load, the upper half none, and all others keep theirs. */
  lemma SplitCells(ns: Nodes, n: Ptr, q: Ptr, s: nat)
    requires n in ns && q !in ns && s < |ns[n].segment|
    ensures var ns' := Split(ns, n, q, s);
            && ns'.Keys == ns.Keys + {q} && CellOf(ns'[q]) == CellOf(ns[n]) && CellOf(ns'[n]) == EMPTY
            && forall m :: m in ns && m != n ==> CellOf(ns'[m]) == CellOf(ns[m])
  {
    hide Grown, Index;
  }

  lemma SplitKeeps(ns: Nodes, path: map<Ptr, Key>, n: Ptr, q: Ptr, s: nat)
    requires Links(ns, path) && n in ns && n != HEADER && q !in ns && q != NULL
    requires s < |ns[n].segment|
    ensures |ns[n].segment| <= |path[n]|
    ensures var ns', path' := Split(ns, n, q, s), SplitPath(ns, path, n, q, s);
            Links(ns', path') && SameCells(ns, ns')
  {
    hide UpLink, DownLink, SameCells, Carried;
    SplitLinks(ns, path, n, q, s);
    SplitCarried(ns, path, n, q, s);
    hide Split, SplitPath;
    CarriedBothWays(ns, path, Split(ns, n, q, s), SplitPath(ns, path, n, q, s), n, q);
  }

  /** The split as trie_node_split performs it, field by field. */
  lemma SplitInSteps(ns: Nodes, path: map<Ptr, Key>, n: Ptr, q: Ptr, s: nat)
    requires Links(ns, path) && n in ns && n != HEADER && q !in ns && q != NULL
    requires s < |ns[n].segment|
    ensures var d := ns[n];
            var a := AddChild(ns[n := d.(children := [])], n, q, d.segment[s]);
            var b := Reparented(a[q := a[q].(children := d.children)], d.children, q);
            var c := b[q := b[q].(value := d.value, key := d.key, refcount := d.refcount,
                                  notifiers := d.notifiers, segment := d.segment[s + 1..])];
            var e := c[n := c[n].(value := None, key := None, refcount := 0, notifiers := [],
                                  segment := d.segment[..s])];
            e == Split(ns, n, q, s)
    ensures forall c :: c in ns[n].children && c != NULL ==> c in ns
  {
    SplitFacts(ns, path, n, q, s);
    forall c | c in ns[n].children && c != NULL ensures c in ns {
      var i :| 0 <= i < |ns[n].children| && ns[n].children[i] == c;
      assert DownLink(ns, n, i);
    }
  }

  /** lib/trie.c: a leaf that carries nothing takes one more character. */
  function Extend(ns: Nodes, n: Ptr, c: Ch): (ns': Nodes)
    requires n in ns
  {
    ns[n := ns[n].(segment := ns[n].segment + [c])]
  }

  lemma ExtendLinks(ns: Nodes, path: map<Ptr, Key>, n: Ptr, c: Ch)
    requires Links(ns, path) && n in ns && n != HEADER && ns[n].children == []
    ensures Links(Extend(ns, n, c), path[n := path[n] + [c]])
  {
    var ns', path' := Extend(ns, n, c), path[n := path[n] + [c]];
    forall m | m in ns' && m != HEADER ensures UpLink(ns', path', m) {
      assert UpLink(ns, path, m);
      assert ns[m].parent != n;
    }
    forall m, i: nat | m in ns' ensures DownLink(ns', m, i) {
      assert DownLink(ns, m, i);
    }
  }

  lemma ExtendKeeps(ns: Nodes, path: map<Ptr, Key>, n: Ptr, c: Ch)
    requires Links(ns, path) && n in ns && n != HEADER
    requires CellOf(ns[n]) == EMPTY && ns[n].children == []
    ensures var ns', path' := Extend(ns, n, c), path[n := path[n] + [c]];
            Links(ns', path') && SameCells(ns, ns')
  {
    hide UpLink, DownLink, SameCells;
    var ns', path' := Extend(ns, n, c), path[n := path[n] + [c]];
    ExtendLinks(ns, path, n, c);
    CarriedBothWays(ns, path, ns', path', n, n);
  }

  /** lib/trie.c: a childless node is unlinked from its parent and freed. */
  function Unlink(ns: Nodes, n: Ptr): (ns': Nodes)
    requires n in ns && ns[n].parent in ns && ns[n].idx < |ns[ns[n].parent].children|
  {
    var p := ns[n].parent;
    ns[p := ns[p].(children := ns[p].children[ns[n].idx := NULL])] - {n}
  }

  lemma UnlinkLinks(ns: Nodes, path: map<Ptr, Key>, n: Ptr)
    requires Links(ns, path) && n in ns && n != HEADER
    requires forall i: nat :: Child(ns[n], i) == NULL
    ensures UpLink(ns, path, n)
    ensures ns[n].idx < |ns[ns[n].parent].children|
    ensures Links(Unlink(ns, n), path - {n})
  {
    assert UpLink(ns, path, n);
    var ns', path' := Unlink(ns, n), path - {n};
    forall m | m in ns' && m != HEADER ensures UpLink(ns', path', m) {
      assert UpLink(ns, path, m);
    }
    forall m, i: nat | m in ns' ensures DownLink(ns', m, i) {
      assert DownLink(ns, m, i);
    }
  }

  lemma UnlinkKeeps(ns: Nodes, path: map<Ptr, Key>, n: Ptr)
    requires Links(ns, path) && n in ns && n != HEADER
    requires CellOf(ns[n]) == EMPTY && forall i: nat :: Child(ns[n], i) == NULL
    ensures UpLink(ns, path, n)
    ensures ns[n].idx < |ns[ns[n].parent].children|
    ensures Links(Unlink(ns, n), path - {n}) && SameCells(ns, Unlink(ns, n))
  {
    hide DownLink, SameCells;
    UnlinkLinks(ns, path, n);
    CarriedBothWays(ns, path, Unlink(ns, n), path - {n}, n, n);
  }

  /** A node given another load changes the cell of its own key only. */
  lemma LoadKeeps(ns: Nodes, path: map<Ptr, Key>, n: Ptr, d: Node)
    requires Links(ns, path) && n in ns
    requires d.idx == ns[n].idx && d.segment == ns[n].segment
    requires d.children == ns[n].children && d.parent == ns[n].parent
    ensures Links(ns[n := d], path)
    ensures forall k :: CellAt(ns[n := d], k) == if k == path[n] then CellOf(d) else CellAt(ns, k)
  {
    var ns' := ns[n := d];
    forall m | m in ns' && m != HEADER ensures UpLink(ns', path, m) {
      assert UpLink(ns, path, m);
    }
    forall m, i: nat | m in ns' ensures DownLink(ns', m, i) {
      assert DownLink(ns, m, i);
    }
    forall k ensures CellAt(ns', k) == if k == path[n] then CellOf(d) else CellAt(ns, k) {
      LoadCell(ns, path, n, d, k);
    }
  }

  lemma LoadCell(ns: Nodes, path: map<Ptr, Key>, n: Ptr, d: Node, k: Key)
    requires Links(ns, path) && n in ns && Links(ns[n := d], path)
    requires d.segment == ns[n].segment
    ensures CellAt(ns[n := d], k) == if k == path[n] then CellOf(d) else CellAt(ns, k)
  {
    var ns' := ns[n := d];
    if k == path[n] {
      CellAtNode(ns', path, n);
    } else {
      if CellAt(ns, k) != EMPTY {
        var m := CellHasNode(ns, path, k);
        CellAtNode(ns', path, m);
      } else if CellAt(ns', k) != EMPTY {
        var m := CellHasNode(ns', path, k);
        CellAtNode(ns, path, m);
      }
    }
  }

  // --------------------------------------------------------------- bookkeeping

  /** A value is there together with its key and the reference the map holds;
      `pins` are the references held by iterators. Segments hold no NUL. */
  ghost predicate Owned(ns: Nodes, path: map<Ptr, Key>, pins: multiset<Ptr>)
    requires path.Keys == ns.Keys
  {
    forall n :: n in ns ==>
      && ns[n].key == (if ns[n].value.Some? then Some(path[n]) else None)
      && ns[n].refcount == pins[n] + (if ns[n].value.Some? then 1 else 0)
      && NUL !in ns[n].segment
  }

  lemma AddChildOwned(ns: Nodes, path: map<Ptr, Key>, n: Ptr, q: Ptr, c: Ch)
    requires path.Keys == ns.Keys && n in ns && q !in ns && Owned(ns, path, multiset{})
    ensures Owned(AddChild(ns, n, q, c), path[q := path[n] + [c]], multiset{})
  {
  }

  lemma SplitOwned(ns: Nodes, path: map<Ptr, Key>, n: Ptr, q: Ptr, s: nat)
    requires path.Keys == ns.Keys && n in ns && q !in ns && Owned(ns, path, multiset{})
    requires s < |ns[n].segment| <= |path[n]|
    ensures Owned(Split(ns, n, q, s), SplitPath(ns, path, n, q, s), multiset{})
  {
    hide Grown, Index;
    var ns', path' := Split(ns, n, q, s), SplitPath(ns, path, n, q, s);
    forall m | m in ns'
      ensures ns'[m].key == (if ns'[m].value.Some? then Some(path'[m]) else None)
      ensures ns'[m].refcount == (if ns'[m].value.Some? then 1 else 0) && NUL !in ns'[m].segment
    {
      if m != n && m != q {
        assert m in ns;
      }
    }
  }
}
