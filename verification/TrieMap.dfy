/**
 The trie map: put, get, rm and notify_add over the node store, each proved
 against a plain map from keys to values and one from prefixes to notifiers.
 */
module TrieMap {
  import opened Common
  import opened MapTypes
  import opened TrieNodes
  import opened TrieNotify

  /** What every exact lookup finds is what the two plain maps hold. */
  ghost predicate Stores(ns: Nodes, contents: map<Key, Value>, regs: Registrations) {
    forall k :: CellAt(ns, k) == Cell(Find(contents, k), RegsAt(regs, k))
  }

  lemma StoresSame(ns: Nodes, ns': Nodes, contents: map<Key, Value>, regs: Registrations)
    requires Stores(ns, contents, regs) && SameCells(ns, ns')
    ensures Stores(ns', contents, regs)
  {
    hide CellAt;
  }

  lemma SameCellsReflexive(a: Nodes)
    ensures SameCells(a, a)
  {
    hide CellAt;
  }

  lemma SameCellsTransitive(a: Nodes, b: Nodes, c: Nodes)
    requires SameCells(a, b) && SameCells(b, c)
    ensures SameCells(a, c)
  {
    hide CellAt;
  }

  class Trie {
    var nodes: Nodes
    var length: int
    var unused: Ptr // addresses from here on are free
    ghost var path: map<Ptr, Key>
    ghost var pins: multiset<Ptr>           // references held by iterators
    ghost var contents: map<Key, Value>
    ghost var regs: Registrations
    ghost var miscounts: nat                // removals that counted without removing

    /** The node store is well formed. */
    ghost predicate Shape()
      reads this
      ensures Shape() ==> path.Keys == nodes.Keys && HEADER in nodes && path[HEADER] == nodes[HEADER].segment == []
    {
      && Links(nodes, path)
      && Owned(nodes, path, pins)
      && (forall n :: n in nodes ==> n < unused)
    }

    ghost predicate Valid()
      reads this
    {
      && Shape()
      && Stores(nodes, contents, regs)
      && (forall k :: k in contents ==> IsKey(k))
      && length == |contents| - miscounts
      && (forall p :: p in regs ==> Distinct(regs[p]))
    }

    constructor ()
      ensures Valid() && contents == map[] && regs == map[] && pins == multiset{} && miscounts == 0
    {
      nodes := map[HEADER := NewNode(NULL, 0)];
      path := map[HEADER := []];
      length, unused, pins := 0, 2, multiset{};
      contents, regs, miscounts := map[], map[], 0;
      new;
      assert Links(nodes, path);
      forall k ensures CellAt(nodes, k) == EMPTY {
        WalkSound(nodes, path, k);
      }
    }

    // -------------------------------------------------------------- node level

    /** lib/trie.c: trie_lookup.  `seg` is how far into the segment the key ends. */
    method Lookup(key: Key, exact: bool) returns (n: Ptr, seg: nat)
      requires Shape() && IsKey(key)
      ensures n != NULL ==> Walk(nodes, key) == At(n, seg) && n in nodes && seg <= |nodes[n].segment|
      ensures n != NULL ==> n != HEADER && path[n] == key + nodes[n].segment[seg..]
      ensures n == NULL <==> Walk(nodes, key).Lost? || (exact && !EndsNode(nodes, key))
      ensures exact ==> (n == NULL <==> !EndsNode(nodes, key)) && (n != NULL ==> path[n] == key)
    {
      hide Owned, Walk;
      var cur, segCnt, i := HEADER, 0, 0;
      WalkEmpty(nodes);
      assert key[..0] == [];
      while i < |key|
        invariant 0 <= i <= |key| && Walk(nodes, key[..i]) == At(cur, segCnt)
        invariant cur in nodes && segCnt <= |nodes[cur].segment|
      {
        assert key[..i + 1] == key[..i] + [key[i]];
        WalkSnoc(nodes, key[..i], key[i]);
        WalkSound(nodes, path, key[..i + 1]);
        var d := nodes[cur];
        if |d.segment| > 0 && segCnt < |d.segment| {
          if d.segment[segCnt] == key[i] {
            segCnt := segCnt + 1;
          } else {
            LostStays(nodes, key, i + 1);
            return NULL, 0;
          }
        } else if Child(d, Index(key[i])) != NULL {
          cur, segCnt := Child(d, Index(key[i])), 0;
        } else {
          LostStays(nodes, key, i + 1);
          return NULL, 0;
        }
        i := i + 1;
      }
      assert key[..i] == key;
      WalkSound(nodes, path, key);
      if exact && |nodes[cur].segment| > 0 && segCnt < |nodes[cur].segment| {
        return NULL, 0;
      }
      return cur, segCnt;
    }

    /** lib/trie.c: new_child_node. */
    method NewChild(n: Ptr, c: Ch) returns (q: Ptr)
      requires n in nodes && (forall m :: m in nodes ==> m < unused) && NULL !in nodes
      modifies this`nodes, this`unused
      ensures q !in old(nodes) && q != NULL && nodes == AddChild(old(nodes), n, q, c)
      ensures forall m :: m in nodes ==> m < unused
    {
      q := unused;
      unused := unused + 1;
      nodes := AddChild(nodes, n, q, c);
    }

    /** lib/trie.c: trie_node_split.  No lookup sees a difference. */
    method SplitNode(n: Ptr, s: nat)
      requires Shape() && pins == multiset{} && n in nodes && n != HEADER && s < |nodes[n].segment|
      modifies this`nodes, this`unused, this`path
      ensures Shape() && SameCells(old(nodes), nodes)
      ensures n in nodes && nodes[n].segment == old(nodes[n].segment)[..s]
      ensures old(path[n]) == path[n] + old(nodes[n].segment)[s..]
      ensures forall i: nat :: i != Index(old(nodes[n].segment)[s]) ==> Child(nodes[n], i) == NULL
    {
      hide Walk, CellAt, UpLink, DownLink, SameCells, AddChild, Reparented, Split, SplitPath, Owned, Child;
      ghost var before := nodes;
      var d := nodes[n];
      nodes := nodes[n := d.(children := [])];
      var q := NewChild(n, d.segment[s]);
      nodes := nodes[q := nodes[q].(children := d.children)];
      SplitFacts(before, path, n, q, s);
      SplitInSteps(before, path, n, q, s);
      Adopt(d.children, q);
      nodes := nodes[q := nodes[q].(value := d.value, key := d.key, refcount := d.refcount,
                                    notifiers := d.notifiers, segment := d.segment[s + 1..])];
      nodes := nodes[n := nodes[n].(value := None, key := None, refcount := 0, notifiers := [],
                                    segment := d.segment[..s])];
      SplitKeeps(before, path, n, q, s);
      SplitOwned(before, path, n, q, s);
      SplitUpper(before, path, n, q, s);
      path := SplitPath(before, path, n, q, s);
    }

    /** lib/trie.c: the loop of trie_node_split over the children it moves. */
    method Adopt(children: seq<Ptr>, q: Ptr)
      requires NULL !in nodes && forall c :: c in children && c != NULL ==> c in nodes
      modifies this`nodes
      ensures nodes == Reparented(old(nodes), children, q)
    {
      var i := 0;
      while i < |children|
        invariant 0 <= i <= |children| && nodes == Reparented(old(nodes), children[..i], q)
      {
        var c := children[i];
        assert c in children;
        if c != NULL {
          nodes := nodes[c := nodes[c].(parent := q)];
        }
        i := i + 1;
      }
      assert children[..i] == children;
    }
  
    /** A new child in a free slot: no lookup sees a difference. */
    method Branch(n: Ptr, c: Ch) returns (q: Ptr)
      requires Shape() && pins == multiset{} && n in nodes && Child(nodes[n], Index(c)) == NULL
      modifies this`nodes, this`unused, this`path
      ensures Shape() && SameCells(old(nodes), nodes)
      ensures q in nodes && q != HEADER && nodes[q].segment == [] && path == old(path)[q := old(path)[n] + [c]]
      ensures n in nodes && path[n] == old(path[n]) && nodes[n].segment == old(nodes[n].segment)
    {
      hide Walk, CellAt, UpLink, DownLink, SameCells, Owned;
      q := NewChild(n, c);
      AddChildKeeps(old(nodes), path, n, q, c);
      AddChildOwned(old(nodes), path, n, q, c);
      path := path[q := path[n] + [c]];
    }

    /** A bare leaf takes one more character: no lookup sees a difference. */
    method ExtendLeaf(n: Ptr, c: Ch)
      requires Shape() && pins == multiset{} && n in nodes && n != HEADER && c != NUL
      requires CellOf(nodes[n]) == EMPTY && nodes[n].children == []
      modifies this`nodes, this`path
      ensures Shape() && SameCells(old(nodes), nodes) && n in nodes
      ensures path == old(path)[n := old(path)[n] + [c]]
      ensures nodes[n].segment == old(nodes[n].segment) + [c]
    {
      hide Walk, CellAt, UpLink, DownLink, SameCells;
      ExtendKeeps(nodes, path, n, c);
      nodes := Extend(nodes, n, c);
      path := path[n := path[n] + [c]];
    }

    /** The first i characters of the key lead to position segCnt of the segment of cur. */
    ghost predicate StandsAt(cur: Ptr, segCnt: nat, key: Key, i: nat)
      requires Shape() && i <= |key|
      reads this
    {
      && cur in nodes && segCnt <= |nodes[cur].segment|
      && path[cur] == key[..i] + nodes[cur].segment[segCnt..]
      && (cur == HEADER ==> i == 0)
    }

    /** lib/trie.c: one turn of the loop of trie_insert, for character i of the key. */
    method InsertStep(cur: Ptr, segCnt: nat, key: Key, i: nat) returns (n: Ptr, seg: nat)
      requires Shape() && pins == multiset{} && IsKey(key) && i < |key|
      requires StandsAt(cur, segCnt, key, i)
      modifies this`nodes, this`unused, this`path
      ensures Shape() && SameCells(old(nodes), nodes)
      ensures StandsAt(n, seg, key, i + 1)
    {
      hide Walk, CellAt, SameCells, UpLink, DownLink;
      SameCellsReflexive(nodes);
      var d, c := nodes[cur], key[i];
      assert key[..i + 1] == key[..i] + [c];
      if |d.segment| > 0 && segCnt < |d.segment| {
        if d.segment[segCnt] == c {
          assert d.segment[segCnt..] == [c] + d.segment[segCnt + 1..];
          n, seg := cur, segCnt + 1;
        } else {
          SplitNode(cur, segCnt);
          CancelSuffix(path[cur], key[..i], d.segment[segCnt..]);
          ghost var mid := nodes;
          n := Branch(cur, c);
          SameCellsTransitive(old(nodes), mid, nodes);
          seg := 0;
        }
      } else if Child(d, Index(c)) != NULL {
        n, seg := Child(d, Index(c)), 0;
        ChildPath(nodes, path, cur, c);
      } else if cur == HEADER {
        n := Branch(cur, c);
        seg := 0;
      } else if d.value == None && d.notifiers == [] && |d.children| == 0 && segCnt == |d.segment| {
        ExtendLeaf(cur, c);
        n, seg := cur, segCnt + 1;
      } else if segCnt == |d.segment| {
        n := Branch(cur, c);
        seg := 0;
      } else {
        assert false; // inside a segment: the first case
      }
    }

    /**
     lib/trie.c: trie_insert.  Whatever is split, extended or added on the way, no
     lookup of any key sees a difference; the node returned ends at `key`.
     */
    method Insert(key: Key) returns (n: Ptr)
      requires Shape() && pins == multiset{} && IsKey(key)
      modifies this`nodes, this`unused, this`path
      ensures Shape() && SameCells(old(nodes), nodes)
      ensures n in nodes && n != HEADER && path[n] == key
    {
      hide Walk, CellAt, SameCells, UpLink, DownLink, Owned, IsKey;
      var segCnt;
      n, segCnt := InsertAll(key);
      if |nodes[n].segment| > 0 && segCnt < |nodes[n].segment| {
        ghost var whole := nodes;
        SplitAtEnd(n, segCnt, key);
        SameCellsTransitive(old(nodes), whole, nodes);
      } else {
        assert nodes[n].segment[segCnt..] == [] && key + [] == key;
      }
    }

    /** lib/trie.c: the loop of trie_insert. */
    method InsertAll(key: Key) returns (cur: Ptr, segCnt: nat)
      requires Shape() && pins == multiset{} && IsKey(key)
      modifies this`nodes, this`unused, this`path
      ensures Shape() && SameCells(old(nodes), nodes)
      ensures cur in nodes && cur != HEADER && segCnt <= |nodes[cur].segment|
      ensures path[cur] == key + nodes[cur].segment[segCnt..]
    {
      hide Walk, CellAt, SameCells, UpLink, DownLink, IsKey, Shape, StandsAt;
      var i: nat := 0;
      cur, segCnt := HEADER, 0;
      SameCellsReflexive(nodes);
      StandsFirst(key);
      while i < |key|
        invariant Shape() && SameCells(old(nodes), nodes) && i <= |key| && StandsAt(cur, segCnt, key, i)
      {
        ghost var before := nodes;
        cur, segCnt := InsertStep(cur, segCnt, key, i);
        SameCellsTransitive(old(nodes), before, nodes);
        i := i + 1;
      }
      StandsLast(cur, segCnt, key);
    }

    lemma StandsFirst(key: Key)
      requires Shape()
      ensures StandsAt(HEADER, 0, key, 0)
    {
      assert key[..0] == [] && nodes[HEADER].segment[0..] == [];
    }

    lemma StandsLast(cur: Ptr, segCnt: nat, key: Key)
      requires Shape() && IsKey(key) && StandsAt(cur, segCnt, key, |key|)
      ensures cur in nodes && cur != HEADER && segCnt <= |nodes[cur].segment|
      ensures path[cur] == key + nodes[cur].segment[segCnt..]
    {
      assert key[..|key|] == key;
    }

    /** lib/trie.c: the end of trie_insert, for a key that ends inside a segment. */
    method SplitAtEnd(n: Ptr, segCnt: nat, ghost key: Key)
      requires Shape() && pins == multiset{} && n in nodes && n != HEADER && segCnt < |nodes[n].segment|
      requires path[n] == key + nodes[n].segment[segCnt..]
      modifies this`nodes, this`unused, this`path
      ensures Shape() && SameCells(old(nodes), nodes)
      ensures n in nodes && path[n] == key
    {
      hide Walk, CellAt, SameCells, UpLink, DownLink, Owned, Child;
      OwnedAt(nodes, path, n);
      SplitNode(n, segCnt);
      CancelSuffix(path[n], key, old(nodes)[n].segment[segCnt..]);
      ghost var halves := nodes;
      var spare := Branch(n, NUL); // a child for the terminator, never looked up
      SameCellsTransitive(old(nodes), halves, nodes);
    }
  
    /** lib/trie.c: trie_node_release.  Bare nodes go, from `n` upward, until none is left
        on the way; no other node goes, and no lookup sees a difference. */
    method Release(n: Ptr)
      requires Shape() && pins == multiset{} && n in nodes
      modifies this`nodes, this`path
      ensures Shape() && SameCells(old(nodes), nodes)
      ensures OnlyBareGone(old(nodes), old(path), nodes, path, old(path[n])) && NoneBare(nodes, path, old(path[n]))
      decreases |path[n]|
    {
      hide Walk, CellAt, SameCells, DownLink, UpLink, OnlyBareGone, NoneBare;
      SameCellsReflexive(nodes);
      NoneGone(nodes, path, path[n]);
      var d := nodes[n];
      if d.key == None && d.parent != NULL && d.notifiers == [] {
        var empty, i := true, |d.children|;
        while i > 0
          invariant 0 <= i <= |d.children|
          invariant empty <==> forall j :: i <= j < |d.children| ==> d.children[j] == NULL
        {
          i := i - 1;
          if d.children[i] != NULL {
            empty := false;
            break;
          }
        }
        if !empty {
          assert Child(d, i) != NULL;
          InUse(nodes, path, n);
          return;
        }
        UnlinkKeeps(nodes, path, n);
        ParentPath(nodes, path, n);
        nodes := Unlink(nodes, n);
        path := path - {n};
        ghost var mid, midPath := nodes, path;
        OneGone(old(nodes), old(path), n);
        Release(d.parent);
        SameCellsTransitive(old(nodes), mid, nodes);
        GoneTransitive(old(nodes), old(path), mid, midPath, nodes, path, old(path[n]), old(path[d.parent]));
        StillThere(mid, midPath, nodes, path, old(path[d.parent]));
        NoneBareUp(old(nodes), old(path), nodes, path, n);
      } else {
        OwnedAt(nodes, path, n);
        if n != HEADER {
          ParentPath(nodes, path, n);
        }
        InUse(nodes, path, n);
      }
    }

    /** lib/trie.c: trie_notify.  The calls made for an update, in order. */
    method Notify(n: Ptr, u: Update) returns (calls: seq<Call>)
      requires Shape() && Registered(nodes, regs) && n in nodes && u.key == path[n]
      ensures calls == CallsFrom(regs, u.key, u)
    {
      hide Walk, CellAt, Owned, CallsToAll, CallsFrom, Registered, DownLink;
      calls := [];
      var c := n;
      while c != NULL
        invariant c != NULL ==> c in nodes
        invariant CallsFrom(regs, u.key, u) ==
                  calls + if c == NULL then [] else CallsFrom(regs, path[c], u)
        decreases if c == NULL then 0 else |path[c]| + 1
      {
        CallsFromNode(nodes, path, regs, c, u);
        SamePathSameNode(c, n);
        var here := CallList(nodes[c].notifiers, c == n, u);
        calls := calls + here;
        c := nodes[c].parent;
      }
    }

    lemma SamePathSameNode(c: Ptr, n: Ptr)
      requires Shape() && c in nodes && n in nodes
      ensures path[c] == path[n] <==> c == n
    {
      hide Owned, UpLink, DownLink;
      if path[c] == path[n] {
        PathsDiffer(nodes, path, c, n);
      }
    }

    /** lib/trie.c: the list loop of trie_notify. */
    method CallList(ns: seq<Notifier>, here: bool, u: Update) returns (calls: seq<Call>)
      ensures calls == CallsToAll(ns, here, u)
    {
      calls := [];
      for i := 0 to |ns|
        invariant calls == CallsToAll(ns[..i], here, u)
      {
        assert ns[..i + 1][..i] == ns[..i];
        calls := calls + CallsTo(ns[i], here, u);
      }
      assert ns[..|ns|] == ns;
    }

    // --------------------------------------------------------------- map level

    /** lib/trie.c: trie_get. */
    method Get(key: Key) returns (r: Option<Value>)
      requires Valid() && IsKey(key)
      ensures r == Find(contents, key)
    {
      hide Walk;
      var n, seg := Lookup(key, true);
      assert CellAt(nodes, key) == Cell(Find(contents, key), RegsAt(regs, key));
      if n != NULL {
        return nodes[n].value;
      }
      return None;
    }

    /** lib/trie.c: trie_count_get. */
    method CountGet() returns (n: int)
      requires Valid()
      ensures n == SizeT(|contents| - miscounts)
    {
      hide Links, Owned, Stores;
      n := SizeT(length);
    }

    /** lib/trie.c: trie_put. */
    method Put(key: Key, value: Value) returns (calls: seq<Call>)
      requires Valid() && pins == multiset{} && IsKey(key)
      modifies this
      ensures Valid() && pins == multiset{}
      ensures contents == old(contents)[key := value] && regs == old(regs)
      ensures miscounts == old(miscounts)
      ensures calls == CallsFrom(regs, key,
                if key in old(contents)
                then Update(Replaced, key, Some(old(contents)[key]), Some(value))
                else Update(Inserted, key, None, Some(value)))
      ensures Announced(regs, calls, key, Find(old(contents), key), Find(contents, key))
    {
      hide Walk, CellAt, SameCells, UpLink, DownLink, CallsFrom, Distinct, Stores, Registered, Owned, IsKey, Announced;
      AllAnnounced(regs, UpdateOf(key, Find(contents, key), Some(value)));
      var n := Insert(key);
      StoresSame(old(nodes), nodes, contents, regs);
      StoredAt(nodes, path, n, contents, regs);
      var d := nodes[n];
      var e := d.(key := Some(key), value := Some(value),
                  refcount := if d.value == None then d.refcount + 1 else d.refcount);
      OwnedAt(nodes, path, n);
      LoadOwned(nodes, path, n, e);
      LoadStores(nodes, path, n, e, contents, regs, contents[key := value], regs);
      nodes := nodes[n := e];
      contents := contents[key := value];
      if d.value == None {
        length := length + 1;
        calls := Notify(n, Update(Inserted, key, None, Some(value)));
      } else {
        assert contents.Keys == old(contents).Keys;
        calls := Notify(n, Update(Replaced, key, d.value, Some(value)));
      }
    }

    /** lib/trie.c: trie_node_deref and trie_node_destroy, where the map holds the
        only reference. */
    method Deref(n: Ptr) returns (calls: seq<Call>)
      requires Shape() && pins == multiset{} && Stores(nodes, contents, regs)
      requires n in nodes && n != HEADER
      modifies this`nodes, this`path, this`contents
      ensures Shape() && Stores(nodes, contents, regs)
      ensures contents == old(contents) - {old(path[n])}
      ensures |contents| == |old(contents)| - if old(path[n]) in old(contents) then 1 else 0
      ensures var key := old(path[n]);
              calls == if key in old(contents)
                       then CallsFrom(regs, key, Update(Deleted, key, Some(old(contents)[key]), None))
                       else []
    {
      hide Walk, CellAt, SameCells, UpLink, DownLink, CallsFrom, Stores, Registered, Owned;
      ghost var key := path[n];
      StoredAt(nodes, path, n, contents, regs);
      OwnedAt(nodes, path, n);
      RemoveSize(contents, key);
      var d := nodes[n];
      if d.value == None || d.refcount == 0 { // not alive
        assert contents == contents - {key};
        return [];
      }
      var e := d.(refcount := d.refcount - 1, key := None, value := None);
      calls := Notify(n, Update(Deleted, d.key.value, d.value, None));
      LoadOwned(nodes, path, n, e);
      LoadStores(nodes, path, n, e, contents, regs, contents - {key}, regs);
      nodes := nodes[n := e];
      contents := contents - {key};
      ghost var bare := nodes;
      Release(n);
      StoresSame(bare, nodes, contents, regs);
    }

    /**
     lib/trie.c: trie_rm.  It answers true for every key that ends a node, and
     counts one less each time, also when that node held no value.
     */
    method Rm(key: Key) returns (found: bool, calls: seq<Call>)
      requires Valid() && pins == multiset{} && IsKey(key)
      modifies this
      ensures Valid() && pins == multiset{}
      ensures contents == old(contents) - {key} && regs == old(regs)
      ensures found <==> EndsNode(old(nodes), key)
      ensures key in old(contents) ==> found
      ensures miscounts == old(miscounts) + if found && key !in old(contents) then 1 else 0
      ensures calls == if key in old(contents)
                       then CallsFrom(regs, key, Update(Deleted, key, Some(old(contents)[key]), None))
                       else []
      ensures key in old(contents) ==> Announced(regs, calls, key, Some(old(contents)[key]), None)
    {
      hide Walk, CellAt, SameCells, UpLink, DownLink, CallsFrom, Distinct, Stores, Registered, Owned, Find, RegsAt,
           Clashes, IsKey, EndsNode, Announced;
      if key in contents {
        AllAnnounced(regs, UpdateOf(key, Some(contents[key]), None));
      }
      var n, seg := Lookup(key, true);
      if n == NULL {
        NotStored(nodes, key, contents, regs);
        return false, [];
      }
      calls := Deref(n);
      length := length - 1;
      found := true;
      if key !in old(contents) {
        miscounts := miscounts + 1;
      }
    }

    /** lib/trie.c: the list loop of trie_notify_add: only one free notifier, and
        no notifier twice. */
    method Refuses(there: seq<Notifier>, f: Notifier) returns (r: bool)
      ensures r <==> Clashes(there, f)
    {
      var i := 0;
      while i < |there|
        invariant 0 <= i <= |there| && !Clashes(there[..i], f)
      {
        var g := there[i];
        if (Free in f.events && g.events == f.events) || g == f {
          return true;
        }
        i := i + 1;
      }
      assert there[..i] == there;
      return false;
    }

    /** lib/trie.c: the node that trie_notify_add registers at. */
    method NodeFor(key: Option<Key>) returns (n: Ptr)
      requires Shape() && pins == multiset{} && Stores(nodes, contents, regs)
      requires key.Some? ==> IsKey(key.value)
      modifies this`nodes, this`unused, this`path
      ensures Shape() && Stores(nodes, contents, regs)
      ensures n in nodes && path[n] == if key.Some? then key.value else []
    {
      hide Walk, CellAt, SameCells, UpLink, DownLink, Stores, Owned, IsKey, EndsNode;
      if key.None? {
        return HEADER;
      }
      var seg: nat;
      n, seg := Lookup(key.value, true);
      if n == NULL {
        n := Insert(key.value);
        StoresSame(old(nodes), nodes, contents, regs);
      }
    }

    /** lib/trie.c: trie_notify_add.  A null key registers at the header, that is
        for the empty prefix. */
    method NotifyAdd(key: Option<Key>, f: Notifier) returns (rc: int)
      requires Valid() && pins == multiset{} && (key.Some? ==> IsKey(key.value))
      modifies this
      ensures Valid() && pins == multiset{}
      ensures contents == old(contents) && miscounts == old(miscounts)
      ensures var p := if key.Some? then key.value else [];
              var tail := if key.Some? then Recursive in f.events else Free in f.events;
              var there := RegsAt(old(regs), p);
              if Clashes(there, f) then rc == EEXIST && regs == old(regs)
              else rc == 0 && regs == old(regs)[p := if tail then there + [f] else [f] + there]
    {
      hide Walk, CellAt, SameCells, UpLink, DownLink, Stores, Registered, Owned, Distinct, IsKey, Clashes, EndsNode;
      ghost var p := if key.Some? then key.value else [];
      var n := NodeFor(key);
      StoredAt(nodes, path, n, contents, regs);
      OwnedAt(nodes, path, n);
      var d := nodes[n];
      var refused := Refuses(d.notifiers, f);
      if refused {
        return EEXIST;
      }
      var tail := if key.Some? then Recursive in f.events else Free in f.events;
      var e := d.(notifiers := if tail then d.notifiers + [f] else [f] + d.notifiers);
      DistinctGrows(d.notifiers, f);
      LoadOwned(nodes, path, n, e);
      LoadStores(nodes, path, n, e, contents, regs, contents, regs[p := e.notifiers]);
      nodes := nodes[n := e];
      regs := regs[p := e.notifiers];
      rc := 0;
    }
  }

  const EEXIST := -17

  /** A registration that trie_notify_add refuses. */
  predicate Clashes(there: seq<Notifier>, f: Notifier) {
    exists g :: g in there && ((Free in f.events && g.events == f.events) || g == f)
  }

  lemma DistinctGrows(there: seq<Notifier>, f: Notifier)
    requires Distinct(there) && !Clashes(there, f)
    ensures Distinct(there + [f]) && Distinct([f] + there)
  {
  }

  lemma NotStored(ns: Nodes, k: Key, contents: map<Key, Value>, regs: Registrations)
    requires Stores(ns, contents, regs) && !EndsNode(ns, k)
    ensures k !in contents
  {
    hide Walk;
    assert CellAt(ns, k) == Cell(Find(contents, k), RegsAt(regs, k));
  }

  /** A node carries what the plain maps hold for its path. */
  lemma StoredAt(ns: Nodes, path: map<Ptr, Key>, n: Ptr, contents: map<Key, Value>, regs: Registrations)
    requires Links(ns, path) && n in ns && Stores(ns, contents, regs)
    ensures ns[n].value == Find(contents, path[n]) && ns[n].notifiers == RegsAt(regs, path[n])
    ensures Registered(ns, regs)
  {
    hide CellAt, UpLink, DownLink;
    CellAtNode(ns, path, n);
    assert CellAt(ns, path[n]) == Cell(Find(contents, path[n]), RegsAt(regs, path[n]));
  }

  /** A node given another load: only its own key sees a difference. */
  lemma LoadStores(ns: Nodes, path: map<Ptr, Key>, n: Ptr, e: Node, contents: map<Key, Value>, regs: Registrations,
                   contents': map<Key, Value>, regs': Registrations)
    requires Links(ns, path) && n in ns && Stores(ns, contents, regs)
    requires e.idx == ns[n].idx && e.segment == ns[n].segment
    requires e.children == ns[n].children && e.parent == ns[n].parent
    requires forall k :: Find(contents', k) == if k == path[n] then e.value else Find(contents, k)
    requires forall k :: RegsAt(regs', k) == if k == path[n] then e.notifiers else RegsAt(regs, k)
    ensures Links(ns[n := e], path) && Stores(ns[n := e], contents', regs')
    ensures Registered(ns[n := e], regs')
  {
    hide CellAt, UpLink, DownLink, Find, RegsAt;
    LoadKeeps(ns, path, n, e);
    forall k ensures CellAt(ns[n := e], k) == Cell(Find(contents', k), RegsAt(regs', k)) {
      assert CellAt(ns, k) == Cell(Find(contents, k), RegsAt(regs, k));
    }
  }

  lemma LoadOwned(ns: Nodes, path: map<Ptr, Key>, n: Ptr, e: Node)
    requires path.Keys == ns.Keys && n in ns && Owned(ns, path, multiset{})
    requires e.segment == ns[n].segment
    requires e.key == (if e.value.Some? then Some(path[n]) else None)
    requires e.refcount == (if e.value.Some? then 1 else 0)
    ensures Owned(ns[n := e], path, multiset{})
  {
  }

  lemma OwnedAt(ns: Nodes, path: map<Ptr, Key>, n: Ptr)
    requires path.Keys == ns.Keys && n in ns && Owned(ns, path, multiset{})
    ensures ns[n].refcount == (if ns[n].value.Some? then 1 else 0)
    ensures ns[n].key == (if ns[n].value.Some? then Some(path[n]) else None)
    ensures NUL !in ns[n].segment
  {
  }

  /** `k` spells the way to the very end of a node. */
  ghost predicate EndsNode(ns: Nodes, k: Key) {
    var p := Walk(ns, k);
    p.At? && p.node in ns && p.seg == |ns[p.node].segment|
  }

  /** A key that notifiers are registered for has a node, with or without a value. */
  lemma RegisteredEnds(t: Trie, k: Key)
    requires t.Valid() && RegsAt(t.regs, k) != []
    ensures EndsNode(t.nodes, k)
  {
    hide Walk;
    assert CellAt(t.nodes, k) == Cell(Find(t.contents, k), RegsAt(t.regs, k));
  }

  /** The count can fall below the number of keys: a removal of a key that was never
      put, but watched, is reported as done and takes the count of an empty map below
      zero, where it wraps around. */
  method MiscountedRemoval(k: Key, f: Notifier) returns (found: bool, n: int)
    requires IsKey(k)
    ensures found && n == U64 - 1
  {
    hide Trie.Valid;
    var t := new Trie();
    var rc := t.NotifyAdd(Some(k), f);
    RegisteredEnds(t, k);
    var calls;
    found, calls := t.Rm(k);
    n := t.CountGet();
  }

  /** No value, no notifiers, no children. */
  ghost predicate Bare(d: Node) {
    CellOf(d) == EMPTY && forall i: nat :: Child(d, i) == NULL
  }

  /** The nodes that are gone were empty and on the way to `k`; the others are where they
      were, with what they carried. */
  ghost predicate OnlyBareGone(ns: Nodes, path: map<Ptr, Key>, ns': Nodes, path': map<Ptr, Key>, k: Key)
    requires path.Keys == ns.Keys && path'.Keys == ns'.Keys
  {
    && (forall m :: m in ns' ==> m in ns && path'[m] == path[m] && CellOf(ns'[m]) == CellOf(ns[m]))
    && (forall m :: m in ns && m !in ns' ==> path[m] <= k && CellOf(ns[m]) == EMPTY)
  }

  /** No node on the way to `k` is bare, the header aside. */
  ghost predicate NoneBare(ns: Nodes, path: map<Ptr, Key>, k: Key)
    requires path.Keys == ns.Keys
  {
    forall m :: m in ns && m != HEADER && path[m] <= k ==> !Bare(ns[m])
  }

  lemma NoneGone(ns: Nodes, path: map<Ptr, Key>, k: Key)
    requires path.Keys == ns.Keys
    ensures OnlyBareGone(ns, path, ns, path, k)
  {
  }

  /** A node above another has a child. */
  lemma NotBareAbove(ns: Nodes, path: map<Ptr, Key>, n: Ptr, m: Ptr)
    requires Links(ns, path) && n in ns && m in ns && path[m] < path[n]
    ensures !Bare(ns[m])
  {
    hide UpLink, DownLink;
    var k, j := path[n], |path[m]|;
    WalkToNode(ns, path, m);
    WalkToNode(ns, path, n);
    assert k[..j + 1] == path[m] + [k[j]];
    WalkSnoc(ns, path[m], k[j]);
    if Walk(ns, k[..j + 1]).Lost? {
      LostStays(ns, k, j + 1);
    }
    assert Child(ns[m], Index(k[j])) != NULL;
  }

  /** Where a node is in use nothing above it is bare either. */
  lemma InUse(ns: Nodes, path: map<Ptr, Key>, n: Ptr)
    requires Links(ns, path) && n in ns && (n == HEADER || !Bare(ns[n]))
    ensures NoneBare(ns, path, path[n])
  {
    hide UpLink, DownLink, Bare;
    forall m | m in ns && m != HEADER && path[m] <= path[n] ensures !Bare(ns[m]) {
      if path[m] == path[n] {
        PathsDiffer(ns, path, m, n);
      } else {
        NotBareAbove(ns, path, n, m);
      }
    }
  }

  lemma ParentPath(ns: Nodes, path: map<Ptr, Key>, n: Ptr)
    requires Links(ns, path) && n in ns && n != HEADER
    ensures ns[n].parent in ns && path[ns[n].parent] < path[n]
  {
    hide DownLink;
    assert UpLink(ns, path, n);
  }

  lemma OneGone(ns: Nodes, path: map<Ptr, Key>, n: Ptr)
    requires Links(ns, path) && n in ns && n != HEADER && CellOf(ns[n]) == EMPTY
    requires ns[n].parent in ns && ns[n].idx < |ns[ns[n].parent].children|
    ensures OnlyBareGone(ns, path, Unlink(ns, n), path - {n}, path[n])
  {
    hide DownLink;
    assert UpLink(ns, path, n);
  }

  lemma GoneTransitive(a: Nodes, aPath: map<Ptr, Key>, b: Nodes, bPath: map<Ptr, Key>, c: Nodes, cPath: map<Ptr, Key>,
                       k: Key, p: Key)
    requires aPath.Keys == a.Keys && bPath.Keys == b.Keys && cPath.Keys == c.Keys && p <= k
    requires OnlyBareGone(a, aPath, b, bPath, k) && OnlyBareGone(b, bPath, c, cPath, p)
    ensures OnlyBareGone(a, aPath, c, cPath, k)
  {
  }

  /** Between a node and its parent there is no other. */
  lemma NothingBetween(ns: Nodes, path: map<Ptr, Key>, n: Ptr, m: Ptr)
    requires Links(ns, path) && n in ns && n != HEADER && m in ns && ns[n].parent in ns
    requires path[m] <= path[n] && !(path[m] <= path[ns[n].parent])
    ensures m == n
  {
    hide DownLink, Walk;
    assert UpLink(ns, path, n);
    var up := path[ns[n].parent];
    var s := |path[m]| - |up| - 1;
    assert path[n] == up + [Char(ns[n].idx)] + ns[n].segment;
    assert up == path[n][..|up|] && path[m] == path[n][..|path[m]|];
    assert |path[m]| > |up|;
    WalkComplete(ns, path, n, s);
    assert Spelled(ns, path, n, s) == path[n][..|path[m]|] == path[m];
    WalkToNode(ns, path, m);
  }

  lemma NoneBareUp(a: Nodes, aPath: map<Ptr, Key>, c: Nodes, cPath: map<Ptr, Key>, n: Ptr)
    requires Links(a, aPath) && n in a && n != HEADER && a[n].parent in a && n !in c && cPath.Keys == c.Keys
    requires forall m :: m in c ==> m in a && cPath[m] == aPath[m]
    requires NoneBare(c, cPath, aPath[a[n].parent])
    ensures NoneBare(c, cPath, aPath[n])
  {
    hide UpLink, DownLink, Bare;
    forall m | m in c && m != HEADER && cPath[m] <= aPath[n] ensures !Bare(c[m]) {
      if !(cPath[m] <= aPath[a[n].parent]) {
        NothingBetween(a, aPath, n, m);
      }
    }
  }

  lemma StillThere(ns: Nodes, path: map<Ptr, Key>, ns': Nodes, path': map<Ptr, Key>, k: Key)
    requires path.Keys == ns.Keys && path'.Keys == ns'.Keys && OnlyBareGone(ns, path, ns', path', k)
    ensures forall m :: m in ns' ==> m in ns && path'[m] == path[m]
  {
  }

  lemma CancelSuffix(a: Key, b: Key, c: Key)
    requires a + c == b + c
    ensures a == b
  {
    assert |a| == |b|;
    assert a == (a + c)[..|a|];
    assert b == (b + c)[..|b|];
  }

  lemma ChildPath(ns: Nodes, path: map<Ptr, Key>, n: Ptr, c: Ch)
    requires Links(ns, path) && n in ns && Child(ns[n], Index(c)) != NULL
    ensures var m := Child(ns[n], Index(c));
            m in ns && m != HEADER && path[m] == path[n] + [c] + ns[m].segment
  {
    assert DownLink(ns, n, Index(c));
    assert Char(Index(c)) == c;
    var m := Child(ns[n], Index(c));
    assert m in ns && UpLink(ns, path, m);
  }

  lemma {:induction false} LostStays(ns: Nodes, k: Key, j: nat)
    requires j <= |k| && Walk(ns, k[..j]).Lost?
    ensures Walk(ns, k).Lost?
    decreases |k| - j
  {
    if j < |k| {
      assert k[..j + 1] == k[..j] + [k[j]];
      WalkSnoc(ns, k[..j], k[j]);
      LostStays(ns, k, j + 1);
    } else {
      assert k[..j] == k;
    }
  }
}
