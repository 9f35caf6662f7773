/**
 The skip list map: put, get and rm for every choice of node levels, with no
 iterator at work, proved against a plain map.
 */
module SkipListMap {
  import opened Common
  import opened MapTypes
  import opened StrCmp
  import opened SkipLanes

  datatype Op = GotoNextLevel | GotoNextNode | Finish

  /** lib/skiplist.c: op_search. */
  function OpSearch(ns: SkipNodes, fwd: Ptr, key: Key): (op: Op)
    requires fwd != NULL ==> fwd in ns && ns[fwd].key.Some?
  {
    if fwd == NULL then GotoNextLevel
    else
      var cmp := Compare(ns[fwd].key.value, key);
      if cmp < 0 then GotoNextNode else if cmp == 0 then Finish else GotoNextLevel
  }

  /** The nodes of the lowest lane hold exactly `contents`. */
  ghost predicate Holds(ns: SkipNodes, lane: seq<Ptr>, contents: map<Key, Value>) {
    && (forall p :: p in lane ==>
          p in ns && ns[p].key.Some? && ns[p].key.value in contents && contents[ns[p].key.value] == ns[p].value)
    && (forall k :: k in contents ==> exists p :: p in lane && p in ns && ns[p].key == Some(k))
  }

  lemma AbsentAt(ns: SkipNodes, lane: seq<Ptr>, k: Key, i: nat)
    requires Keyed(ns, lane) && Sorted(ns, lane) && i <= |lane|
    requires i > 0 ==> Compare(KeyAt(ns, lane, i - 1), k) < 0
    requires i < |lane| ==> Compare(KeyAt(ns, lane, i), k) > 0
    ensures forall j :: 0 <= j < |lane| ==> KeyAt(ns, lane, j) != k
  {
    hide Compare;
    RankUnique(ns, lane, k, i);
    RankSplits(ns, lane, k);
    CompareEqual(k, k);
    forall j | 0 <= j < |lane| ensures KeyAt(ns, lane, j) != k {
      if j > i {
        assert Compare(KeyAt(ns, lane, i), KeyAt(ns, lane, j)) < 0;
        CompareSwap(k, KeyAt(ns, lane, i));
        CompareTransitive(k, KeyAt(ns, lane, i), KeyAt(ns, lane, j));
      }
    }
  }

  /** From a node of a lane, or the header, the lane leads to a node of it, or ends. */
  lemma NextInLane(ns: SkipNodes, fs: Arrays, lane: seq<Ptr>, l: nat, p: Ptr)
    requires LaneOk(ns, fs, lane, l) && (p == HEADER || p in lane)
    ensures var n := Forward(ns, fs, p, l);
            n == NULL || (n in lane && n in ns)
  {
    hide Compare, Forward, Sorted;
    var i := 0;
    if p != HEADER {
      var x :| 0 <= x < |lane| && lane[x] == p;
      i := x + 1;
    }
    assert Stop(lane, i) == p;
    assert Forward(ns, fs, Stop(lane, i), l) == if i < |lane| then lane[i] else NULL;
  }

  /** A stop of one lane is a stop of the lane below. */
  lemma StepDown(ns: SkipNodes, fs: Arrays, lanes: seq<seq<Ptr>>, l: nat, i: nat) returns (j: nat)
    requires 1 <= l < |lanes| && LaneOk(ns, fs, lanes[l], l) && NULL !in ns && Nested(lanes, NULL) && i <= |lanes[l]|
    ensures j <= |lanes[l - 1]| && Stop(lanes[l - 1], j) == Stop(lanes[l], i)
    ensures i == 0 <==> j == 0
  {
    if i == 0 {
      j := 0;
    } else {
      LaneInNodes(ns, fs, lanes[l], l);
      hide LaneOk;
      var p := lanes[l][i - 1];
      assert p in lanes[l];
      assert Within(lanes[l], lanes[l - 1], NULL);
      var x :| 0 <= x < |lanes[l - 1]| && lanes[l - 1][x] == p;
      j := x + 1;
    }
  }

  /** The header alone, with nothing to lead to. */
  lemma EmptyShape(ns: SkipNodes, fs: Arrays, lanes: seq<seq<Ptr>>)
    requires ns.Keys == {HEADER} && ns[HEADER].forward == 0 && fs == map[0 := seq(LANES, _ => NULL)]
    requires |lanes| == LANES && forall l :: 0 <= l < LANES ==> lanes[l] == []
    ensures Shape(ns, fs, lanes, NULL) && Holds(ns, [], map[])
  {
    forall l | 0 <= l < LANES ensures LaneOk(ns, fs, lanes[l], l) {
      EmptyLane(ns, fs, l);
    }
  }

  class SkipList {
    var nodes: SkipNodes
    var arrays: Arrays
    var level: int
    var length: int
    var unused: Ptr
    var unusedArray: ArrayPtr
    ghost var lanes: seq<seq<Ptr>>
    ghost var contents: map<Key, Value>

    ghost predicate Valid()
      reads this
    {
      && Shape(nodes, arrays, lanes, NULL) && |lanes| == LANES
      && HEADER in nodes && nodes[HEADER].key == None
      && (forall p :: p in nodes ==> nodes[p].refcount == 1 && p < unused && (p == HEADER || p in lanes[0]))
      && (forall a :: a in arrays ==> a < unusedArray)
      && -1 <= level <= LEVEL_MAX
      && (forall l :: level < l < LANES ==> lanes[l] == [])
      && Holds(nodes, lanes[0], contents)
      && length == |contents| == |lanes[0]|
    }

    constructor ()
      ensures Valid() && contents == map[]
    {
      nodes := map[HEADER := SkipNode(None, 0, LEVEL_MAX, 1, 0)];
      arrays := map[0 := seq(LANES, _ => NULL)];
      level, length, unused, unusedArray := 0, 0, 2, 1;
      lanes := seq(LANES, _ => []);
      contents := map[];
      new;
      hide Shape, Holds;
      EmptyShape(nodes, arrays, lanes);
    }

    /** Where a search stands: at stop `i` of lane `lv`, before the key. */
    ghost predicate Stands(cur: Ptr, lv: int, i: nat, key: Key)
      requires Valid() && lv <= level
      reads this
    {
      if lv < 0 then cur == Pred(nodes, lanes[0], key)
      else
        && i <= |lanes[lv]| && cur == Stop(lanes[lv], i)
        && (i > 0 ==> Compare(KeyAt(nodes, lanes[lv], i - 1), key) < 0)
    }

    /** What one turn of a search loop finds, and where it leads. */
    lemma Turn(cur: Ptr, lv: int, i: nat, key: Key) returns (j: nat)
      requires Valid() && 0 <= lv <= level && Stands(cur, lv, i, key)
      ensures cur in nodes
      ensures var fwd := Forward(nodes, arrays, cur, lv);
              && fwd == (if i < |lanes[lv]| then lanes[lv][i] else NULL)
              && (fwd != NULL <==> i < |lanes[lv]|)
              && (fwd != NULL ==> fwd in nodes && nodes[fwd].key.Some? && fwd in lanes[0])
              && (if OpSearch(nodes, fwd, key) == GotoNextNode
                  then Stands(fwd, lv, i + 1, key)
                  else Stands(cur, lv - 1, j, key) && Pred(nodes, lanes[lv], key) == cur)
              && (OpSearch(nodes, fwd, key) == GotoNextLevel && lv == 0 ==> key !in contents)
    {
      hide Compare, Forward, Rank, Owned, Topped;
      assert LaneOk(nodes, arrays, lanes[lv], lv);
      assert Forward(nodes, arrays, Stop(lanes[lv], i), lv) == if i < |lanes[lv]| then lanes[lv][i] else NULL;
      var fwd := Forward(nodes, arrays, cur, lv);
      if i < |lanes[lv]| {
        assert fwd == lanes[lv][i] && fwd in nodes && fwd != HEADER;
      }
      j := 0;
      if OpSearch(nodes, fwd, key) != GotoNextNode {
        RankUnique(nodes, lanes[lv], key, i);
        if lv > 0 {
          j := StepDown(nodes, arrays, lanes, lv, i);
          assert LaneOk(nodes, arrays, lanes[lv - 1], lv - 1);
        } else if OpSearch(nodes, fwd, key) == GotoNextLevel {
          AbsentAt(nodes, lanes[0], key, i);
          Absent(key);
        }
      }
    }

    lemma Absent(key: Key)
      requires Valid() && forall j :: 0 <= j < |lanes[0]| ==> KeyAt(nodes, lanes[0], j) != key
      ensures key !in contents
    {
      hide Compare, Forward, Owned, Topped, Nested;
      assert LaneOk(nodes, arrays, lanes[0], 0);
      forall p | p in lanes[0] ensures p in nodes && nodes[p].key != Some(key) {
        var x :| 0 <= x < |lanes[0]| && lanes[0][x] == p;
        assert nodes[p].key == Some(KeyAt(nodes, lanes[0], x));
      }
    }

    /** A search begins at the header, which stops every lane. */
    lemma Start(key: Key)
      requires Valid()
      ensures Stands(HEADER, level, 0, key)
      ensures level < 0 ==> key !in contents
    {
      assert LaneOk(nodes, arrays, lanes[0], 0);
      if level < 0 {
        Absent(key);
      }
    }

    /** lib/skiplist.c: skiplist_lookup. */
    method Lookup(key: Key) returns (n: Ptr)
      requires Valid()
      ensures n == NULL <==> key !in contents
      ensures n != NULL ==> n in nodes && n in lanes[0] && nodes[n].key == Some(key)
    {
      hide Compare, Forward, Rank, Shape;
      var cur, lv := HEADER, level;
      ghost var i: nat := 0;
      Start(key);
      while lv >= 0
        invariant -1 <= lv <= level && Stands(cur, lv, i, key)
        invariant lv < 0 ==> key !in contents
        decreases lv + 1, if lv < 0 then 0 else |lanes[lv]| - i
      {
        ghost var j := Turn(cur, lv, i, key);
        var fwd := Forward(nodes, arrays, cur, lv);
        match OpSearch(nodes, fwd, key)
        case Finish =>
          CompareEqual(nodes[fwd].key.value, key);
          return fwd;
        case GotoNextNode =>
          cur, i := fwd, i + 1;
        case GotoNextLevel =>
          lv, i := lv - 1, j;
      }
      return NULL;
    }

    /** lib/skiplist.c: skiplist_count_get. */
    method CountGet() returns (n: int)
      requires Valid()
      ensures n == SizeT(|contents|)
    {
      n := SizeT(length);
    }

    /** lib/skiplist.c: skiplist_get. */
    method Get(key: Key) returns (r: Option<Value>)
      requires Valid()
      ensures r == Find(contents, key)
    {
      hide Shape;
      var n := Lookup(key);
      return if n != NULL then Some(nodes[n].value) else None;
    }

    ghost predicate Trail(update: seq<Ptr>, key: Key, lv: int)
      requires Valid()
      reads this
    {
      && |update| == LANES
      && forall l :: 0 <= l < LANES && lv < l <= level ==> update[l] == Pred(nodes, lanes[l], key)
    }

    lemma TrailGuides(update: seq<Ptr>, key: Key)
      requires Valid() && Trail(update, key, -1)
      ensures Guides(nodes, lanes, update, key, level)
    {
      hide Compare, Forward, Rank, Pred, Holds;
      forall l | 0 <= l <= level ensures Keyed(nodes, lanes[l]) {
        assert LaneOk(nodes, arrays, lanes[l], l);
      }
    }

    /**
     lib/skiplist.c: the search loops of skiplist_put, which stops at a match, and
     of skiplist_rm, which does not.
     */
    method Search(key: Key, stopAtMatch: bool) returns (found: Ptr, cur: Ptr, update: seq<Ptr>)
      requires Valid()
      ensures stopAtMatch ==> (found == NULL <==> key !in contents)
      ensures found != NULL ==> stopAtMatch && found in nodes && found in lanes[0] && nodes[found].key == Some(key)
      ensures found == NULL ==> |update| == LANES && Guides(nodes, lanes, update, key, level)
      ensures found == NULL ==> Keyed(nodes, lanes[0]) && cur == Pred(nodes, lanes[0], key)
    {
      hide Compare, Forward, Rank, Shape;
      var lv := level;
      cur := HEADER;
      update := seq(LANES, _ => NULL);
      ghost var i: nat := 0;
      Start(key);
      while lv >= 0
        invariant -1 <= lv <= level && Stands(cur, lv, i, key)
        invariant Trail(update, key, lv)
        invariant stopAtMatch && lv < 0 ==> key !in contents
        decreases lv + 1, if lv < 0 then 0 else |lanes[lv]| - i
      {
        ghost var j := Turn(cur, lv, i, key);
        var fwd := Forward(nodes, arrays, cur, lv);
        var updateLevel := lv;
        match OpSearch(nodes, fwd, key) {
          case Finish =>
            if stopAtMatch {
              CompareEqual(nodes[fwd].key.value, key);
              found := fwd;
              return;
            }
            lv, i := lv - 1, j;
          case GotoNextNode =>
            cur, i := fwd, i + 1;
          case GotoNextLevel =>
            lv, i := lv - 1, j;
        }
        update := update[updateLevel := cur];
      }
      found := NULL;
      TrailGuides(update, key);
      LowestKeyed();
    }

    lemma LowestKeyed()
      requires Valid()
      ensures Keyed(nodes, lanes[0])
    {
      assert LaneOk(nodes, arrays, lanes[0], 0);
    }

    /** lib/skiplist.c: skiplist_put, the level of a new node chosen by `newLevel`
        (the outcome of skiplist_level_generate). */
    method Put(key: Key, value: Value, newLevel: int)
      requires Valid() && 0 <= newLevel <= LEVEL_MAX
      modifies this
      ensures Valid() && contents == old(contents)[key := value]
      ensures key !in old(contents) ==> OnLanesUpTo(old(lanes), lanes, old(unused), newLevel)
    {
      hide Compare, Forward, Rank, Shape, Pred, Guides, Holds, OnLanesUpTo;
      var found: Ptr, cur: Ptr, update: seq<Ptr>;
      found, cur, update := Search(key, true);
      if found != NULL {
        ReplaceKeeps(nodes, arrays, lanes, found, key, value, contents);
        nodes := nodes[found := nodes[found].(key := Some(key), value := value)];
        contents := contents[key := value];
        return;
      }
      if newLevel > level {
        var l := level + 1;
        while l <= newLevel
          modifies {}
          invariant level < l <= newLevel + 1 && Guides(nodes, lanes, update, key, l - 1)
          invariant |update| == LANES
        {
          GuidesUp(nodes, lanes, update, key, l);
          update := update[l := HEADER];
          l := l + 1;
        }
        level := newLevel;
      }
      LinkNew(update, key, value, newLevel);
    }

    /** lib/skiplist.c: skiplist_node_new. */
    method NewNode(key: Key, value: Value, newLevel: int) returns (n: Ptr)
      requires Valid() && 0 <= newLevel <= LEVEL_MAX
      modifies this`nodes, this`arrays, this`unused, this`unusedArray
      ensures n == old(unused) && n !in old(nodes) && n in nodes && nodes == old(nodes)[n := nodes[n]]
      ensures nodes[n].key == Some(key) && nodes[n].value == value && nodes[n].level == newLevel
      ensures nodes[n].refcount == 1 && unused == n + 1
      ensures Shape(nodes, arrays, lanes, NULL) && forall a :: a in arrays ==> a < unusedArray
    {
      hide Compare, Forward, Rank, Shape, Pred, Holds, SetForward, Keyed, NoKey, LaneOk, Owned, Topped, Nested;
      n := unused;
      var a := unusedArray;
      var d := SkipNode(Some(key), value, newLevel, 1, a);
      AddNode(nodes, arrays, lanes, n, d);
      nodes := nodes[n := d];
      arrays := arrays[a := seq(LANES, _ => NULL)];
      unused, unusedArray := n + 1, a + 1;
    }

    /** lib/skiplist.c: the new node is dropped into the lanes up to its level. */
    method LinkNew(update: seq<Ptr>, key: Key, value: Value, newLevel: int)
      requires Valid() && 0 <= newLevel <= level && key !in contents
      requires Guides(nodes, lanes, update, key, level)
      modifies this
      ensures Valid() && contents == old(contents)[key := value]
      ensures OnLanesUpTo(old(lanes), lanes, old(unused), newLevel)
    {
      hide Compare, Forward, Rank, Shape, Pred, Holds, SetForward, Inserted, Keyed, NoKey, Gains, Guides, KeyAt,
           LaneOk, Owned, Topped, Nested, OnLanesUpTo;
      ghost var before, lanes0 := nodes, lanes;
      GuidesAt(nodes, lanes, update, key, level, 0);
      Fresh(key);
      var n := NewNode(key, value, newLevel);
      LinkAll(n, update, key, newLevel, before, level);
      LowestGains(lanes0, lanes, n, newLevel);
      HoldsGains(before, nodes, lanes0[0], lanes[0], n, contents, key, value);
      AllInLowest(before, nodes, lanes0[0], lanes[0], n);
      contents := contents[key := value];
      length := length + 1;
    }

    method LinkAll(n: Ptr, update: seq<Ptr>, key: Key, newLevel: int, ghost before: SkipNodes, ghost top: int)
      requires Shape(nodes, arrays, lanes, NULL) && |lanes| == |update| == LANES && 0 <= newLevel <= top < LANES
      requires n !in before && HEADER in before && n in nodes && nodes == before[n := nodes[n]]
      requires nodes[n].key == Some(key) && nodes[n].level == newLevel
      requires Guides(before, lanes, update, key, top)
      requires forall l :: 0 <= l < LANES ==> Keyed(before, lanes[l]) && NoKey(before, lanes[l], key)
      modifies this`arrays, this`lanes
      ensures Shape(nodes, arrays, lanes, NULL) && |lanes| == LANES && arrays.Keys == old(arrays).Keys
      ensures OnLanesUpTo(old(lanes), lanes, n, newLevel)
      ensures forall m :: newLevel < m < LANES ==> lanes[m] == old(lanes)[m]
    {
      hide Compare, Forward, Rank, Shape, Pred, Keyed, NoKey, Gains, Guides;
      ghost var lanes0 := lanes;
      var l: nat := 0;
      while l <= newLevel
        invariant l <= newLevel + 1 && |lanes| == LANES && Shape(nodes, arrays, lanes, NULL)
        invariant arrays.Keys == old(arrays).Keys
        invariant forall m :: 0 <= m < l ==> Gains(lanes0[m], lanes[m], n)
        invariant forall m :: l <= m < LANES ==> lanes[m] == lanes0[m]
      {
        GuidesAt(before, lanes0, update, key, top, l);
        StillFresh(before, nodes, arrays, lanes0, lanes, l, n, key);
        LinkLane(n, l, update[l], key);
        l := l + 1;
      }
    }

    /** lib/skiplist.c: one turn of the loop that links the new node. */
    method LinkLane(n: Ptr, l: nat, pred: Ptr, key: Key)
      requires Shape(nodes, arrays, lanes, NULL) && |lanes| == LANES && l < LANES
      requires n in nodes && n != HEADER && n !in lanes[l] && (l > 0 ==> n in lanes[l - 1])
      requires nodes[n].key == Some(key) && nodes[n].level >= l
      requires Keyed(nodes, lanes[l]) && pred == Pred(nodes, lanes[l], key)
      requires forall i :: 0 <= i < |lanes[l]| ==> KeyAt(nodes, lanes[l], i) != key
      modifies this`arrays, this`lanes
      ensures |lanes| == LANES && Shape(nodes, arrays, lanes, NULL)
      ensures lanes == old(lanes)[l := lanes[l]] && Gains(old(lanes)[l], lanes[l], n)
      ensures arrays.Keys == old(arrays).Keys
    {
      hide Compare, Forward, Rank, AllLanes, Nested, Topped, SetForward, Inserted;
      LinkAt(nodes, arrays, lanes, l, n, key);
      GainsInserted(lanes[l], Rank(nodes, lanes[l], key), n);
      arrays := SetForward(nodes, arrays, n, l, Forward(nodes, arrays, pred, l));
      arrays := SetForward(nodes, arrays, pred, l, n);
      lanes := lanes[l := Inserted(lanes[l], Rank(nodes, lanes[l], key), n)];
    }

    /** lib/skiplist.c: skiplist_node_next. */
    method NodeNext(p: Ptr) returns (n: Ptr)
      requires Valid() && p in nodes
      ensures n == Forward(nodes, arrays, p, 0)
    {
      hide Compare, Owned, Topped, Nested, Forward, LaneOk, Holds;
      n := Forward(nodes, arrays, p, 0);
      NextInLane(nodes, arrays, lanes[0], 0, p);
      // the search for a referenced node ends at once: all that are linked have one
      assert n != NULL ==> n in nodes && nodes[n].refcount > 0;
    }

    /**
     lib/skiplist.c: skiplist_rm.  Removing the first node makes the header take
     over its forward array, and with that drops the lanes above its level.
     */
    method Rm(key: Key) returns (found: bool)
      requires Valid()
      modifies this
      ensures Valid() && contents == old(contents) - {key}
      ensures found <==> key in old(contents)
    {
      hide Compare, Forward, Rank, Shape, Pred, Guides, Holds, Loses;
      var none: Ptr, cur: Ptr, update: seq<Ptr>;
      none, cur, update := Search(key, false);
      PredStops(cur, key);
      var n := NodeNext(cur);
      if n == NULL || Compare(nodes[n].key.value, key) != 0 {
        assert contents == contents - {key};
        return false;
      }
      Remove(n, cur, update, key);
      LowerLevel();
      found := true;
    }

    /** The steps of skiplist_rm between the search and the trimming of levels. */
    method Remove(n: Ptr, cur: Ptr, update: seq<Ptr>, key: Key)
      requires Valid() && n in nodes && n != HEADER && n in lanes[0] && nodes[n].key == Some(key)
      requires key in contents && cur in nodes
      requires |update| == LANES && Guides(nodes, lanes, update, key, level)
      modifies this`nodes, this`arrays, this`lanes, this`contents, this`length
      ensures Valid() && contents == old(contents) - {key}
    {
      hide Compare, Forward, Shape, Guides, Holds, Loses, SameData, Rank, Pred, Keyed;
      ghost var ns0, lanes0 := nodes, lanes;
      OnlyNode(n, key);
      TakeOut(n, cur, update, key);
      HoldsLoses(ns0, nodes, lanes0[0], lanes[0], n, contents, key);
      Settled(ns0, nodes, lanes0[0], lanes[0], n, unused);
      RemoveSize(contents, key);
      contents := contents - {key};
      length := length - 1;
    }

    method TakeOut(n: Ptr, cur: Ptr, update: seq<Ptr>, key: Key)
      requires Valid() && n in nodes && n != HEADER && n in lanes[0] && nodes[n].key == Some(key) && cur in nodes
      requires nodes[n].level >= 0 && (nodes[cur].key == None <==> cur == HEADER)
      requires |update| == LANES && Guides(nodes, lanes, update, key, level)
      modifies this`nodes, this`arrays, this`lanes
      ensures Shape(nodes, arrays, lanes, NULL) && |lanes| == |old(lanes)| == LANES && arrays.Keys <= old(arrays).Keys
      ensures nodes.Keys == old(nodes).Keys - {n} && SameData(old(nodes), nodes) && Loses(old(lanes)[0], lanes[0], n)
      ensures forall l :: 0 <= l < LANES && level < l ==> lanes[l] == []
    {
      hide Compare, Forward, Shape, Guides, Holds, Loses, SameData, Rank, Pred, Keyed;
      Splice(n, update, key);
      Detach(n, cur);
    }

    lemma OnlyNode(n: Ptr, key: Key)
      requires Valid() && n in nodes && n in lanes[0] && nodes[n].key == Some(key)
      ensures nodes[n].level >= 0
      ensures forall p :: p in lanes[0] && p in nodes && nodes[p].key == Some(key) ==> p == n
      ensures forall p :: p in nodes ==> (nodes[p].key == None <==> p == HEADER)
    {
      hide Compare, Forward, Owned, Topped, Nested;
      assert LaneOk(nodes, arrays, lanes[0], 0);
      forall p | p in lanes[0] && p in nodes && nodes[p].key == Some(key) ensures p == n {
        SameKeySameNode(nodes, arrays, lanes[0], p, n);
      }
    }

    /** What follows the last node before the key is the key's node, if any is. */
    lemma PredStops(cur: Ptr, key: Key)
      requires Valid() && Keyed(nodes, lanes[0]) && cur == Pred(nodes, lanes[0], key)
      ensures cur in nodes
      ensures var n := Forward(nodes, arrays, cur, 0);
              && (n != NULL ==> n in nodes && n != HEADER && nodes[n].key.Some? && n in lanes[0])
              && (n != NULL && Compare(nodes[n].key.value, key) == 0 ==> nodes[n].key == Some(key) && key in contents)
              && (n == NULL || Compare(nodes[n].key.value, key) != 0 ==> key !in contents)
    {
      hide Compare, Forward, Rank, Owned, Topped, Nested;
      var lane := lanes[0];
      assert LaneOk(nodes, arrays, lane, 0);
      var r := Rank(nodes, lane, key);
      RankSplits(nodes, lane, key);
      var n := Forward(nodes, arrays, cur, 0);
      assert Forward(nodes, arrays, Stop(lane, r), 0) == if r < |lane| then lane[r] else NULL;
      assert n != NULL ==> n == lane[r];
      if n != NULL {
        CompareEqual(nodes[n].key.value, key);
      }
      if n == NULL || Compare(nodes[n].key.value, key) != 0 {
        assert r < |lane| ==> Compare(KeyAt(nodes, lane, r), key) > 0;
        AbsentAt(nodes, lane, key, r);
        Absent(key);
      }
    }

    /** lib/skiplist.c: the loop of skiplist_rm that splices the node out. */
    method Splice(n: Ptr, update: seq<Ptr>, key: Key)
      requires Valid() && n in nodes && n != HEADER && n in lanes[0] && nodes[n].key == Some(key)
      requires |update| == LANES && Guides(nodes, lanes, update, key, level)
      modifies this`arrays, this`lanes
      ensures Shape(nodes, arrays, lanes, n) && |lanes| == LANES && arrays.Keys == old(arrays).Keys
      ensures |old(lanes)| == LANES
      ensures forall l :: 0 <= l < LANES ==> Loses(old(lanes)[l], lanes[l], n) && n !in lanes[l]
      ensures forall l :: 0 <= l < LANES && level < l ==> lanes[l] == []
    {
      hide Compare, Forward, Rank, Shape, Pred, Guides, Holds, Loses, SetForward;
      ghost var lanes0 := lanes;
      Relax(nodes, arrays, lanes, n);
      EmptyLoses(lanes, level, n);
      var l: nat := 0;
      while l <= level
        modifies this`arrays, this`lanes
        invariant l <= level + 1 && |lanes| == LANES && Shape(nodes, arrays, lanes, n)
        invariant arrays.Keys == old(arrays).Keys
        invariant forall m :: 0 <= m < l ==> Loses(lanes0[m], lanes[m], n)
        invariant forall m :: l <= m < LANES ==> lanes[m] == lanes0[m]
      {
        GuidesAt(nodes, lanes0, update, key, level, l);
        ghost var r := SpliceAt(nodes, arrays, lanes, l, update[l], n, key);
        if Forward(nodes, arrays, update[l], l) == n {
          arrays := SetForward(nodes, arrays, update[l], l, Forward(nodes, arrays, n, l));
          lanes := lanes[l := Removed(lanes[l], r)];
        }
        l := l + 1;
      }
      AllLose(lanes0, lanes, n);
    }

    /** lib/skiplist.c: the unlinked node is freed; if it came first, the header
        takes over its forward array. */
    method Detach(n: Ptr, cur: Ptr)
      requires Shape(nodes, arrays, lanes, n) && |lanes| == LANES && n in nodes && n != HEADER
      requires nodes[n].level >= 0 && nodes[n].refcount == 1 && cur in nodes
      requires nodes[cur].key == None <==> cur == HEADER
      requires forall l :: 0 <= l < LANES ==> n !in lanes[l]
      modifies this`arrays, this`lanes, this`nodes
      ensures Shape(nodes, arrays, lanes, NULL) && |lanes| == LANES && arrays.Keys <= old(arrays).Keys
      ensures nodes.Keys == old(nodes).Keys - {n} && SameData(old(nodes), nodes)
      ensures forall l :: 0 <= l < LANES ==> lanes[l] == old(lanes)[l] || (l > 0 && lanes[l] == [])
    {
      hide Compare, Forward, Shape, SetForward;
      var a := nodes[n].forward;
      if nodes[n].refcount > 1 || nodes[cur].key == None {
        CopyHeader(n);
        TakeOver(nodes, arrays, lanes, n);
        lanes := Lowered(lanes, nodes[n].level);
        arrays := arrays - {nodes[HEADER].forward};
        nodes := nodes[HEADER := nodes[HEADER].(forward := a)] - {n};
      } else {
        DropNode(nodes, arrays, lanes, n);
        nodes := nodes - {n};
        arrays := arrays - {a};
      }
    }

    /** lib/skiplist.c: the header's pointers are copied into the node's array. */
    method CopyHeader(n: Ptr)
      requires Shape(nodes, arrays, lanes, n) && |lanes| == LANES && n in nodes && n != HEADER
      requires forall l :: 0 <= l < LANES ==> n !in lanes[l]
      modifies this`arrays
      ensures Shape(nodes, arrays, lanes, n) && HEADER in nodes && arrays.Keys == old(arrays).Keys
      ensures forall l: nat :: l <= nodes[n].level ==> Forward(nodes, arrays, n, l) == Forward(nodes, arrays, HEADER, l)
    {
      hide Compare, Forward, Shape, SetForward;
      ShapeHeader(nodes, arrays, lanes, n);
      var l: nat := 0;
      while l <= nodes[n].level && l < LANES
        invariant l <= LANES && Shape(nodes, arrays, lanes, n) && arrays.Keys == old(arrays).Keys
        invariant forall m: nat :: m < l ==> Forward(nodes, arrays, n, m) == Forward(nodes, arrays, HEADER, m)
      {
        CopyOne(nodes, arrays, lanes, n, l);
        arrays := SetForward(nodes, arrays, n, l, Forward(nodes, arrays, HEADER, l));
        l := l + 1;
      }
      BeyondWidth(nodes, arrays, lanes, n);
    }

    /** lib/skiplist.c: unused levels are taken off the list. */
    method LowerLevel()
      requires Shape(nodes, arrays, lanes, NULL) && |lanes| == LANES && -1 <= level <= LEVEL_MAX
      requires forall l :: level < l < LANES ==> lanes[l] == []
      modifies this`level
      ensures -1 <= level <= old(level)
      ensures forall l :: level < l < LANES ==> lanes[l] == []
    {
      var l := level;
      while l >= 0
        invariant -1 <= l <= old(level) && level == l
        invariant forall m :: level < m < LANES ==> lanes[m] == []
      {
        FirstOfLane(nodes, arrays, lanes, l);
        if Forward(nodes, arrays, HEADER, l) != NULL {
          break;
        }
        level := level - 1;
        l := l - 1;
      }
    }

    /** An absent key is in no lane. */
    lemma Fresh(key: Key)
      requires Valid() && key !in contents
      ensures forall l :: 0 <= l < LANES ==> Keyed(nodes, lanes[l]) && NoKey(nodes, lanes[l], key)
    {
      hide Compare, Forward, Rank;
      forall l | 0 <= l < LANES ensures Keyed(nodes, lanes[l]) && NoKey(nodes, lanes[l], key) {
        assert LaneOk(nodes, arrays, lanes[l], l);
      }
    }
  }

  /** `update` names the last node before the key in each lane up to `top`. */
  ghost predicate Guides(ns: SkipNodes, lanes: seq<seq<Ptr>>, update: seq<Ptr>, key: Key, top: int) {
    && |lanes| == |update| == LANES && top < LANES
    && forall l :: 0 <= l <= top ==> Keyed(ns, lanes[l]) && update[l] == Pred(ns, lanes[l], key)
  }

  lemma GuidesUp(ns: SkipNodes, lanes: seq<seq<Ptr>>, update: seq<Ptr>, key: Key, l: nat)
    requires Guides(ns, lanes, update, key, l - 1) && l < LANES && lanes[l] == []
    ensures Guides(ns, lanes, update[l := HEADER], key, l)
  {
  }

  lemma GuidesAt(ns: SkipNodes, lanes: seq<seq<Ptr>>, update: seq<Ptr>, key: Key, top: int, l: nat)
    requires Guides(ns, lanes, update, key, top) && l <= top
    ensures |lanes| == |update| == LANES && top < LANES && Keyed(ns, lanes[l]) && update[l] == Pred(ns, lanes[l], key)
  {
  }

  lemma ReplaceKeeps(ns: SkipNodes, fs: Arrays, lanes: seq<seq<Ptr>>, n: Ptr, key: Key, value: Value,
                     contents: map<Key, Value>)
    requires Shape(ns, fs, lanes, NULL) && n in ns && n in lanes[0] && ns[n].key == Some(key)
    requires Holds(ns, lanes[0], contents) && key in contents
    ensures var ns' := ns[n := ns[n].(key := Some(key), value := value)];
            Shape(ns', fs, lanes, NULL) && Holds(ns', lanes[0], contents[key := value])
  {
    hide Compare, Holds;
    var ns' := ns[n := ns[n].(key := Some(key), value := value)];
    assert LaneOk(ns, fs, lanes[0], 0);
    ReplaceOwned(ns, fs, n, value);
    forall l | 0 <= l < LANES ensures LaneOk(ns', fs, lanes[l], l) {
      assert LaneOk(ns, fs, lanes[l], l);
      SameNodesLane(ns, fs, ns', fs, lanes[l], l);
    }
    ReplaceHolds(ns, fs, lanes[0], n, key, value, contents);
  }

  lemma ReplaceOwned(ns: SkipNodes, fs: Arrays, n: Ptr, value: Value)
    requires Owned(ns, fs) && n in ns
    ensures var ns' := ns[n := ns[n].(value := value)];
            Owned(ns', fs) && forall p, l: nat :: Forward(ns', fs, p, l) == Forward(ns, fs, p, l)
  {
    var ns' := ns[n := ns[n].(value := value)];
    forall a | a in fs ensures exists p :: p in ns' && ns'[p].forward == a {
      var p :| p in ns && ns[p].forward == a;
      assert p in ns' && ns'[p].forward == a;
    }
  }

  lemma ReplaceHolds(ns: SkipNodes, fs: Arrays, lane: seq<Ptr>, n: Ptr, key: Key, value: Value,
                     contents: map<Key, Value>)
    requires LaneOk(ns, fs, lane, 0) && n in ns && n in lane && ns[n].key == Some(key)
    requires Holds(ns, lane, contents) && key in contents
    ensures Holds(ns[n := ns[n].(key := Some(key), value := value)], lane, contents[key := value])
  {
    hide LaneOk;
    var ns' := ns[n := ns[n].(key := Some(key), value := value)];
    forall p | p in lane ensures p in ns' && ns'[p].key.Some? && ns'[p].key.value in contents[key := value]
                                 && contents[key := value][ns'[p].key.value] == ns'[p].value
    {
      if p != n && ns[p].key == Some(key) {
        SameKeySameNode(ns, fs, lane, p, n);
      }
    }
    forall k | k in contents[key := value] ensures exists p :: p in lane && p in ns' && ns'[p].key == Some(k) {
      var p :| p in lane && p in ns && ns[p].key == Some(k);
      assert p in lane && p in ns' && ns'[p].key == Some(k);
    }
  }

  lemma SameKeySameNode(ns: SkipNodes, fs: Arrays, lane: seq<Ptr>, p: Ptr, q: Ptr)
    requires LaneOk(ns, fs, lane, 0) && p in lane && q in lane
    ensures p in ns && q in ns && (ns[p].key == ns[q].key ==> p == q)
  {
    hide Compare, Forward;
    var i :| 0 <= i < |lane| && lane[i] == p;
    var j :| 0 <= j < |lane| && lane[j] == q;
    CompareEqual(KeyAt(ns, lane, i), KeyAt(ns, lane, j));
    CompareEqual(KeyAt(ns, lane, j), KeyAt(ns, lane, i));
  }

  lemma AllInLowest(before: SkipNodes, ns: SkipNodes, lane: seq<Ptr>, lane': seq<Ptr>, n: Ptr)
    requires n in ns && ns == before[n := ns[n]] && Gains(lane, lane', n)
    requires forall p :: p in before ==> p == HEADER || p in lane
    ensures forall p :: p in ns ==> p == HEADER || p in lane'
    ensures |lane'| == |lane| + 1
  {
  }

  ghost predicate NoKey(ns: SkipNodes, lane: seq<Ptr>, key: Key) {
    forall p :: p in lane ==> p in ns && ns[p].key != Some(key)
  }

  /** A lane gains one node. */
  ghost predicate Gains(lane: seq<Ptr>, lane': seq<Ptr>, n: Ptr) {
    |lane'| == |lane| + 1 && forall p :: p in lane' <==> p in lane || p == n
  }

  /** The lanes up to a node's level gain that node, and the others stay. */
  ghost predicate OnLanesUpTo(lanes: seq<seq<Ptr>>, lanes': seq<seq<Ptr>>, n: Ptr, top: int) {
    |lanes| == |lanes'| == LANES &&
    forall m :: 0 <= m < LANES ==> if m <= top then Gains(lanes[m], lanes'[m], n) else lanes'[m] == lanes[m]
  }

  lemma LowestGains(lanes: seq<seq<Ptr>>, lanes': seq<seq<Ptr>>, n: Ptr, top: int)
    requires OnLanesUpTo(lanes, lanes', n, top) && top >= 0
    ensures |lanes| == |lanes'| == LANES && Gains(lanes[0], lanes'[0], n)
  {
    hide Gains;
  }

  lemma GainsInserted(lane: seq<Ptr>, r: nat, n: Ptr)
    requires r <= |lane|
    ensures Gains(lane, Inserted(lane, r, n), n)
  {
    InsertedMembers(lane, r, n);
  }

  lemma {:induction false} RankSame(ns: SkipNodes, ns': SkipNodes, lane: seq<Ptr>, k: Key)
    requires Keyed(ns, lane) && Keyed(ns', lane)
    requires forall p :: p in lane ==> p in ns && p in ns' && ns'[p].key == ns[p].key
    ensures Rank(ns', lane, k) == Rank(ns, lane, k)
    decreases |lane|
  {
    if lane != [] {
      assert Keyed(ns, lane[1..]) && Keyed(ns', lane[1..]);
      RankSame(ns, ns', lane[1..], k);
      assert KeyAt(ns', lane, 0) == KeyAt(ns, lane, 0);
    }
  }

  /** The next lane is as the search saw it. */
  lemma StillFresh(before: SkipNodes, ns: SkipNodes, fs: Arrays, lanes0: seq<seq<Ptr>>, lanes: seq<seq<Ptr>>,
                   l: nat, n: Ptr, key: Key)
    requires Shape(ns, fs, lanes, NULL) && |lanes0| == |lanes| == LANES && l < LANES
    requires n !in before && n in ns && ns == before[n := ns[n]]
    requires lanes[l] == lanes0[l] && Keyed(before, lanes0[l]) && NoKey(before, lanes0[l], key)
    requires l > 0 ==> Gains(lanes0[l - 1], lanes[l - 1], n)
    ensures n !in lanes[l] && (l > 0 ==> n in lanes[l - 1])
    ensures Keyed(ns, lanes[l]) && Pred(ns, lanes[l], key) == Pred(before, lanes0[l], key)
    ensures forall i :: 0 <= i < |lanes[l]| ==> KeyAt(ns, lanes[l], i) != key
  {
    hide Compare, Forward, Rank;
    assert Keyed(ns, lanes[l]);
    RankSame(before, ns, lanes[l], key);
  }

  lemma HoldsGains(before: SkipNodes, ns: SkipNodes, lane: seq<Ptr>, lane': seq<Ptr>, n: Ptr,
                   contents: map<Key, Value>, key: Key, value: Value)
    requires Holds(before, lane, contents) && Gains(lane, lane', n) && key !in contents
    requires n !in before && n in ns && ns == before[n := ns[n]]
    requires ns[n].key == Some(key) && ns[n].value == value
    ensures Holds(ns, lane', contents[key := value])
  {
    forall k | k in contents[key := value] ensures exists p :: p in lane' && p in ns && ns[p].key == Some(k) {
      if k == key {
        assert n in lane' && n in ns && ns[n].key == Some(k);
      } else {
        var p :| p in lane && p in before && before[p].key == Some(k);
        assert p in lane' && p in ns && ns[p].key == Some(k);
      }
    }
  }

  /** A lane loses one node, if it had it. */
  ghost predicate Loses(lane: seq<Ptr>, lane': seq<Ptr>, n: Ptr) {
    && |lane'| == |lane| - (if n in lane then 1 else 0)
    && forall p :: p in lane' <==> p in lane && p != n
  }

  /** The nodes that stay keep key, value, level and references. */
  ghost predicate SameData(ns: SkipNodes, ns': SkipNodes) {
    forall p :: p in ns' ==> p in ns && ns'[p] == ns[p].(forward := ns'[p].forward)
  }

  lemma Relax(ns: SkipNodes, fs: Arrays, lanes: seq<seq<Ptr>>, n: Ptr)
    requires Shape(ns, fs, lanes, NULL)
    ensures Shape(ns, fs, lanes, n)
  {
    hide Forward, Compare;
    forall l | 1 <= l < |lanes| ensures Within(lanes[l], lanes[l - 1], n) {
      assert Within(lanes[l], lanes[l - 1], NULL);
      assert LaneOk(ns, fs, lanes[l], l);
    }
  }

  lemma AllLose(lanes0: seq<seq<Ptr>>, lanes: seq<seq<Ptr>>, n: Ptr)
    requires |lanes0| == |lanes| && forall l :: 0 <= l < |lanes| ==> Loses(lanes0[l], lanes[l], n)
    ensures forall l :: 0 <= l < |lanes| ==> n !in lanes[l]
  {
    forall l | 0 <= l < |lanes| ensures n !in lanes[l] {
      assert Loses(lanes0[l], lanes[l], n);
    }
  }

  lemma EmptyLoses(lanes: seq<seq<Ptr>>, level: int, n: Ptr)
    requires forall l :: 0 <= l < |lanes| && level < l ==> lanes[l] == []
    ensures forall l :: 0 <= l < |lanes| && level < l ==> Loses(lanes[l], lanes[l], n)
  {
  }

  /** In its lane the node stands where the search stopped. */
  lemma SpliceAt(ns: SkipNodes, fs: Arrays, lanes: seq<seq<Ptr>>, l: nat, pred: Ptr, n: Ptr, key: Key) returns (r: nat)
    requires Shape(ns, fs, lanes, n) && l < LANES && n in ns && n != HEADER && ns[n].key == Some(key)
    requires Keyed(ns, lanes[l]) && pred == Pred(ns, lanes[l], key)
    ensures if Forward(ns, fs, pred, l) == n
            then && r < |lanes[l]| && pred in ns && ns[pred].forward in fs && l < |fs[ns[pred].forward]|
                 && Shape(ns, SetForward(ns, fs, pred, l, Forward(ns, fs, n, l)), lanes[l := Removed(lanes[l], r)], n)
                 && Loses(lanes[l], Removed(lanes[l], r), n)
            else Loses(lanes[l], lanes[l], n)
  {
    hide Compare, Forward, Rank, Topped, Nested, SetForward;
    var lane := lanes[l];
    assert LaneOk(ns, fs, lane, l);
    r := Rank(ns, lane, key);
    RankSplits(ns, lane, key);
    assert Forward(ns, fs, Stop(lane, r), l) == if r < |lane| then lane[r] else NULL;
    if Forward(ns, fs, pred, l) == n {
      UnlinkAt(ns, fs, lanes, l, r, n);
      SortedDistinct(ns, lane);
      RemovedMembers(lane, r);
    } else {
      NotInLane(ns, fs, lane, l, r, n, key);
    }
  }

  lemma NotInLane(ns: SkipNodes, fs: Arrays, lane: seq<Ptr>, l: nat, r: nat, n: Ptr, key: Key)
    requires LaneOk(ns, fs, lane, l) && r == Rank(ns, lane, key) && n in ns && ns[n].key == Some(key)
    requires r < |lane| ==> lane[r] != n
    ensures n !in lane
  {
    hide Compare, Forward, Rank;
    RankSplits(ns, lane, key);
    CompareEqual(key, key);
    forall x | 0 <= x < |lane| ensures lane[x] != n {
      assert lane[x] == n ==> KeyAt(ns, lane, x) == key;
      assert x < r ==> Compare(KeyAt(ns, lane, x), key) < 0;
      assert r < x ==> Compare(KeyAt(ns, lane, r), KeyAt(ns, lane, x)) < 0 && Compare(KeyAt(ns, lane, r), key) >= 0;
    }
  }

  /** The header's pointer tells whether a lane has nodes. */
  lemma FirstOfLane(ns: SkipNodes, fs: Arrays, lanes: seq<seq<Ptr>>, l: nat)
    requires Shape(ns, fs, lanes, NULL) && l < LANES
    ensures Forward(ns, fs, HEADER, l) == NULL <==> lanes[l] == []
  {
    hide Forward, Compare;
    assert LaneOk(ns, fs, lanes[l], l);
    assert Forward(ns, fs, Stop(lanes[l], 0), l) == if 0 < |lanes[l]| then lanes[l][0] else NULL;
  }

  lemma Settled(ns: SkipNodes, ns': SkipNodes, lane: seq<Ptr>, lane': seq<Ptr>, n: Ptr, unused: Ptr)
    requires Loses(lane, lane', n) && n in lane && n != HEADER && HEADER in ns && ns[HEADER].key == None
    requires ns'.Keys == ns.Keys - {n} && SameData(ns, ns')
    requires forall p :: p in ns ==> ns[p].refcount == 1 && p < unused && (p == HEADER || p in lane)
    ensures forall p :: p in ns' ==> ns'[p].refcount == 1 && p < unused && (p == HEADER || p in lane')
    ensures HEADER in ns' && ns'[HEADER].key == None && |lane'| == |lane| - 1
  {
  }

  lemma ShapeHeader(ns: SkipNodes, fs: Arrays, lanes: seq<seq<Ptr>>, n: Ptr)
    requires Shape(ns, fs, lanes, n)
    ensures HEADER in ns
  {
  }

  lemma CopyOne(ns: SkipNodes, fs: Arrays, lanes: seq<seq<Ptr>>, n: Ptr, l: nat)
    requires Shape(ns, fs, lanes, n) && n in ns && n != HEADER && l < LANES && l <= ns[n].level
    requires forall m :: 0 <= m < LANES ==> n !in lanes[m]
    ensures ns[n].forward in fs && l < |fs[ns[n].forward]|
    ensures var fs' := SetForward(ns, fs, n, l, Forward(ns, fs, HEADER, l));
            && Shape(ns, fs', lanes, n)
            && forall m: nat :: && Forward(ns, fs', HEADER, m) == Forward(ns, fs, HEADER, m)
                                && Forward(ns, fs', n, m) == if m == l then Forward(ns, fs, HEADER, l)
                                    else Forward(ns, fs, n, m)
  {
    hide Compare, Forward, SetForward;
    SetForwardEffect(ns, fs, n, l, Forward(ns, fs, HEADER, l));
    var fs' := SetForward(ns, fs, n, l, Forward(ns, fs, HEADER, l));
    forall m | 0 <= m < LANES ensures LaneOk(ns, fs', lanes[m], m) {
      assert LaneOk(ns, fs, lanes[m], m);
      SameNodesLane(ns, fs, ns, fs', lanes[m], m);
    }
  }

  /** No array reaches beyond the highest lane. */
  lemma BeyondWidth(ns: SkipNodes, fs: Arrays, lanes: seq<seq<Ptr>>, n: Ptr)
    requires Shape(ns, fs, lanes, n)
    ensures forall p, l: nat :: l >= LANES ==> Forward(ns, fs, p, l) == NULL
  {
  }

  lemma HoldsLoses(ns: SkipNodes, ns': SkipNodes, lane: seq<Ptr>, lane': seq<Ptr>, n: Ptr,
                   contents: map<Key, Value>, key: Key)
    requires Holds(ns, lane, contents) && Loses(lane, lane', n) && n in ns && ns[n].key == Some(key)
    requires ns'.Keys == ns.Keys - {n} && SameData(ns, ns')
    requires forall p :: p in lane && p in ns && ns[p].key == Some(key) ==> p == n
    ensures Holds(ns', lane', contents - {key})
  {
    forall k | k in contents - {key} ensures exists p :: p in lane' && p in ns' && ns'[p].key == Some(k) {
      var p :| p in lane && p in ns && ns[p].key == Some(k);
      assert p in lane' && p in ns' && ns'[p].key == Some(k);
    }
  }
}
