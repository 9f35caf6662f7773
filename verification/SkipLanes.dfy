/**
 The lanes of a skip list: the chains of forward pointers, one a level, over
 nodes and forward arrays that live at addresses of their own.
 */
module SkipLanes {
  import opened Common
  import opened MapTypes
  import opened StrCmp

  const LEVEL_MAX := 8
  const LANES := LEVEL_MAX + 1

  type ArrayPtr = nat

  /** A null key marks the header. */
  datatype SkipNode = SkipNode(key: Option<Key>, value: Value, level: int, refcount: nat, forward: ArrayPtr)

  type SkipNodes = map<Ptr, SkipNode>
  type Arrays = map<ArrayPtr, seq<Ptr>>

  /** node->forward[l] */
  function Forward(ns: SkipNodes, fs: Arrays, p: Ptr, l: nat): (q: Ptr) {
    if p in ns && ns[p].forward in fs && l < |fs[ns[p].forward]| then fs[ns[p].forward][l] else NULL
  }

  /** node->forward[l] = q */
  function SetForward(ns: SkipNodes, fs: Arrays, p: Ptr, l: nat, q: Ptr): (fs': Arrays)
    requires p in ns && ns[p].forward in fs && l < |fs[ns[p].forward]|
    ensures fs'.Keys == fs.Keys
  {
    var a := ns[p].forward;
    var row: seq<Ptr> := fs[a];
    fs[a := row[l := q]]
  }

  /** Every node owns one forward array of full width, and there are no others. */
  ghost predicate Owned(ns: SkipNodes, fs: Arrays) {
    && (forall p :: p in ns ==> ns[p].forward in fs && |fs[ns[p].forward]| == LANES)
    && (forall p, q :: p in ns && q in ns && p != q ==> ns[p].forward != ns[q].forward)
    && (forall a :: a in fs ==> exists p :: p in ns && ns[p].forward == a)
  }

  lemma SetForwardEffect(ns: SkipNodes, fs: Arrays, p: Ptr, l: nat, q: Ptr)
    requires Owned(ns, fs) && p in ns && l < LANES
    ensures var fs' := SetForward(ns, fs, p, l, q);
            && Owned(ns, fs')
            && forall r, m: nat :: r in ns ==>
                 Forward(ns, fs', r, m) == if r == p && m == l then q else Forward(ns, fs, r, m)
  {
  }

  // -------------------------------------------------------------------- lanes

  ghost predicate Keyed(ns: SkipNodes, lane: seq<Ptr>) {
    forall i :: 0 <= i < |lane| ==> lane[i] in ns && lane[i] != HEADER && ns[lane[i]].key.Some?
  }

  ghost function KeyAt(ns: SkipNodes, lane: seq<Ptr>, i: nat): (k: Key)
    requires Keyed(ns, lane) && i < |lane|
  {
    ns[lane[i]].key.value
  }

  ghost predicate Sorted(ns: SkipNodes, lane: seq<Ptr>)
    requires Keyed(ns, lane)
  {
    forall i, j :: 0 <= i < j < |lane| ==> Compare(KeyAt(ns, lane, i), KeyAt(ns, lane, j)) < 0
  }

  /** The node from which the i-th of the lane is reached. */
  function Stop(lane: seq<Ptr>, i: nat): (p: Ptr)
    requires i <= |lane|
  {
    if i == 0 then HEADER else lane[i - 1]
  }

  ghost predicate Linked(ns: SkipNodes, fs: Arrays, lane: seq<Ptr>, l: nat) {
    forall i :: 0 <= i <= |lane| ==>
      Forward(ns, fs, Stop(lane, i), l) == if i < |lane| then lane[i] else NULL
  }

  /** Following forward[l] from the header visits `lane`, in key order, and ends. */
  ghost predicate LaneOk(ns: SkipNodes, fs: Arrays, lane: seq<Ptr>, l: nat) {
    && Keyed(ns, lane) && Sorted(ns, lane) && Linked(ns, fs, lane, l)
    && forall i :: 0 <= i < |lane| ==> ns[lane[i]].level >= l
  }

  /** How many nodes of a lane come before key `k`. */
  ghost function Rank(ns: SkipNodes, lane: seq<Ptr>, k: Key): (r: nat)
    requires Keyed(ns, lane)
    ensures r <= |lane|
  {
    if lane == [] || Compare(KeyAt(ns, lane, 0), k) >= 0 then 0
    else assert Keyed(ns, lane[1..]); 1 + Rank(ns, lane[1..], k)
  }

  lemma {:induction false} RankSplits(ns: SkipNodes, lane: seq<Ptr>, k: Key)
    requires Keyed(ns, lane) && Sorted(ns, lane)
    ensures forall i :: 0 <= i < |lane| ==> (i < Rank(ns, lane, k) <==> Compare(KeyAt(ns, lane, i), k) < 0)
    decreases |lane|
  {
    if lane == [] {
    } else if Compare(KeyAt(ns, lane, 0), k) >= 0 {
      forall i | 0 < i < |lane| ensures Compare(KeyAt(ns, lane, i), k) >= 0 {
        NotBelow(KeyAt(ns, lane, 0), KeyAt(ns, lane, i), k);
      }
    } else {
      assert Keyed(ns, lane[1..]);
      assert forall i :: 0 <= i < |lane| - 1 ==> KeyAt(ns, lane[1..], i) == KeyAt(ns, lane, i + 1);
      RankSplits(ns, lane[1..], k);
      forall i | 0 < i < |lane| ensures i < Rank(ns, lane, k) <==> Compare(KeyAt(ns, lane, i), k) < 0 {
        assert KeyAt(ns, lane[1..], i - 1) == KeyAt(ns, lane, i);
      }
    }
  }

  lemma NotBelow(a: Key, b: Key, k: Key)
    requires Compare(a, b) < 0 && Compare(a, k) >= 0
    ensures Compare(b, k) >= 0
  {
    if Compare(b, k) < 0 {
      CompareTransitive(a, b, k);
    }
  }

  /** A place in a lane with smaller keys before and none from there on is the rank. */
  lemma RankUnique(ns: SkipNodes, lane: seq<Ptr>, k: Key, i: nat)
    requires Keyed(ns, lane) && Sorted(ns, lane) && i <= |lane|
    requires i > 0 ==> Compare(KeyAt(ns, lane, i - 1), k) < 0
    requires i < |lane| ==> Compare(KeyAt(ns, lane, i), k) >= 0
    ensures Rank(ns, lane, k) == i
  {
    RankSplits(ns, lane, k);
    var r := Rank(ns, lane, k);
    assert i > 0 ==> i - 1 < r;
    assert i < |lane| ==> !(i < r);
  }

  /** The last node of a lane before key `k`. */
  ghost function Pred(ns: SkipNodes, lane: seq<Ptr>, k: Key): (p: Ptr)
    requires Keyed(ns, lane)
  {
    Stop(lane, Rank(ns, lane, k))
  }

  /** A lane is untouched while its own pointers are. */
  lemma LaneFrame(ns: SkipNodes, fs: Arrays, fs': Arrays, lane: seq<Ptr>, l: nat)
    requires LaneOk(ns, fs, lane, l) && HEADER in ns
    requires forall p :: p in ns ==> Forward(ns, fs', p, l) == Forward(ns, fs, p, l)
    ensures LaneOk(ns, fs', lane, l)
  {
    hide Forward, Sorted;
    forall i | 0 <= i <= |lane|
      ensures Forward(ns, fs', Stop(lane, i), l) == if i < |lane| then lane[i] else NULL
    {
      assert Stop(lane, i) in ns;
    }
  }

  function Inserted(lane: seq<Ptr>, r: nat, n: Ptr): (lane': seq<Ptr>)
    requires r <= |lane|
    ensures |lane'| == |lane| + 1
    ensures forall i :: 0 <= i < |lane'| ==> lane'[i] == if i < r then lane[i] else if i == r then n else lane[i - 1]
  {
    lane[..r] + [n] + lane[r..]
  }

  function Removed(lane: seq<Ptr>, r: nat): (lane': seq<Ptr>)
    requires r < |lane|
    ensures |lane'| == |lane| - 1
    ensures forall i :: 0 <= i < |lane'| ==> lane'[i] == if i < r then lane[i] else lane[i + 1]
  {
    lane[..r] + lane[r + 1..]
  }

  /** Two stores link a node into its place in a lane. */
  lemma InsertLane(ns: SkipNodes, fs: Arrays, lane: seq<Ptr>, l: nat, n: Ptr, k: Key)
    requires Owned(ns, fs) && LaneOk(ns, fs, lane, l) && l < LANES && HEADER in ns
    requires n in ns && n != HEADER && n !in lane && ns[n].key == Some(k) && ns[n].level >= l
    requires forall i :: 0 <= i < |lane| ==> KeyAt(ns, lane, i) != k
    ensures var r := Rank(ns, lane, k);
            var p := Stop(lane, r);
            && p in ns && p != n
            && var fs1 := SetForward(ns, fs, n, l, Forward(ns, fs, p, l));
               p in ns && ns[p].forward in fs1 && l < |fs1[ns[p].forward]|
               && LaneOk(ns, SetForward(ns, fs1, p, l, n), Inserted(lane, r, n), l)
  {
    hide Rank, Compare, Sorted, Linked, Forward, SetForward, Distinct;
    var r := Rank(ns, lane, k);
    var p := Stop(lane, r);
    assert p in ns && p != n;
    SetForwardEffect(ns, fs, n, l, Forward(ns, fs, p, l));
    var fs1 := SetForward(ns, fs, n, l, Forward(ns, fs, p, l));
    SetForwardEffect(ns, fs1, p, l, n);
    InsertSorted(ns, lane, n, k);
    SortedDistinct(ns, lane);
    InsertLinked(ns, fs, SetForward(ns, fs1, p, l, n), lane, l, n, r);
  }

  lemma InsertSorted(ns: SkipNodes, lane: seq<Ptr>, n: Ptr, k: Key)
    requires Keyed(ns, lane) && Sorted(ns, lane)
    requires n in ns && n != HEADER && ns[n].key == Some(k)
    requires forall i :: 0 <= i < |lane| ==> KeyAt(ns, lane, i) != k
    ensures var lane' := Inserted(lane, Rank(ns, lane, k), n);
            Keyed(ns, lane') && Sorted(ns, lane')
  {
    hide Compare, Rank;
    RankSplits(ns, lane, k);
    var r := Rank(ns, lane, k);
    var lane' := Inserted(lane, r, n);
    assert Keyed(ns, lane');
    forall i, j | 0 <= i < j < |lane'| ensures Compare(KeyAt(ns, lane', i), KeyAt(ns, lane', j)) < 0 {
      InsertedPair(ns, lane, n, k, r, i, j);
    }
  }

  lemma InsertedPair(ns: SkipNodes, lane: seq<Ptr>, n: Ptr, k: Key, r: nat, i: nat, j: nat)
    requires Keyed(ns, lane) && Sorted(ns, lane) && r <= |lane|
    requires n in ns && n != HEADER && ns[n].key == Some(k)
    requires forall x :: 0 <= x < |lane| ==> KeyAt(ns, lane, x) != k
    requires forall x :: 0 <= x < |lane| ==> (x < r <==> Compare(KeyAt(ns, lane, x), k) < 0)
    requires i < j <= |lane| && Keyed(ns, Inserted(lane, r, n))
    ensures Compare(KeyAt(ns, Inserted(lane, r, n), i), KeyAt(ns, Inserted(lane, r, n), j)) < 0
  {
    hide Compare;
    var lane' := Inserted(lane, r, n);
    if i == r {
      var key := KeyAt(ns, lane, j - 1);
      assert KeyAt(ns, lane', i) == k && KeyAt(ns, lane', j) == key;
      CompareEqual(key, k);
      CompareSwap(k, key);
    } else if j == r {
      assert KeyAt(ns, lane', i) == KeyAt(ns, lane, i) && KeyAt(ns, lane', j) == k;
    } else {
      var a, b := if i < r then i else i - 1, if j < r then j else j - 1;
      assert KeyAt(ns, lane', i) == KeyAt(ns, lane, a) && KeyAt(ns, lane', j) == KeyAt(ns, lane, b);
      assert Compare(KeyAt(ns, lane, a), KeyAt(ns, lane, b)) < 0;
    }
  }

  lemma InsertLinked(ns: SkipNodes, fs: Arrays, fs': Arrays, lane: seq<Ptr>, l: nat, n: Ptr, r: nat)
    requires Keyed(ns, lane) && Linked(ns, fs, lane, l) && r <= |lane| && n !in lane && n != HEADER
    requires Distinct(lane) && HEADER in ns && n in ns
    requires forall q :: q in ns ==>
               Forward(ns, fs', q, l) == if q == Stop(lane, r) then n
                                         else if q == n then Forward(ns, fs, Stop(lane, r), l)
                                         else Forward(ns, fs, q, l)
    ensures Linked(ns, fs', Inserted(lane, r, n), l)
  {
    hide Forward;
    var lane' := Inserted(lane, r, n);
    forall i | 0 <= i <= |lane'|
      ensures Forward(ns, fs', Stop(lane', i), l) == if i < |lane'| then lane'[i] else NULL
    {
      if i <= r {
        assert Stop(lane', i) == Stop(lane, i);
        StopsDiffer(lane, i, r);
      } else if i == r + 1 {
        assert Stop(lane', i) == n;
      } else {
        assert Stop(lane', i) == Stop(lane, i - 1);
        StopsDiffer(lane, i - 1, r);
      }
    }
  }

  ghost predicate Distinct(lane: seq<Ptr>) {
    HEADER !in lane && forall i, j :: 0 <= i < j < |lane| ==> lane[i] != lane[j]
  }

  lemma StopsDiffer(lane: seq<Ptr>, i: nat, j: nat)
    requires Distinct(lane) && i <= |lane| && j <= |lane|
    ensures Stop(lane, i) == Stop(lane, j) <==> i == j
  {
  }

  lemma SortedDistinct(ns: SkipNodes, lane: seq<Ptr>)
    requires Keyed(ns, lane) && Sorted(ns, lane)
    ensures Distinct(lane)
  {
    forall i, j | 0 <= i < j < |lane| ensures lane[i] != lane[j] {
      CompareEqual(KeyAt(ns, lane, i), KeyAt(ns, lane, j));
      assert Compare(KeyAt(ns, lane, i), KeyAt(ns, lane, j)) < 0;
    }
  }

  /** One store unlinks a node from a lane. */
  lemma RemoveLane(ns: SkipNodes, fs: Arrays, lane: seq<Ptr>, l: nat, r: nat)
    requires Owned(ns, fs) && LaneOk(ns, fs, lane, l) && l < LANES && r < |lane| && HEADER in ns
    ensures Stop(lane, r) in ns
    ensures var fs' := SetForward(ns, fs, Stop(lane, r), l, Forward(ns, fs, lane[r], l));
            LaneOk(ns, fs', Removed(lane, r), l)
  {
    SortedDistinct(ns, lane);
    assert Stop(lane, r) in ns;
    SetForwardEffect(ns, fs, Stop(lane, r), l, Forward(ns, fs, lane[r], l));
    RemoveSorted(ns, lane, r);
    RemoveLinked(ns, fs, SetForward(ns, fs, Stop(lane, r), l, Forward(ns, fs, lane[r], l)), lane, l, r);
  }

  lemma RemoveSorted(ns: SkipNodes, lane: seq<Ptr>, r: nat)
    requires Keyed(ns, lane) && Sorted(ns, lane) && r < |lane|
    ensures Keyed(ns, Removed(lane, r)) && Sorted(ns, Removed(lane, r))
  {
    hide Compare;
    var lane' := Removed(lane, r);
    forall i, j | 0 <= i < j < |lane'| ensures Compare(KeyAt(ns, lane', i), KeyAt(ns, lane', j)) < 0 {
      var a, b := if i < r then i else i + 1, if j < r then j else j + 1;
      assert Compare(KeyAt(ns, lane, a), KeyAt(ns, lane, b)) < 0;
    }
  }

  lemma RemoveLinked(ns: SkipNodes, fs: Arrays, fs': Arrays, lane: seq<Ptr>, l: nat, r: nat)
    requires Keyed(ns, lane) && Linked(ns, fs, lane, l) && r < |lane| && Distinct(lane) && HEADER in ns
    requires forall q :: q in ns ==>
               Forward(ns, fs', q, l) == if q == Stop(lane, r) then Forward(ns, fs, lane[r], l)
                                         else Forward(ns, fs, q, l)
    ensures Linked(ns, fs', Removed(lane, r), l)
  {
    hide Forward;
    forall i | 0 <= i <= |lane| - 1
      ensures Forward(ns, fs', Stop(Removed(lane, r), i), l) ==
              if i < |lane| - 1 then Removed(lane, r)[i] else NULL
    {
      RemovedLink(ns, fs, fs', lane, l, r, i);
    }
  }

  lemma RemovedStop(lane: seq<Ptr>, r: nat, i: nat)
    requires r < |lane| && i <= |lane| - 1
    ensures Stop(Removed(lane, r), i) == Stop(lane, if i <= r then i else i + 1)
    ensures i < |lane| - 1 ==> Removed(lane, r)[i] == lane[if i < r then i else i + 1]
  {
  }

  lemma RemovedLink(ns: SkipNodes, fs: Arrays, fs': Arrays, lane: seq<Ptr>, l: nat, r: nat, i: nat)
    requires Keyed(ns, lane) && Linked(ns, fs, lane, l) && r < |lane| && Distinct(lane) && HEADER in ns
    requires forall q :: q in ns ==>
               Forward(ns, fs', q, l) == if q == Stop(lane, r) then Forward(ns, fs, lane[r], l)
                                         else Forward(ns, fs, q, l)
    requires i <= |lane| - 1
    ensures Forward(ns, fs', Stop(Removed(lane, r), i), l) ==
            if i < |lane| - 1 then Removed(lane, r)[i] else NULL
  {
    hide Forward, Removed, Linked, Stop, Keyed, Distinct;
    RemovedStop(lane, r, i);
    var j := if i < r then i else i + 1;
    LinkedAt(ns, fs, lane, l, j);
    LinkedAt(ns, fs, lane, l, r);
    StopsDiffer(lane, j, r);
  }

  lemma LinkedAt(ns: SkipNodes, fs: Arrays, lane: seq<Ptr>, l: nat, j: nat)
    requires Keyed(ns, lane) && Linked(ns, fs, lane, l) && j <= |lane| && HEADER in ns
    ensures Stop(lane, j) in ns && Forward(ns, fs, Stop(lane, j), l) == if j < |lane| then lane[j] else NULL
    ensures j < |lane| ==> Stop(lane, j + 1) == lane[j]
  {
    hide Forward;
  }

  // -------------------------------------------------------------- all lanes

  /** Each lane is part of the one below it, node `except` aside. */
  ghost predicate Nested(lanes: seq<seq<Ptr>>, except: Ptr) {
    forall l :: 1 <= l < |lanes| ==> Within(lanes[l], lanes[l - 1], except)
  }

  ghost predicate Within(upper: seq<Ptr>, lower: seq<Ptr>, except: Ptr) {
    forall p :: p in upper && p != except ==> p in lower
  }

  /** A node has no pointers above its own level. */
  ghost predicate Topped(ns: SkipNodes, fs: Arrays) {
    forall p, l: nat :: p in ns && p != HEADER && l > ns[p].level ==> Forward(ns, fs, p, l) == NULL
  }

  ghost predicate AllLanes(ns: SkipNodes, fs: Arrays, lanes: seq<seq<Ptr>>) {
    |lanes| == LANES && forall l :: 0 <= l < LANES ==> LaneOk(ns, fs, lanes[l], l)
  }

  ghost predicate Shape(ns: SkipNodes, fs: Arrays, lanes: seq<seq<Ptr>>, except: Ptr) {
    && HEADER in ns && NULL !in ns
    && Owned(ns, fs) && AllLanes(ns, fs, lanes) && Nested(lanes, except) && Topped(ns, fs)
  }

  /** A new node with an empty array, in no lane yet. */
  lemma AddNode(ns: SkipNodes, fs: Arrays, lanes: seq<seq<Ptr>>, n: Ptr, d: SkipNode)
    requires Shape(ns, fs, lanes, NULL) && n !in ns && n != NULL && d.forward !in fs
    ensures var ns', fs' := ns[n := d], fs[d.forward := seq(LANES, _ => NULL)];
            Shape(ns', fs', lanes, NULL)
  {
    var ns', fs' := ns[n := d], fs[d.forward := seq(LANES, _ => NULL)];
    assert forall p, l: nat :: p in ns ==> Forward(ns', fs', p, l) == Forward(ns, fs, p, l);
    assert Owned(ns', fs') by {
      forall a | a in fs' ensures exists p :: p in ns' && ns'[p].forward == a {
        if a == d.forward {
          assert n in ns' && ns'[n].forward == a;
        } else {
          var p :| p in ns && ns[p].forward == a;
          assert p in ns' && ns'[p].forward == a;
        }
      }
    }
    forall l | 0 <= l < LANES ensures LaneOk(ns', fs', lanes[l], l) {
      assert LaneOk(ns, fs, lanes[l], l);
      SameNodesLane(ns, fs, ns', fs', lanes[l], l);
    }
  }

  /** A lane looks only at its own nodes and the header. */
  lemma SameNodesLane(ns: SkipNodes, fs: Arrays, ns': SkipNodes, fs': Arrays, lane: seq<Ptr>, l: nat)
    requires LaneOk(ns, fs, lane, l)
    requires forall p :: p in lane ==> p in ns && p in ns' && ns'[p].key == ns[p].key && ns'[p].level == ns[p].level
    requires forall p :: p in lane || p == HEADER ==> Forward(ns', fs', p, l) == Forward(ns, fs, p, l)
    ensures LaneOk(ns', fs', lane, l)
  {
    hide Forward, Compare;
    assert Keyed(ns', lane);
    forall i, j | 0 <= i < j < |lane| ensures Compare(KeyAt(ns', lane, i), KeyAt(ns', lane, j)) < 0 {
      assert Compare(KeyAt(ns, lane, i), KeyAt(ns, lane, j)) < 0;
    }
    forall i | 0 <= i <= |lane|
      ensures Forward(ns', fs', Stop(lane, i), l) == if i < |lane| then lane[i] else NULL
    {
      assert Stop(lane, i) in lane || Stop(lane, i) == HEADER;
    }
  }

  /** A store at level `l` leaves the other lanes alone. */
  lemma OtherLanes(ns: SkipNodes, fs: Arrays, fs': Arrays, lanes: seq<seq<Ptr>>, l: nat, lane: seq<Ptr>)
    requires HEADER in ns && AllLanes(ns, fs, lanes) && l < LANES
    requires forall p, m: nat :: p in ns && m != l ==> Forward(ns, fs', p, m) == Forward(ns, fs, p, m)
    requires LaneOk(ns, fs', lane, l)
    ensures AllLanes(ns, fs', lanes[l := lane])
  {
    hide Forward, LaneOk;
    var lanes' := lanes[l := lane];
    forall m | 0 <= m < LANES ensures LaneOk(ns, fs', lanes'[m], m) {
      if m != l {
        LaneFrame(ns, fs, fs', lanes[m], m);
      }
    }
  }

  /** Linking a node into lane `l`, the lane below having it already. */
  lemma LinkAt(ns: SkipNodes, fs: Arrays, lanes: seq<seq<Ptr>>, l: nat, n: Ptr, k: Key)
    requires Shape(ns, fs, lanes, NULL) && l < LANES
    requires n in ns && n != HEADER && n !in lanes[l] && (l > 0 ==> n in lanes[l - 1])
    requires ns[n].key == Some(k) && ns[n].level >= l
    requires forall i :: 0 <= i < |lanes[l]| ==> KeyAt(ns, lanes[l], i) != k
    ensures var p := Pred(ns, lanes[l], k);
            && p in ns
            && var fs1 := SetForward(ns, fs, n, l, Forward(ns, fs, p, l));
               ns[p].forward in fs1 && l < |fs1[ns[p].forward]|
               && Shape(ns, SetForward(ns, fs1, p, l, n),
                        lanes[l := Inserted(lanes[l], Rank(ns, lanes[l], k), n)], NULL)
  {
    hide Rank, Compare, Sorted, Linked, Forward, SetForward;
    var lane := lanes[l];
    InsertLane(ns, fs, lane, l, n, k);
    var r := Rank(ns, lane, k);
    var p := Stop(lane, r);
    SetForwardEffect(ns, fs, n, l, Forward(ns, fs, p, l));
    var fs1 := SetForward(ns, fs, n, l, Forward(ns, fs, p, l));
    SetForwardEffect(ns, fs1, p, l, n);
    var fs2 := SetForward(ns, fs1, p, l, n);
    OtherLanes(ns, fs, fs2, lanes, l, Inserted(lane, r, n));
    NestedInsert(lanes, l, r, n);
    assert r > 0 ==> ns[lane[r - 1]].level >= l;
  }

  lemma NestedInsert(lanes: seq<seq<Ptr>>, l: nat, r: nat, n: Ptr)
    requires Nested(lanes, NULL) && l < |lanes| && r <= |lanes[l]| && (l > 0 ==> n in lanes[l - 1])
    ensures Nested(lanes[l := Inserted(lanes[l], r, n)], NULL)
  {
    var lane' := Inserted(lanes[l], r, n);
    InsertedMembers(lanes[l], r, n);
  }

  lemma InsertedMembers(lane: seq<Ptr>, r: nat, n: Ptr)
    requires r <= |lane|
    ensures forall p :: p in Inserted(lane, r, n) <==> p in lane || p == n
  {
    var lane' := Inserted(lane, r, n);
    forall p | p in lane || p == n ensures p in lane' {
      if p == n {
        assert lane'[r] == n;
      } else {
        var i :| 0 <= i < |lane| && lane[i] == p;
        assert lane'[if i < r then i else i + 1] == p;
      }
    }
  }

  lemma RemovedMembers(lane: seq<Ptr>, r: nat)
    requires r < |lane| && Distinct(lane)
    ensures forall p :: p in Removed(lane, r) <==> p in lane && p != lane[r]
  {
    var lane' := Removed(lane, r);
    forall p | p in lane && p != lane[r] ensures p in lane' {
      var i :| 0 <= i < |lane| && lane[i] == p;
      assert lane'[if i < r then i else i - 1] == p;
    }
  }

  /** Unlinking a node from lane `l`. */
  lemma UnlinkAt(ns: SkipNodes, fs: Arrays, lanes: seq<seq<Ptr>>, l: nat, r: nat, n: Ptr)
    requires Shape(ns, fs, lanes, n) && l < LANES && r < |lanes[l]| && lanes[l][r] == n
    ensures var p := Stop(lanes[l], r);
            && p in ns && p != n && n !in Removed(lanes[l], r)
            && Shape(ns, SetForward(ns, fs, p, l, Forward(ns, fs, n, l)), lanes[l := Removed(lanes[l], r)], n)
  {
    hide Rank, Compare, Sorted, Linked, Forward, SetForward;
    var lane := lanes[l];
    SortedDistinct(ns, lane);
    RemovedMembers(lane, r);
    RemoveLane(ns, fs, lane, l, r);
    var p := Stop(lane, r);
    SetForwardEffect(ns, fs, p, l, Forward(ns, fs, n, l));
    OtherLanes(ns, fs, SetForward(ns, fs, p, l, Forward(ns, fs, n, l)), lanes, l, Removed(lane, r));
    assert r > 0 ==> ns[lane[r - 1]].level >= l;
  }

  /** A node in no lane is freed together with its array. */
  lemma DropNode(ns: SkipNodes, fs: Arrays, lanes: seq<seq<Ptr>>, n: Ptr)
    requires Shape(ns, fs, lanes, n) && n in ns && n != HEADER
    requires forall l :: 0 <= l < LANES ==> n !in lanes[l]
    ensures Shape(ns - {n}, fs - {ns[n].forward}, lanes, NULL)
  {
    hide Compare, Sorted, Linked;
    var ns', fs' := ns - {n}, fs - {ns[n].forward};
    assert forall p, l: nat :: p in ns' ==> Forward(ns', fs', p, l) == Forward(ns, fs, p, l);
    forall a | a in fs' ensures exists p :: p in ns' && ns'[p].forward == a {
      var p :| p in ns && ns[p].forward == a;
      assert p in ns' && ns'[p].forward == a;
    }
    forall l | 0 <= l < LANES ensures LaneOk(ns', fs', lanes[l], l) {
      assert LaneOk(ns, fs, lanes[l], l);
      SameNodesLane(ns, fs, ns', fs', lanes[l], l);
    }
  }

  /** The lanes that survive when the header takes over the array of a node of
      level `top`. */
  ghost function Lowered(lanes: seq<seq<Ptr>>, top: int): (r: seq<seq<Ptr>>)
    ensures |r| == |lanes|
    ensures forall l :: 0 <= l < |lanes| ==> r[l] == if l <= top then lanes[l] else []
  {
    seq(|lanes|, l requires 0 <= l < |lanes| => if l <= top then lanes[l] else [])
  }

  /** The header takes over the array of node `n`, which is freed; the header's own
      array goes.  The lanes above the level of `n` end with that. */
  lemma TakeOver(ns: SkipNodes, fs: Arrays, lanes: seq<seq<Ptr>>, n: Ptr)
    requires Shape(ns, fs, lanes, n) && n in ns && n != HEADER
    requires forall l :: 0 <= l < LANES ==> n !in lanes[l]
    requires forall l: nat :: l <= ns[n].level ==> Forward(ns, fs, n, l) == Forward(ns, fs, HEADER, l)
    ensures var ns' := ns[HEADER := ns[HEADER].(forward := ns[n].forward)] - {n};
            Shape(ns', fs - {ns[HEADER].forward}, Lowered(lanes, ns[n].level), NULL)
  {
    hide Compare, Sorted, Keyed, Linked, LaneOk;
    var ns' := ns[HEADER := ns[HEADER].(forward := ns[n].forward)] - {n};
    var fs' := fs - {ns[HEADER].forward};
    var lanes' := Lowered(lanes, ns[n].level);
    TakeOverOwned(ns, fs, n);
    forall l | 0 <= l < LANES ensures LaneOk(ns', fs', lanes'[l], l) {
      assert LaneOk(ns, fs, lanes[l], l);
      if l <= ns[n].level {
        LaneInNodes(ns, fs, lanes[l], l);
        SameNodesLane(ns, fs, ns', fs', lanes[l], l);
      } else {
        EmptyLane(ns', fs', l);
      }
    }
  }

  lemma LaneInNodes(ns: SkipNodes, fs: Arrays, lane: seq<Ptr>, l: nat)
    requires LaneOk(ns, fs, lane, l)
    ensures forall p :: p in lane ==> p in ns && p != HEADER
  {
  }

  lemma EmptyLane(ns: SkipNodes, fs: Arrays, l: nat)
    requires Forward(ns, fs, HEADER, l) == NULL
    ensures LaneOk(ns, fs, [], l)
  {
  }

  lemma TakeOverOwned(ns: SkipNodes, fs: Arrays, n: Ptr)
    requires Owned(ns, fs) && HEADER in ns && n in ns && n != HEADER
    ensures var ns' := ns[HEADER := ns[HEADER].(forward := ns[n].forward)] - {n};
            var fs' := fs - {ns[HEADER].forward};
            && Owned(ns', fs')
            && (forall p, l: nat :: p in ns' && p != HEADER ==> Forward(ns', fs', p, l) == Forward(ns, fs, p, l))
            && (forall l: nat :: Forward(ns', fs', HEADER, l) == Forward(ns, fs, n, l))
  {
    var ns' := ns[HEADER := ns[HEADER].(forward := ns[n].forward)] - {n};
    var fs' := fs - {ns[HEADER].forward};
    forall a | a in fs' ensures exists p :: p in ns' && ns'[p].forward == a {
      var p :| p in ns && ns[p].forward == a;
      var q := if p == n then HEADER else p;
      assert q in ns' && ns'[q].forward == a;
    }
  }

  /** `a` is `b` with nodes left out. */
  predicate Subsequence(a: seq<Ptr>, b: seq<Ptr>)
    decreases |b|
  {
    a == [] || (b != [] && ((a[0] == b[0] && Subsequence(a[1..], b[1..])) || Subsequence(a, b[1..])))
  }

  /** Two lanes in key order, one within the other. */
  lemma {:induction false} WithinIsSubsequence(ns: SkipNodes, a: seq<Ptr>, b: seq<Ptr>)
    requires Keyed(ns, a) && Keyed(ns, b) && Sorted(ns, a) && Sorted(ns, b)
    requires forall p :: p in a ==> p in b
    ensures Subsequence(a, b)
    decreases |b|
  {
    hide Compare;
    if a != [] {
      assert a[0] in b;
      TailSorted(ns, b);
      TailSorted(ns, a);
      SortedDistinct(ns, a);
      if a[0] == b[0] {
        forall p | p in a[1..] ensures p in b[1..] {
          assert p in a && p in b;
        }
        WithinIsSubsequence(ns, a[1..], b[1..]);
      } else {
        var i :| 0 <= i < |b| && b[i] == a[0];
        assert Compare(KeyAt(ns, b, 0), KeyAt(ns, b, i)) < 0;
        forall p | p in a ensures p in b[1..] {
          var j :| 0 <= j < |a| && a[j] == p;
          if p == b[0] {
            assert Compare(KeyAt(ns, a, 0), KeyAt(ns, a, j)) < 0;
            CompareSwap(KeyAt(ns, b, 0), KeyAt(ns, b, i));
          }
        }
        WithinIsSubsequence(ns, a, b[1..]);
      }
    }
  }

  lemma TailSorted(ns: SkipNodes, lane: seq<Ptr>)
    requires lane != [] && Keyed(ns, lane) && Sorted(ns, lane)
    ensures Keyed(ns, lane[1..]) && Sorted(ns, lane[1..])
  {
    var tail := lane[1..];
    assert Keyed(ns, tail);
    forall i, j | 0 <= i < j < |tail| ensures Compare(KeyAt(ns, tail, i), KeyAt(ns, tail, j)) < 0 {
      assert Compare(KeyAt(ns, lane, i + 1), KeyAt(ns, lane, j + 1)) < 0;
    }
  }

  /** Every higher lane is a subsequence of the one below it. */
  lemma LanesAreSubsequences(ns: SkipNodes, fs: Arrays, lanes: seq<seq<Ptr>>, l: nat)
    requires Shape(ns, fs, lanes, NULL) && 1 <= l < LANES
    ensures Subsequence(lanes[l], lanes[l - 1])
  {
    hide Compare, Forward;
    assert LaneOk(ns, fs, lanes[l], l);
    assert LaneOk(ns, fs, lanes[l - 1], l - 1);
    assert Within(lanes[l], lanes[l - 1], NULL);
    WithinIsSubsequence(ns, lanes[l], lanes[l - 1]);
  }
}
