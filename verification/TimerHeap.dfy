/**
 The timer list: a binary min-heap of timers on their expiry time, kept in an
 array, in which every timer knows its own position so that it can be deleted
 from anywhere.
 */
module TimerHeap {

  class Timer {
    const expireTime: nat
    var heapPos: int

    constructor (expireTime: nat)
      ensures this.expireTime == expireTime
    {
      this.expireTime := expireTime;
      heapPos := NOWHERE;
    }
  }

  const NOWHERE := -1 // ~(size_t)0

  function Parent(i: nat): (p: nat)
    requires i > 0
    ensures p < i
  {
    (i - 1) / 2
  }

  function Left(i: nat): (l: nat) {
    2 * i + 1
  }

  function Right(i: nat): (r: nat) {
    2 * i + 2
  }

  lemma Family(i: nat)
    ensures Parent(Left(i)) == i && Parent(Right(i)) == i
    ensures i > 0 ==> i == Left(Parent(i)) || i == Right(Parent(i))
  {
  }

  /** include/tlist.h: timerlist_entry_cmp. */
  function Cmp(a: Timer, b: Timer): (c: int) {
    if a.expireTime == b.expireTime then 0 else if a.expireTime < b.expireTime then -1 else 1
  }

  // -------------------------------------------------------------- heap order

  ghost predicate Below(h: seq<Timer>, i: nat)
    requires 0 < i < |h|
  {
    h[Parent(i)].expireTime <= h[i].expireTime
  }

  ghost predicate IsHeap(h: seq<Timer>) {
    forall i :: 0 < i < |h| ==> Below(h, i)
  }

  /** A heap but for the entry at `pos`, which may be too small for its place. */
  ghost predicate TooHigh(h: seq<Timer>, pos: nat) {
    && (forall i :: 0 < i < |h| && i != pos ==> Below(h, i))
    && (pos > 0 ==> forall i :: 0 < i < |h| && Parent(i) == pos ==>
                      Parent(pos) < |h| && h[Parent(pos)].expireTime <= h[i].expireTime)
  }

  /** A heap but for the entry at `pos`, which may be too big for its place. */
  ghost predicate TooLow(h: seq<Timer>, pos: nat) {
    && (forall i :: 0 < i < |h| && Parent(i) != pos ==> Below(h, i))
    && (pos > 0 ==> forall i :: 0 < i < |h| && Parent(i) == pos ==>
                      Parent(pos) < |h| && h[Parent(pos)].expireTime <= h[i].expireTime)
  }

  ghost function Swapped(h: seq<Timer>, i: nat, j: nat): (r: seq<Timer>)
    requires i < |h| && j < |h|
  {
    h[i := h[j]][j := h[i]]
  }

  lemma UpStep(h: seq<Timer>, pos: nat)
    requires TooHigh(h, pos) && 0 < pos < |h| && h[Parent(pos)].expireTime > h[pos].expireTime
    ensures TooHigh(Swapped(h, pos, Parent(pos)), Parent(pos))
  {
    var p := Parent(pos);
    var r := Swapped(h, pos, p);
    forall i | 0 < i < |r| && i != p ensures Below(r, i) {
      assert i != pos ==> Below(h, i);
    }
    if p > 0 {
      assert Below(h, p);
      forall i | 0 < i < |r| && Parent(i) == p ensures r[Parent(p)].expireTime <= r[i].expireTime {
        assert i != pos ==> Below(h, i);
      }
    }
  }

  lemma UpDone(h: seq<Timer>, pos: nat)
    requires TooHigh(h, pos) && (0 < pos < |h| ==> Below(h, pos))
    ensures IsHeap(h)
  {
  }

  lemma DownStep(h: seq<Timer>, pos: nat, child: nat)
    requires TooLow(h, pos) && pos < child < |h| && Parent(child) == pos
    requires h[child].expireTime < h[pos].expireTime
    requires Left(pos) < |h| ==> h[child].expireTime <= h[Left(pos)].expireTime
    requires Right(pos) < |h| ==> h[child].expireTime <= h[Right(pos)].expireTime
    ensures TooLow(Swapped(h, pos, child), child)
  {
    var r := Swapped(h, pos, child);
    forall i | 0 < i < |r| && Parent(i) != child ensures Below(r, i) {
      Family(i);
      if Parent(i) != pos {
        assert Below(h, i);
      }
    }
    forall i | 0 < i < |r| && Parent(i) == child ensures r[Parent(child)].expireTime <= r[i].expireTime {
      assert Below(h, i);
    }
  }

  lemma DownDone(h: seq<Timer>, pos: nat)
    requires TooLow(h, pos) && pos < |h|
    requires Left(pos) < |h| ==> h[pos].expireTime <= h[Left(pos)].expireTime
    requires Right(pos) < |h| ==> h[pos].expireTime <= h[Right(pos)].expireTime
    ensures IsHeap(h)
  {
    forall i | 0 < i < |h| ensures Below(h, i) {
      Family(i);
    }
  }

  /** Replacing an entry: the heap is off at most there, in the direction of the change. */
  lemma Replaced(h: seq<Timer>, pos: nat, t: Timer)
    requires IsHeap(h) && pos < |h|
    ensures t.expireTime <= h[pos].expireTime ==> TooHigh(h[pos := t], pos)
    ensures t.expireTime >= h[pos].expireTime ==> TooLow(h[pos := t], pos)
    ensures t.expireTime == h[pos].expireTime ==> IsHeap(h[pos := t])
  {
    var r := h[pos := t];
    if t.expireTime <= h[pos].expireTime {
      forall i | 0 < i < |h| && i != pos ensures Below(r, i) {
        assert Below(h, i);
      }
    }
    if t.expireTime >= h[pos].expireTime {
      forall i | 0 < i < |h| && Parent(i) != pos ensures Below(r, i) {
        assert Below(h, i);
      }
    }
    if pos > 0 {
      forall i | 0 < i < |h| && Parent(i) == pos ensures h[Parent(pos)].expireTime <= r[i].expireTime {
        assert Below(h, i) && Below(h, pos);
      }
    }
  }

  lemma HeapPrefix(h: seq<Timer>, n: nat)
    requires IsHeap(h) && n <= |h|
    ensures IsHeap(h[..n])
  {
    forall i | 0 < i < n ensures Below(h[..n], i) {
      assert Below(h, i);
    }
  }

  /** The first entry expires first. */
  lemma {:induction false} RootIsLeast(h: seq<Timer>, i: nat)
    requires IsHeap(h) && i < |h|
    ensures h[0].expireTime <= h[i].expireTime
    decreases i
  {
    if i > 0 {
      assert Below(h, i);
      RootIsLeast(h, Parent(i));
    }
  }

  lemma SwapKeepsTimers(h: seq<Timer>, i: nat, j: nat)
    requires i < |h| && j < |h|
    ensures multiset(Swapped(h, i, j)) == multiset(h)
    ensures forall t :: t in Swapped(h, i, j) <==> t in h
  {
    assert forall t :: t in Swapped(h, i, j) <==> t in multiset(Swapped(h, i, j));
  }

  // ------------------------------------------------------------- the timer list

  class TimerList {
    var heap: seq<Timer>

    /** Every timer knows its place. */
    ghost predicate Placed()
      reads this, heap
    {
      forall i :: 0 <= i < |heap| ==> heap[i].heapPos == i
    }

    ghost predicate Valid()
      reads this, heap
    {
      Placed() && IsHeap(heap)
    }

    constructor ()
      ensures Valid() && heap == []
    {
      heap := [];
    }

    /** include/tlist.h: the two stores that exchange a pair of entries. */
    method Exchange(i: nat, j: nat)
      requires Placed() && i < |heap| && j < |heap| && i != j
      modifies this, heap
      ensures Placed() && heap == Swapped(old(heap), i, j) && multiset(heap) == multiset(old(heap))
      ensures forall t :: t in heap <==> t in old(heap)
    {
      SwapKeepsTimers(heap, i, j);
      var a, b := heap[i], heap[j];
      heap := heap[i := b];
      b.heapPos := i;
      heap := heap[j := a];
      a.heapPos := j;
    }

    /** include/tlist.h: timerlist_heap_sift_up. */
    method SiftUp(pos: nat)
      requires Placed() && pos < |heap| && TooHigh(heap, pos)
      modifies this, heap
      ensures Valid() && multiset(heap) == multiset(old(heap))
    {
      var p: nat := pos;
      while p > 0 && Cmp(heap[Parent(p)], heap[p]) > 0
        invariant p < |heap| && Placed() && TooHigh(heap, p)
        invariant multiset(heap) == multiset(old(heap))
        invariant forall i :: 0 <= i < |heap| ==> heap[i] in old(heap)
        decreases p
      {
        UpStep(heap, p);
        Exchange(p, Parent(p));
        p := Parent(p);
      }
      UpDone(heap, p);
    }

    /** include/tlist.h: timerlist_heap_sift_down. */
    method SiftDown(pos: nat)
      requires Placed() && pos < |heap| && TooLow(heap, pos)
      modifies this, heap
      ensures Valid() && multiset(heap) == multiset(old(heap))
    {
      var p: nat := pos;
      while true
        invariant p < |heap| && Placed() && TooLow(heap, p)
        invariant multiset(heap) == multiset(old(heap))
        invariant forall i :: 0 <= i < |heap| ==> heap[i] in old(heap)
        decreases |heap| - p
      {
        Family(p);
        var smallest, left, right := p, Left(p), Right(p);
        if left < |heap| && Cmp(heap[left], heap[smallest]) < 0 {
          smallest := left;
        }
        if right < |heap| && Cmp(heap[right], heap[smallest]) < 0 {
          smallest := right;
        }
        if smallest == p {
          DownDone(heap, p);
          return;
        }
        DownStep(heap, p, smallest);
        Exchange(p, smallest);
        p := smallest;
      }
    }

    /** include/tlist.h: timerlist_add. */
    method Add(t: Timer)
      requires Valid() && t !in heap
      modifies this, heap, t
      ensures Valid() && multiset(heap) == multiset(old(heap)) + multiset{t}
    {
      heap := heap + [t];
      t.heapPos := |heap| - 1;
      assert TooHigh(heap, |heap| - 1) by {
        forall i | 0 < i < |heap| && i != |heap| - 1 ensures Below(heap, i) {
          assert Below(old(heap), i);
        }
      }
      SiftUp(|heap| - 1);
    }

    /** include/tlist.h: the stores of timerlist_heap_delete. */
    method FillFromEnd(pos: nat)
      requires Placed() && pos < |heap|
      modifies this, heap
      ensures Placed() && heap == old(heap)[pos := old(heap)[|old(heap)| - 1]][..|old(heap)| - 1]
      ensures forall i :: 0 <= i < |heap| ==> heap[i] in old(heap)
    {
      var t, last := heap[pos], heap[|heap| - 1];
      t.heapPos := NOWHERE;
      heap := heap[pos := last];
      last.heapPos := pos;
      heap := heap[..|heap| - 1];
    }

    /** include/tlist.h: timerlist_heap_delete, for a timer anywhere in the heap. */
    method Delete(t: Timer)
      requires Valid() && t in heap
      modifies this, heap
      ensures Valid() && multiset(heap) == multiset(old(heap)) - multiset{t} && t !in heap
    {
      hide IsHeap, TooHigh, TooLow, Below;
      var pos, last := t.heapPos, heap[|heap| - 1];
      ghost var h0 := heap;
      assert h0[pos] == t;
      FillFromEnd(pos);
      DeleteImage(h0, pos, heap);
      ghost var rest := heap;
      if Cmp(last, t) < 0 {
        SiftUp(pos);
      } else if Cmp(last, t) > 0 {
        SiftDown(pos);
      }
      assert t !in multiset(rest);
    }

    /**
     include/tlist.h: timerlist_expire, for callbacks that leave the list alone.
     `fired` are the timers whose callbacks ran, in that order: exactly those due
     before `now`, the earliest first.
     */
    method Expire(now: nat) returns (fired: seq<Timer>)
      requires Valid()
      modifies this, heap
      ensures Valid() && multiset(fired) + multiset(heap) == multiset(old(heap))
      ensures InOrder(fired)
      ensures forall i :: 0 <= i < |fired| ==> fired[i].expireTime < now
      ensures forall i :: 0 <= i < |heap| ==> heap[i].expireTime >= now
    {
      hide IsHeap, InOrder, NoLater;
      fired := [];
      NoneFired(heap);
      while |heap| > 0
        invariant Valid() && multiset(fired) + multiset(heap) == multiset(old(heap))
        invariant AllIn(heap, old(heap))
        invariant InOrder(fired) && NoLater(fired, heap)
        invariant forall i :: 0 <= i < |fired| ==> fired[i].expireTime < now
        decreases |heap|
      {
        var t := heap[0];
        if t.expireTime >= now {
          NoneDue(heap, now);
          break;
        }
        ghost var h := heap;
        Delete(t); // timerlist_pre_dispatch
        Fewer(h, heap, t);
        AllInTransitive(heap, h, old(heap));
        RootNext(fired, h, heap);
        fired := fired + [t]; // timer_fn
      }
    }
  }

  lemma NoneFired(h: seq<Timer>)
    ensures InOrder([]) && NoLater([], h)
  {
  }

  lemma NoneDue(h: seq<Timer>, now: nat)
    requires IsHeap(h) && h != [] && h[0].expireTime >= now
    ensures forall i :: 0 <= i < |h| ==> h[i].expireTime >= now
  {
    forall i | 0 <= i < |h| ensures h[i].expireTime >= now {
      RootIsLeast(h, i);
    }
  }

  lemma Fewer(h: seq<Timer>, r: seq<Timer>, t: Timer)
    requires t in h && multiset(r) == multiset(h) - multiset{t}
    ensures |r| == |h| - 1
    ensures AllIn(r, h)
    ensures multiset([t]) + multiset(r) == multiset(h)
  {
    assert |multiset(r)| == |multiset(h)| - 1;
    forall i | 0 <= i < |r| ensures r[i] in h {
      assert r[i] in multiset(r);
    }
  }

  ghost predicate AllIn(a: seq<Timer>, b: seq<Timer>) {
    forall i :: 0 <= i < |a| ==> a[i] in b
  }

  lemma AllInTransitive(a: seq<Timer>, b: seq<Timer>, c: seq<Timer>)
    requires AllIn(a, b) && AllIn(b, c)
    ensures AllIn(a, c)
  {
    forall i | 0 <= i < |a| ensures a[i] in c {
      var j :| 0 <= j < |b| && b[j] == a[i];
    }
  }

  ghost predicate InOrder(ts: seq<Timer>) {
    forall i, j :: 0 <= i < j < |ts| ==> ts[i].expireTime <= ts[j].expireTime
  }

  /** All of `ts` expire no later than any of `later`. */
  ghost predicate NoLater(ts: seq<Timer>, later: seq<Timer>) {
    forall i, j :: 0 <= i < |ts| && 0 <= j < |later| ==> ts[i].expireTime <= later[j].expireTime
  }

  /** Taking the root out of a heap: it goes to the end of those gone before. */
  lemma RootNext(ts: seq<Timer>, h: seq<Timer>, rest: seq<Timer>)
    requires InOrder(ts) && NoLater(ts, h) && h != [] && IsHeap(h)
    requires AllIn(rest, h)
    ensures InOrder(ts + [h[0]]) && NoLater(ts + [h[0]], rest)
  {
    forall i | 0 <= i < |rest| ensures h[0].expireTime <= rest[i].expireTime && rest[i] in h {
      var j :| 0 <= j < |h| && h[j] == rest[i];
      RootIsLeast(h, j);
    }
    forall i, j | 0 <= i < |ts| && 0 <= j < |rest| ensures ts[i].expireTime <= rest[j].expireTime {
      var x :| 0 <= x < |h| && h[x] == rest[j];
    }
  }

  /** The last entry in the place of the deleted one. */
  lemma DeleteImage(h: seq<Timer>, pos: nat, r: seq<Timer>)
    requires IsHeap(h) && pos < |h| && r == h[pos := h[|h| - 1]][..|h| - 1]
    requires forall i, j :: 0 <= i < j < |h| ==> h[i] != h[j]
    ensures multiset(r) == multiset(h) - multiset{h[pos]} && h[pos] !in r
    ensures pos == |h| - 1 ==> IsHeap(r)
    ensures pos < |h| - 1 ==>
              && (h[|h| - 1].expireTime <= h[pos].expireTime ==> TooHigh(r, pos))
              && (h[|h| - 1].expireTime >= h[pos].expireTime ==> TooLow(r, pos))
              && (h[|h| - 1].expireTime == h[pos].expireTime ==> IsHeap(r))
  {
    hide IsHeap, TooHigh, TooLow;
    var n := |h| - 1;
    HeapPrefix(h, n);
    DeleteTimers(h, pos, r);
    if pos < n {
      assert r == h[..n][pos := h[n]];
      Replaced(h[..n], pos, h[n]);
    } else {
      assert r == h[..n];
    }
  }

  lemma DeleteTimers(h: seq<Timer>, pos: nat, r: seq<Timer>)
    requires pos < |h| && r == h[pos := h[|h| - 1]][..|h| - 1]
    requires forall i, j :: 0 <= i < j < |h| ==> h[i] != h[j]
    ensures multiset(r) == multiset(h) - multiset{h[pos]} && h[pos] !in r
  {
    var n := |h| - 1;
    DeletedGone(h, pos, r);
    if pos < n {
      DeletedInside(h, pos);
    } else {
      assert h == h[..n] + [h[pos]] && r == h[..n];
      Pieces(h[..n], h[pos], [], h[pos]);
    }
  }

  lemma DeletedInside(h: seq<Timer>, pos: nat)
    requires pos < |h| - 1
    ensures multiset(h[pos := h[|h| - 1]][..|h| - 1]) == multiset(h) - multiset{h[pos]}
  {
    var a, b := Parts(h, pos);
    Pieces(a, h[pos], b, h[|h| - 1]);
  }

  /** A heap around two of its entries, before and after one takes the other's place. */
  lemma Parts(h: seq<Timer>, pos: nat) returns (a: seq<Timer>, b: seq<Timer>)
    requires pos < |h| - 1
    ensures h == a + [h[pos]] + b + [h[|h| - 1]]
    ensures h[pos := h[|h| - 1]][..|h| - 1] == a + [h[|h| - 1]] + b
  {
    a, b := h[..pos], h[pos + 1..|h| - 1];
  }

  lemma Pieces(a: seq<Timer>, x: Timer, b: seq<Timer>, y: Timer)
    ensures multiset(a + [y] + b) == multiset(a + [x] + b + [y]) - multiset{x}
    ensures multiset(a) == multiset(a + [x]) - multiset{x}
  {
  }

  lemma DeletedGone(h: seq<Timer>, pos: nat, r: seq<Timer>)
    requires pos < |h| && r == h[pos := h[|h| - 1]][..|h| - 1]
    requires forall i, j :: 0 <= i < j < |h| ==> h[i] != h[j]
    ensures h[pos] !in r
  {
    forall i | 0 <= i < |r| ensures r[i] != h[pos] {
      assert r[i] == if i == pos then h[|h| - 1] else h[i];
    }
  }
}
