/**
 What an update of a key in the trie calls: the notifiers registered for the key
 and for its prefixes, the longest first.
 */
module TrieNotify {
  import opened Common
  import opened MapTypes
  import opened TrieNodes

  datatype Call = Call(event: Event, key: Key, oldValue: Option<Value>, newValue: Option<Value>, to: Notifier)

  /** An update as it is announced. */
  datatype Update = Update(event: Event, key: Key, oldValue: Option<Value>, newValue: Option<Value>)

  type Registrations = map<Key, seq<Notifier>>

  function RegsAt(regs: Registrations, p: Key): (r: seq<Notifier>) {
    if p in regs then regs[p] else []
  }

  /** lib/trie.c: the body of the list loop of trie_notify.  `here` says that the
      notifier is registered for the updated key itself. */
  function CallsTo(n: Notifier, here: bool, u: Update): (r: seq<Call>) {
    (if u.event in n.events && (Recursive in n.events || here)
     then [Call(u.event, u.key, u.oldValue, u.newValue, n)] else []) +
    (if (u.event == Deleted || u.event == Replaced) && Free in n.events
     then [Call(Free, u.key, u.oldValue, u.newValue, n)] else [])
  }

  function CallsToAll(ns: seq<Notifier>, here: bool, u: Update): (r: seq<Call>)
    decreases |ns|
  {
    if ns == [] then []
    else CallsToAll(ns[..|ns| - 1], here, u) + CallsTo(ns[|ns| - 1], here, u)
  }

  /** All calls for an update of u.key, from prefix `p` of it outward. */
  function CallsFrom(regs: Registrations, p: Key, u: Update): (r: seq<Call>)
    decreases |p|
  {
    CallsToAll(RegsAt(regs, p), p == u.key, u) +
    if p == [] then [] else CallsFrom(regs, p[..|p| - 1], u)
  }

  // ------------------------------------------------------ who is called, and how often

  function Count(calls: seq<Call>, n: Notifier, e: Event): (c: nat)
    decreases |calls|
  {
    if calls == [] then 0
    else (if calls[0].to == n && calls[0].event == e then 1 else 0) + Count(calls[1..], n, e)
  }

  lemma {:induction false} CountAppend(a: seq<Call>, b: seq<Call>, n: Notifier, e: Event)
    ensures Count(a + b, n, e) == Count(a, n, e) + Count(b, n, e)
    decreases |a|
  {
    if a == [] {
      assert a + b == b;
    } else {
      assert (a + b)[1..] == a[1..] + b;
      CountAppend(a[1..], b, n, e);
    }
  }

  ghost predicate Distinct(ns: seq<Notifier>) {
    forall i, j :: 0 <= i < j < |ns| ==> ns[i] != ns[j]
  }

  /** Whether an update is announced to a notifier with event e: the update's own event if
      it asked for it, recursively or for that key; and the release of the old value, if it
      asked for that, whenever a value is replaced or deleted. */
  predicate Hears(n: Notifier, e: Event, here: bool, u: Update) {
    if e == Free then Free in n.events && (u.event == Deleted || u.event == Replaced)
    else e == u.event && e in n.events && (Recursive in n.events || here)
  }

  lemma {:induction false} CountInList(ns: seq<Notifier>, here: bool, u: Update, n: Notifier, e: Event)
    requires Distinct(ns) && u.event != Free
    ensures Count(CallsToAll(ns, here, u), n, e) == if n in ns && Hears(n, e, here, u) then 1 else 0
    decreases |ns|
  {
    hide CallsTo, Hears;
    if ns != [] {
      var init, m := ns[..|ns| - 1], ns[|ns| - 1];
      CountInList(init, here, u, n, e);
      CountAppend(CallsToAll(init, here, u), CallsTo(m, here, u), n, e);
      CountOne(m, here, u, n, e);
      assert ns == init + [m];
    }
  }

  lemma CountOne(m: Notifier, here: bool, u: Update, n: Notifier, e: Event)
    requires u.event != Free
    ensures Count(CallsTo(m, here, u), n, e) == if n == m && Hears(n, e, here, u) then 1 else 0
  {
    hide Count;
    var first := if u.event in m.events && (Recursive in m.events || here)
                 then [Call(u.event, u.key, u.oldValue, u.newValue, m)] else [];
    var second := if (u.event == Deleted || u.event == Replaced) && Free in m.events
                  then [Call(Free, u.key, u.oldValue, u.newValue, m)] else [];
    assert CallsTo(m, here, u) == first + second;
    CountAppend(first, second, n, e);
    CountShort(first, n, e);
    CountShort(second, n, e);
  }

  lemma CountShort(r: seq<Call>, n: Notifier, e: Event)
    requires |r| <= 1
    ensures Count(r, n, e) == if r != [] && r[0].to == n && r[0].event == e then 1 else 0
  {
    if r != [] {
      assert r[1..] == [];
    }
  }

  /** The registration of n for the first i characters of the updated key is one to which
      the update is announced with event e. */
  predicate Concerns(regs: Registrations, u: Update, n: Notifier, e: Event, i: nat)
    requires i <= |u.key|
  {
    n in RegsAt(regs, u.key[..i]) && Hears(n, e, i == |u.key|, u)
  }

  /** Those registrations, for prefixes of up to `len` characters. */
  function Concerned(regs: Registrations, u: Update, n: Notifier, e: Event, len: nat): (s: set<nat>)
    requires len <= |u.key|
  {
    set i: nat | i <= len && Concerns(regs, u, n, e, i)
  }

  /**
   A notifier is called for an update, with each event, once for each of its registrations
   that concern it, for the key or for prefixes of it, and not otherwise.
   */
  lemma NotifiedOncePerRegistration(regs: Registrations, u: Update, n: Notifier, e: Event)
    requires u.event != Free && forall q :: q in regs ==> Distinct(regs[q])
    ensures Count(CallsFrom(regs, u.key, u), n, e) == |Concerned(regs, u, n, e, |u.key|)|
  {
    CountFrom(regs, u, n, e, |u.key|);
    assert u.key[..|u.key|] == u.key;
  }

  lemma {:induction false} CountFrom(regs: Registrations, u: Update, n: Notifier, e: Event, len: nat)
    requires u.event != Free && len <= |u.key| && forall q :: q in regs ==> Distinct(regs[q])
    ensures Count(CallsFrom(regs, u.key[..len], u), n, e) == |Concerned(regs, u, n, e, len)|
    decreases len
  {
    hide CallsToAll, Distinct, RegsAt, Concerned, Concerns, Count;
    var k := u.key[..len];
    var here := CallsToAll(RegsAt(regs, k), k == u.key, u);
    OneList(regs, u, n, e, len);
    ConcernedGrows(regs, u, n, e, len);
    if len == 0 {
      assert CallsFrom(regs, k, u) == here;
    } else {
      var rest := CallsFrom(regs, u.key[..len - 1], u);
      assert k[..len - 1] == u.key[..len - 1];
      assert CallsFrom(regs, k, u) == here + rest;
      CountAppend(here, rest, n, e);
      CountFrom(regs, u, n, e, len - 1);
    }
  }

  /** Those for prefixes that are shorter. */
  function Shorter(regs: Registrations, u: Update, n: Notifier, e: Event, len: nat): (s: set<nat>)
    requires len <= |u.key|
  {
    if len == 0 then {} else Concerned(regs, u, n, e, len - 1)
  }

  lemma ConcernedSplits(regs: Registrations, u: Update, n: Notifier, e: Event, len: nat)
    requires len <= |u.key|
    ensures len !in Shorter(regs, u, n, e, len)
    ensures Concerned(regs, u, n, e, len) ==
            Shorter(regs, u, n, e, len) + if Concerns(regs, u, n, e, len) then {len} else {}
  {
    hide Concerns;
  }

  lemma ConcernedGrows(regs: Registrations, u: Update, n: Notifier, e: Event, len: nat)
    requires len <= |u.key|
    ensures |Concerned(regs, u, n, e, len)| ==
            |Shorter(regs, u, n, e, len)| + if Concerns(regs, u, n, e, len) then 1 else 0
  {
    hide Concerns, Concerned, Shorter;
    ConcernedSplits(regs, u, n, e, len);
  }

  /** The calls made for one prefix. */
  lemma OneList(regs: Registrations, u: Update, n: Notifier, e: Event, len: nat)
    requires u.event != Free && len <= |u.key| && forall q :: q in regs ==> Distinct(regs[q])
    ensures var k := u.key[..len];
            Count(CallsToAll(RegsAt(regs, k), k == u.key, u), n, e) == if Concerns(regs, u, n, e, len) then 1 else 0
  {
    hide Count, CallsToAll, Hears;
    var k := u.key[..len];
    assert k == u.key <==> len == |u.key|;
    CountInList(RegsAt(regs, k), k == u.key, u, n, e);
  }

  // -------------------------------------------------------------- what is told

  /** Every call tells of this key, with the value it had and the value it has. */
  ghost predicate Telling(calls: seq<Call>, key: Key, before: Option<Value>, now: Option<Value>) {
    forall i :: 0 <= i < |calls| ==> calls[i].key == key && calls[i].oldValue == before && calls[i].newValue == now
  }

  lemma {:induction false} ListTells(ns: seq<Notifier>, here: bool, u: Update)
    ensures Telling(CallsToAll(ns, here, u), u.key, u.oldValue, u.newValue)
    decreases |ns|
  {
    if ns != [] {
      ListTells(ns[..|ns| - 1], here, u);
    }
  }

  lemma {:induction false} CallsTell(regs: Registrations, p: Key, u: Update)
    ensures Telling(CallsFrom(regs, p, u), u.key, u.oldValue, u.newValue)
    decreases |p|
  {
    hide CallsToAll;
    ListTells(RegsAt(regs, p), p == u.key, u);
    if p != [] {
      CallsTell(regs, p[..|p| - 1], u);
    }
  }

  /** The calls that an update of `key` from value `before` to value `now` demands: each
      registration that concerns it is called once, with both values. */
  ghost predicate Announced(regs: Registrations, calls: seq<Call>, key: Key,
                            before: Option<Value>, now: Option<Value>) {
    && Telling(calls, key, before, now)
    && forall n, e :: Count(calls, n, e) == |Concerned(regs, UpdateOf(key, before, now), n, e, |key|)|
  }

  /** The event of an update, by the values before and after it. */
  function UpdateOf(key: Key, before: Option<Value>, now: Option<Value>): (u: Update)
    ensures u.key == key && u.event != Free
    ensures u.event == Inserted <==> before.None?
    ensures u.event == Deleted <==> before.Some? && now.None?
    ensures u.event == Replaced <==> before.Some? && now.Some?
  {
    Update(if before.None? then Inserted else if now.None? then Deleted else Replaced, key, before, now)
  }

  lemma AllAnnounced(regs: Registrations, u: Update)
    requires u == UpdateOf(u.key, u.oldValue, u.newValue) && forall q :: q in regs ==> Distinct(regs[q])
    ensures Announced(regs, CallsFrom(regs, u.key, u), u.key, u.oldValue, u.newValue)
  {
    hide CallsFrom, Telling, Count, Concerned, Distinct;
    CallsTell(regs, u.key, u);
    forall n, e ensures Count(CallsFrom(regs, u.key, u), n, e) == |Concerned(regs, u, n, e, |u.key|)| {
      NotifiedOncePerRegistration(regs, u, n, e);
    }
  }

  /** On an insertion no old value is released. */
  lemma NoneFreedOnInsert(regs: Registrations, calls: seq<Call>, key: Key, now: Option<Value>, n: Notifier)
    requires Announced(regs, calls, key, None, now)
    ensures Count(calls, n, Free) == 0
  {
    hide Count;
    assert Count(calls, n, Free) == |Concerned(regs, UpdateOf(key, None, now), n, Free, |key|)|;
    assert Concerned(regs, UpdateOf(key, None, now), n, Free, |key|) == {};
  }

  // -------------------------------------------------------------- the way up

  /** The notifiers of the tree are `regs`. */
  ghost predicate Registered(ns: Nodes, regs: Registrations) {
    forall k :: CellAt(ns, k).notifiers == RegsAt(regs, k)
  }

  /** Nobody is registered strictly inside a segment. */
  lemma InsideSegment(ns: Nodes, path: map<Ptr, Key>, n: Ptr, s: nat)
    requires Links(ns, path) && n in ns && n != HEADER && s < |ns[n].segment|
    ensures UpLink(ns, path, n) && CellAt(ns, Spelled(ns, path, n, s)) == EMPTY
  {
    hide Walk;
    WalkComplete(ns, path, n, s);
  }

  lemma CallsSnoc(regs: Registrations, p: Key, c: Ch, u: Update)
    ensures CallsFrom(regs, p + [c], u) ==
            CallsToAll(RegsAt(regs, p + [c]), p + [c] == u.key, u) + CallsFrom(regs, p, u)
  {
    assert (p + [c])[..|p|] == p;
  }

  lemma {:induction false} SkipSegment(ns: Nodes, path: map<Ptr, Key>, regs: Registrations, n: Ptr, s: nat, u: Update)
    requires Links(ns, path) && n in ns && n != HEADER && s < |ns[n].segment|
    requires Registered(ns, regs)
    ensures UpLink(ns, path, n)
    ensures CallsFrom(regs, Spelled(ns, path, n, s), u) == CallsFrom(regs, path[ns[n].parent], u)
    decreases s
  {
    hide CellAt, Walk, CallsFrom;
    InsideSegment(ns, path, n, s);
    var k := Spelled(ns, path, n, s);
    assert RegsAt(regs, k) == CellAt(ns, k).notifiers == [];
    if s == 0 {
      assert k == path[ns[n].parent] + [Char(ns[n].idx)];
      CallsSnoc(regs, path[ns[n].parent], Char(ns[n].idx), u);
    } else {
      SkipSegment(ns, path, regs, n, s - 1, u);
      assert k == Spelled(ns, path, n, s - 1) + [ns[n].segment[s - 1]];
      CallsSnoc(regs, Spelled(ns, path, n, s - 1), ns[n].segment[s - 1], u);
    }
  }

  /** One turn of the loop of trie_notify: this node's notifiers, then the parent's. */
  lemma CallsFromNode(ns: Nodes, path: map<Ptr, Key>, regs: Registrations, n: Ptr, u: Update)
    requires Links(ns, path) && n in ns && Registered(ns, regs)
    ensures n != HEADER ==> UpLink(ns, path, n)
    ensures CallsFrom(regs, path[n], u) ==
            CallsToAll(ns[n].notifiers, path[n] == u.key, u) +
            if n == HEADER then [] else CallsFrom(regs, path[ns[n].parent], u)
  {
    hide CellAt, Walk, CallsToAll;
    CellAtNode(ns, path, n);
    assert RegsAt(regs, path[n]) == CellAt(ns, path[n]).notifiers;
    if n != HEADER {
      assert UpLink(ns, path, n);
      var d := ns[n];
      var up := path[d.parent];
      if d.segment == [] {
        assert path[n] == up + [Char(d.idx)];
        CallsSnoc(regs, up, Char(d.idx), u);
      } else {
        var s := |d.segment| - 1;
        SkipSegment(ns, path, regs, n, s, u);
        assert path[n] == Spelled(ns, path, n, s) + [d.segment[s]];
        CallsSnoc(regs, Spelled(ns, path, n, s), d.segment[s], u);
      }
    }
  }
}
