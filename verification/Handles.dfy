/** The reference-counted handle database. */
module Handles {
  import opened Common
  import opened MapTypes
  import GrowArray

  datatype SlotState = Empty | PendingRemoval | Active
  datatype Slot = Slot(state: SlotState, instance: Ptr, refcount: int, check: int)

  const ZERO := Slot(Empty, NULL, 0, 0)

  /** A handle carries the check of its slot; `ANY` stands for every check. */
  const ANY: int := -1
  datatype Handle = Handle(check: int, index: int)

  /**
   What has happened to a database: every handle ever created, with its instance;
   the handles destroyed; the references held, each creator's included; how often
   each instance was freed; and how many instances there have been.
   */
  datatype Story = Story(born: map<Handle, Ptr>, dead: set<Handle>, refs: multiset<Handle>, freed: multiset<Ptr>,
      unused: Ptr)

  const NOTHING := Story(map[], {}, multiset{}, multiset{}, 1)

  ghost predicate SlotOk(slots: seq<Slot>, y: Story, i: nat)
    requires i < |slots|
  {
    slots[i] == ZERO ||
    var h := Handle(slots[i].check, i);
    && h in y.born && y.refs[h] > 0
    && slots[i] == Slot(if h in y.dead then PendingRemoval else Active, y.born[h], y.refs[h], h.check)
  }

  /** A handle has its slot until its last reference is gone; then, and only then, its
      instance has been freed, once. */
  ghost predicate HandleOk(slots: seq<Slot>, y: Story, h: Handle)
    requires h in y.born
  {
    && h.check > 0 && 0 <= h.index < |slots| && y.born[h] < y.unused
    && (y.refs[h] > 0 ==> slots[h.index].check == h.check)
    && (y.refs[h] == 0 ==> h in y.dead)
    && y.freed[y.born[h]] == One(y.refs[h] == 0)
  }

  /** Checks tell handles apart, and no two share an instance. */
  ghost predicate Separate(y: Story) {
    && (forall h, g :: h in y.born && g in y.born && h != g ==> h.check != g.check && y.born[h] != y.born[g])
    && (forall p :: p in y.freed ==> p < y.unused)
    && y.dead <= y.born.Keys
    && (forall h :: h in y.refs ==> h in y.born)
  }

  ghost predicate Core(slots: seq<Slot>, y: Story) {
    && (forall i :: 0 <= i < |slots| ==> SlotOk(slots, y, i))
    && (forall h :: h in y.born ==> HandleOk(slots, y, h))
    && Separate(y)
  }

  /** Two stories that differ in one handle only. */
  ghost predicate Apart(y: Story, z: Story, h: Handle) {
    && y.born.Keys + {h} == z.born.Keys && z.unused >= y.unused
    && (forall g :: g in y.born && g != h ==>
          z.born[g] == y.born[g] && z.refs[g] == y.refs[g] && (g in z.dead <==> g in y.dead) &&
              z.freed[y.born[g]] == y.freed[y.born[g]])
  }

  /** A change to one handle and its slot leaves the others in order. */
  lemma Changed(slots: seq<Slot>, y: Story, slots': seq<Slot>, z: Story, h: Handle)
    requires Core(slots, y) && Separate(z) && Apart(y, z, h)
    requires 0 <= h.index < |slots| == |slots'| && slots' == slots[h.index := slots'[h.index]]
    requires slots[h.index] == ZERO || slots[h.index].check == h.check
    requires SlotOk(slots', z, h.index) && HandleOk(slots', z, h)
    ensures Core(slots', z)
  {
    forall i | 0 <= i < |slots'| ensures SlotOk(slots', z, i) {
      if i != h.index {
        assert SlotOk(slots, y, i);
      }
    }
    forall g | g in z.born ensures HandleOk(slots', z, g) {
      if g != h {
        assert HandleOk(slots, y, g);
      }
    }
  }

  /** The slot of a handle that has references. */
  lemma SlotOf(slots: seq<Slot>, y: Story, h: Handle)
    requires Core(slots, y) && h in y.born && y.refs[h] > 0
    ensures 0 <= h.index < |slots| && h.check > 0 && y.born[h] < y.unused && y.freed[y.born[h]] == 0
    ensures slots[h.index] == Slot(if h in y.dead then PendingRemoval else Active, y.born[h], y.refs[h], h.check)
  {
    assert HandleOk(slots, y, h);
    assert SlotOk(slots, y, h.index);
  }

  lemma OccupiedStory(y: Story, h: Handle)
    requires Separate(y) && h !in y.born && forall g :: g in y.born ==> g.check != h.check && y.born[g] < y.unused
    ensures var z := y.(born := y.born[h := y.unused], refs := y.refs + multiset{h}, unused := y.unused + 1);
            Separate(z) && Apart(y, z, h)
  {
  }

  lemma ReleasedStory(y: Story, h: Handle)
    requires Separate(y) && h in y.born && y.born[h] < y.unused && h in y.refs
    ensures var z := y.(refs := y.refs - multiset{h}, freed := y.freed + multiset{y.born[h]});
            Separate(z) && Apart(y, z, h)
  {
  }

  /** A new handle in an empty slot. */
  lemma Occupied(slots: seq<Slot>, y: Story, h: Handle)
    requires Core(slots, y) && 0 <= h.index < |slots| && slots[h.index] == ZERO
    requires h.check > 0 && forall g :: g in y.born ==> g.check != h.check
    ensures Core(slots[h.index := Slot(Active, y.unused, 1, h.check)],
                 y.(born := y.born[h := y.unused], refs := y.refs + multiset{h}, unused := y.unused + 1))
  {
    assert h !in y.born && h !in y.refs && h !in y.dead;
    assert y.freed[y.unused] == 0;
    forall g | g in y.born ensures y.born[g] < y.unused { assert HandleOk(slots, y, g); }
    var z := y.(born := y.born[h := y.unused], refs := y.refs + multiset{h}, unused := y.unused + 1);
    OccupiedStory(y, h);
    assert HandleOk(slots[h.index := Slot(Active, y.unused, 1, h.check)], z, h);
    hide Separate, Apart, Core, HandleOk;
    Changed(slots, y, slots[h.index := Slot(Active, y.unused, 1, h.check)], z, h);
  }

  /** One reference more to a handle that has one. */
  lemma Referenced(slots: seq<Slot>, y: Story, h: Handle)
    requires Core(slots, y) && h in y.born && y.refs[h] > 0
    ensures 0 <= h.index < |slots|
    ensures var d := slots[h.index];
            Core(slots[h.index := d.(refcount := d.refcount + 1)], y.(refs := y.refs + multiset{h}))
  {
    SlotOf(slots, y, h);
    var d := slots[h.index];
    Changed(slots, y, slots[h.index := d.(refcount := d.refcount + 1)], y.(refs := y.refs + multiset{h}), h);
  }

  /** One reference less, not the last. */
  lemma Unreferenced(slots: seq<Slot>, y: Story, h: Handle)
    requires Core(slots, y) && h in y.born && y.refs[h] > 1
    ensures 0 <= h.index < |slots|
    ensures var d := slots[h.index];
            Core(slots[h.index := d.(refcount := d.refcount - 1)], y.(refs := y.refs - multiset{h}))
  {
    SlotOf(slots, y, h);
    var d := slots[h.index];
    Changed(slots, y, slots[h.index := d.(refcount := d.refcount - 1)], y.(refs := y.refs - multiset{h}), h);
  }

  /** The last reference goes: the instance is freed, the slot cleared. */
  lemma Released(slots: seq<Slot>, y: Story, h: Handle)
    requires Core(slots, y) && h in y.born && y.refs[h] == 1 && h in y.dead
    ensures 0 <= h.index < |slots|
    ensures Core(slots[h.index := ZERO], y.(refs := y.refs - multiset{h}, freed := y.freed + multiset{y.born[h]}))
  {
    hide SlotOk;
    SlotOf(slots, y, h);
    var z := y.(refs := y.refs - multiset{h}, freed := y.freed + multiset{y.born[h]});
    ReleasedStory(y, h);
    assert HandleOk(slots[h.index := ZERO], z, h) by {
      assert z.refs[h] == 0 && z.freed[z.born[h]] == 1;
    }
    hide Separate, Apart, Core, HandleOk;
    Changed(slots, y, slots[h.index := ZERO], z, h);
  }

  /** A handle is destroyed. */
  lemma Marked(slots: seq<Slot>, y: Story, h: Handle)
    requires Core(slots, y) && h in y.born && y.refs[h] > 0
    ensures 0 <= h.index < |slots|
    ensures Core(slots[h.index := slots[h.index].(state := PendingRemoval)], y.(dead := y.dead + {h}))
  {
    SlotOf(slots, y, h);
    Changed(slots, y, slots[h.index := slots[h.index].(state := PendingRemoval)], y.(dead := y.dead + {h}), h);
  }

  lemma MoreSlots(slots: seq<Slot>, y: Story)
    requires Core(slots, y)
    ensures Core(slots + [ZERO], y)
  {
    var longer := slots + [ZERO];
    forall i | 0 <= i < |longer| ensures SlotOk(longer, y, i) {
      if i < |slots| {
        assert SlotOk(slots, y, i);
      }
    }
    forall h | h in y.born ensures HandleOk(longer, y, h) {
      assert HandleOk(slots, y, h);
    }
  }

  /** The code accepts a handle for a slot. */
  predicate Matches(slots: seq<Slot>, h: Handle) {
    0 <= h.index < |slots| && (h.check == ANY || h.check == slots[h.index].check)
  }

  /** The handle that is meant: without a check, the one whose slot it is now. */
  function Meant(slots: seq<Slot>, h: Handle): (g: Handle)
    requires Matches(slots, h)
  {
    Handle(slots[h.index].check, h.index)
  }

  /** Which slots are in use, by whom. */
  lemma WhoseSlot(slots: seq<Slot>, y: Story, i: nat)
    requires Core(slots, y) && i < |slots|
    ensures var h := Handle(slots[i].check, i);
            && (slots[i].state.Active? <==> h in y.born && h !in y.dead)
            && (slots[i] != ZERO <==> h in y.born && y.refs[h] > 0)
            && (slots[i] == ZERO <==> slots[i].state.Empty?)
            && (slots[i].check >= 0)
  {
    assert SlotOk(slots, y, i);
    var h := Handle(slots[i].check, i);
    if h in y.born {
      assert HandleOk(slots, y, h);
    }
  }

  /** A new handle, with its creator's reference. */
  ghost function WithNew(y: Story, h: Handle): (z: Story) {
    y.(born := y.born[h := y.unused], refs := y.refs + multiset{h}, unused := y.unused + 1)
  }

  /** One reference less; with the last one the instance is freed. */
  ghost function Without(y: Story, h: Handle): (z: Story)
    requires h in y.born
  {
    y.(refs := y.refs - multiset{h}, freed := y.freed + if y.refs[h] == 1 then multiset{y.born[h]} else multiset{})
  }

  lemma Known(slots: seq<Slot>, y: Story, h: Handle)
    requires Core(slots, y) && h in y.refs
    ensures h in y.born
  {
  }

  /** The only live handle a slot can have is the one it carries the check of. */
  lemma OnlyLive(slots: seq<Slot>, y: Story, i: nat)
    requires Core(slots, y) && i < |slots|
    ensures forall h :: h in y.born && h !in y.dead && h.index == i ==> h.check == slots[i].check
  {
    forall h | h in y.born && h !in y.dead && h.index == i ensures h.check == slots[i].check {
      assert HandleOk(slots, y, h);
    }
  }

  class Database {
    var slots: seq<Slot>
    var cursor: nat
    var unused: Ptr                   // where the next instance is allocated
    ghost var story: Story
    ghost var held: multiset<Handle>  // successful gets not put back

    /** A handle has one reference for each outstanding get and one until destroyed. */
    ghost predicate Valid()
      reads this
    {
      Core(slots, story) && unused == story.unused &&
      forall h :: story.refs[h] == held[h] + One(h in story.born && h !in story.dead)
    }

    constructor ()
      ensures Valid() && story == NOTHING && held == multiset{}
    {
      slots, cursor, unused, story, held := [], 0, 1, NOTHING, multiset{};
    }

    /** lib/hdb.c: qb_hdb_handle_create; `check` is the random number, assumed new.  It
        fails only when every slot the array can have is taken. */
    method Create(check: int) returns (r: Option<Handle>)
      requires Valid() && check > 0 && forall g :: g in story.born ==> g.check != check
      modifies this
      ensures Valid() && held == old(held) && cursor == old(cursor)
      ensures r.Some? ==> r.value.check == check && r.value !in old(story).born
      ensures r.Some? ==> story == WithNew(old(story), r.value)
      ensures r.None? <==>
                |old(slots)| >= GrowArray.MAX_ELEMENTS &&
                forall i :: 0 <= i < |old(slots)| ==> !old(slots)[i].state.Empty?
      ensures r.None? ==> slots == old(slots) && story == old(story)
    {
      hide Core;
      var i: nat := 0;
      while i < |slots| && !slots[i].state.Empty?
        invariant 0 <= i <= |slots| && forall j :: 0 <= j < i ==> !slots[j].state.Empty?
        modifies {}
      {
        i := i + 1;
      }
      if i == |slots| {
        if |slots| + 1 > GrowArray.MAX_ELEMENTS {
          return None;
        }
        MoreSlots(slots, story);
        slots := slots + [ZERO];
      }
      WhoseSlot(slots, story, i);
      var h := Handle(check, i);
      Occupied(slots, story, h);
      NotYet(slots, story, h);
      slots := slots[i := Slot(Active, unused, 1, check)];
      unused := unused + 1;
      story := WithNew(story, h);
      r := Some(h);
    }

    /**
     lib/hdb.c: qb_hdb_handle_get.  A checked handle is good from its creation to its
     destruction, whatever became of its slot since; an unchecked one stands for the
     handle that has the slot now.
     */
    method Get(h: Handle) returns (r: Option<Ptr>)
      requires Valid()
      modifies this`slots, this`story, this`held
      ensures Valid() && |slots| == |old(slots)|
      ensures h.check != ANY ==> (r.Some? <==> h in old(story).born && h !in old(story).dead)
      ensures h.check == ANY ==> (r.Some? <==> 0 <= h.index < |slots| && old(slots)[h.index].state.Active?)
      ensures r.Some? ==>
                Matches(old(slots), h) && Meant(old(slots), h) in old(story).born &&
                Meant(old(slots), h) !in old(story).dead
      ensures r.Some? ==> r.value == old(story).born[Meant(old(slots), h)]
      ensures r.Some? ==> held == old(held) + multiset{Meant(old(slots), h)}
      ensures r.Some? ==> story == old(story).(refs := old(story).refs + multiset{Meant(old(slots), h)})
      ensures r.None? ==> slots == old(slots) && story == old(story) && held == old(held)
    {
      hide Core;
      if h.index < 0 || h.index >= |slots| {
        LiveMatches(slots, story, h);
        return None;
      }
      WhoseSlot(slots, story, h.index);
      var d := slots[h.index];
      if !d.state.Active? || (h.check != ANY && h.check != d.check) {
        LiveMatches(slots, story, h);
        return None;
      }
      ghost var g := Meant(slots, h);
      SlotOf(slots, story, g);
      Referenced(slots, story, g);
      slots := slots[h.index := d.(refcount := d.refcount + 1)];
      story := story.(refs := story.refs + multiset{g});
      held := held + multiset{g};
      return Some(d.instance);
    }

    /** The end of qb_hdb_handle_put: drop a reference, and with the last one the
        instance and the slot. */
    method Unref(i: nat)
      requires Core(slots, story) && i < |slots|
      requires var g := Handle(slots[i].check, i);
               g in story.born && story.refs[g] > 0 && (story.refs[g] == 1 ==> g in story.dead)
      modifies this`slots, this`story
      ensures Core(slots, story)
      ensures var g := Handle(old(slots)[i].check, i);
              story == Without(old(story), g)
    {
      hide Core;
      var d := slots[i];
      ghost var g := Handle(d.check, i);
      SlotOf(slots, story, g);
      if d.refcount - 1 == 0 {
        Released(slots, story, g);
        slots := slots[i := ZERO];
        story := story.(refs := story.refs - multiset{g}, freed := story.freed + multiset{story.born[g]});
      } else {
        Unreferenced(slots, story, g);
        slots := slots[i := d.(refcount := d.refcount - 1)];
        story := story.(refs := story.refs - multiset{g});
      }
    }

    /** lib/hdb.c: qb_hdb_handle_put, by a holder of a successful get. */
    method Put(h: Handle) returns (ok: bool)
      requires Valid() && (Matches(slots, h) ==> Meant(slots, h) in held)
      modifies this`slots, this`story, this`held
      ensures Valid() && (ok <==> Matches(old(slots), h))
      ensures ok ==> held == old(held) - multiset{Meant(old(slots), h)}
      ensures ok ==> story == Without(old(story), Meant(old(slots), h))
      ensures !ok ==> slots == old(slots) && story == old(story) && held == old(held)
    {
      hide Core;
      if h.index < 0 || h.index >= |slots| {
        return false;
      }
      if h.check != ANY && h.check != slots[h.index].check {
        return false;
      }
      ghost var g := Meant(slots, h);
      Known(slots, story, g);
      Unref(h.index);
      held := held - multiset{g};
      return true;
    }

    /** lib/hdb.c: qb_hdb_handle_destroy, once for each handle. */
    method Destroy(h: Handle) returns (ok: bool)
      requires Valid() && (Matches(slots, h) ==> Meant(slots, h) in story.born && Meant(slots, h) !in story.dead)
      modifies this`slots, this`story
      ensures Valid() && (ok <==> Matches(old(slots), h))
      ensures ok ==> story == Without(old(story).(dead := old(story).dead + {Meant(old(slots), h)}),
              Meant(old(slots), h))
      ensures !ok ==> slots == old(slots) && story == old(story)
    {
      hide Core;
      if h.index < 0 || h.index >= |slots| {
        return false;
      }
      if h.check != ANY && h.check != slots[h.index].check {
        return false;
      }
      ghost var g := Meant(slots, h);
      assert story.refs[g] == held[g] + 1;
      SlotOf(slots, story, g);
      Marked(slots, story, g);
      slots := slots[h.index := slots[h.index].(state := PendingRemoval)];
      story := story.(dead := story.dead + {g});
      Unref(h.index); // the same tests again, with the same outcome, in qb_hdb_handle_put
      return true;
    }

    /** lib/hdb.c: qb_hdb_iterator_next: the next live handle, with a reference to it. */
    method IteratorNext() returns (r: Option<Handle>)
      requires Valid()
      modifies this`slots, this`story, this`held, this`cursor
      ensures Valid() && cursor >= old(cursor)
      ensures r.Some? ==> r.value.index == cursor - 1 >= old(cursor) && r.value in story.born && r.value !in story.dead
      ensures r.Some? ==> held == old(held) + multiset{r.value}
      ensures r.None? ==> held == old(held) && cursor >= |slots|
      ensures story.born == old(story).born && story.dead == old(story).dead
      ensures forall h :: h in story.born && h !in story.dead && old(cursor) <= h.index < cursor ==> r == Some(h)
    {
      hide Core;
      r := None;
      while cursor < |slots| && r.None?
        invariant Valid() && old(cursor) <= cursor && |slots| == |old(slots)|
        invariant r.Some? ==>
                    r.value.index == cursor - 1 >= old(cursor) && r.value in story.born && r.value !in story.dead
        invariant r.Some? ==> held == old(held) + multiset{r.value}
        invariant r.None? ==> held == old(held)
        invariant story.born == old(story).born && story.dead == old(story).dead
        invariant forall h :: h in story.born && h !in story.dead && old(cursor) <= h.index < cursor ==> r == Some(h)
        decreases |slots| - cursor
      {
        r := GetAt(cursor);
        cursor := cursor + 1;
      }
    }

    /** One turn of that loop: the live handle of a slot, if it has one. */
    method GetAt(i: nat) returns (r: Option<Handle>)
      requires Valid() && i < |slots|
      modifies this`slots, this`story, this`held
      ensures Valid() && |slots| == |old(slots)|
      ensures r.Some? ==> r.value.index == i && r.value in story.born && r.value !in story.dead
      ensures held == old(held) + if r.Some? then multiset{r.value} else multiset{}
      ensures story.born == old(story).born && story.dead == old(story).dead
      ensures forall h :: h in story.born && h !in story.dead && h.index == i ==> r == Some(h)
    {
      hide Core;
      var h := Handle(slots[i].check, i);
      WhoseSlot(slots, story, i);
      OnlyLive(slots, story, i);
      var got := Get(h);
      r := if got.Some? then Some(h) else None;
    }
  }

  /** A live handle is accepted for its slot. */
  lemma LiveMatches(slots: seq<Slot>, y: Story, h: Handle)
    requires Core(slots, y)
    ensures h in y.born && h !in y.dead ==>
              0 <= h.index < |slots| && slots[h.index].state.Active? && slots[h.index].check == h.check
  {
    if h in y.born && h !in y.dead {
      assert HandleOk(slots, y, h);
      assert SlotOk(slots, y, h.index);
    }
  }

  lemma NotYet(slots: seq<Slot>, y: Story, h: Handle)
    requires Core(slots, y) && forall g :: g in y.born ==> g.check != h.check
    ensures h !in y.born && h !in y.refs && h !in y.dead
  {
  }

  /** An instance is freed exactly once, when its handle is destroyed and every get put
      back; until then it never is. */
  lemma FreedOnce(db: Database, h: Handle)
    requires db.Valid() && h in db.story.born
    ensures db.story.freed[db.story.born[h]] == One(h in db.story.dead && h !in db.held)
  {
    assert HandleOk(db.slots, db.story, h);
  }
}
