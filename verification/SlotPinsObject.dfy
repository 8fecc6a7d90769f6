/** `SlotPins` as the object it is: an ordered map, a set of busy slots and the event of the moment. */
module SlotPinsObject {
  import opened Options
  import opened Slots
  import opened Text

  class Event {
    var isSet: bool

    constructor ()
      ensures !isSet
    {
      isSet := false;
    }
  }

  /** `xs` lists, in increasing order, the slots below `n` that are idle (and, if `free`, nobody's). */
  ghost predicate Lists(xs: seq<int>, n: int, owners: seq<Owner>, busy: set<int>, free: bool) {
    && (forall i, j :: 0 <= i < j < |xs| ==> xs[i] < xs[j])
    && (forall x :: x in xs <==> 0 <= x < n && x !in busy && (free ==> !Owned(owners, x)))
  }

  lemma EmptyLists(owners: seq<Owner>, busy: set<int>)
    ensures Lists([], 0, owners, busy, false)
  {
  }

  lemma ListsMore(xs: seq<int>, n: nat, owners: seq<Owner>, busy: set<int>)
    requires Lists(xs, n, owners, busy, false)
    ensures Lists(if n in busy then xs else xs + [n], n + 1, owners, busy, false)
  {
    hide Owned;
    InAppend(xs, n);
    forall k | 0 <= k < |xs|
      ensures xs[k] < n
    {
      assert xs[k] in xs;
    }
  }

  lemma TakenIsLess(xs: seq<int>, i: nat, some: seq<int>)
    requires i < |xs| && forall k, l :: 0 <= k < l < |xs| ==> xs[k] < xs[l]
    requires forall x :: x in some ==> x in xs[..i]
    ensures forall k :: 0 <= k < |some| ==> some[k] < xs[i]
  {
    forall k | 0 <= k < |some|
      ensures some[k] < xs[i]
    {
      assert some[k] in some;
      var j :| 0 <= j < i && xs[..i][j] == some[k];
      assert xs[j] == some[k];
    }
  }

  lemma OwnedMember(idle: seq<int>, i: nat, total: nat, owners: seq<Owner>, busy: set<int>)
    requires i < |idle| && forall x :: x in idle ==> Owned(owners, x)
    ensures Owned(owners, idle[i])
  {
  }

  lemma FirstIdleIs(total: nat, owners: seq<Owner>, busy: set<int>, idle: seq<int>, place: nat)
    requires OwnersOk(total, owners) && Lists(idle, total, owners, busy, false)
    requires place < |owners| && owners[place].slot in idle
    requires forall p, k :: 0 <= p < place && 0 <= k < |idle| ==> owners[p].slot != idle[k]
    ensures place == FirstIdleOwner(owners, busy)
  {
    var v := FirstIdleOwner(owners, busy);
    assert owners[place].slot !in busy;
    assert owners[v] in owners && owners[v].slot in idle;
    var k :| 0 <= k < |idle| && idle[k] == owners[v].slot;
  }

  class SlotPins {
    const total: nat
    var owners: seq<Owner>
    var busy: set<int>
    var freed: Event?

    ghost predicate Valid()
      reads this, freed
    {
      total >= 1 && OwnersOk(total, owners) && (freed != null ==> !freed.isSet)
    }

    constructor (total: nat)
      requires total >= 1
      ensures Valid() && this.total == total && owners == [] && busy == {} && freed == null
    {
      this.total := total;
      owners, busy, freed := [], {}, null;
    }

    /** The map for an engine of `slots` slots, or None: a pinned engine needs at least one. */
    static method Create(slots: int) returns (pins: Option<SlotPins>)
      ensures pins.Some? <==> slots >= 1
      ensures pins.Some? ==>
        fresh(pins.value) && pins.value.Valid() && pins.value.total == slots && pins.value.owners == []
        && pins.value.busy == {}
    {
      if slots < 1 {
        return None;
      }
      var made := new SlotPins(slots);
      return Some(made);
    }

    method IdleSlots() returns (idle: seq<int>)
      ensures Lists(idle, total, owners, busy, false)
    {
      hide Lists;
      EmptyLists(owners, busy);
      idle := [];
      for x := 0 to total
        invariant Lists(idle, x, owners, busy, false)
      {
        ListsMore(idle, x, owners, busy);
        if x !in busy {
          idle := idle + [x];
        }
      }
    }

    method UnownedOf(idle: seq<int>) returns (unowned: seq<int>)
      requires Lists(idle, total, owners, busy, false)
      ensures Lists(unowned, total, owners, busy, true)
    {
      hide Owned;
      unowned := [];
      for i := 0 to |idle|
        invariant forall k, l :: 0 <= k < l < |unowned| ==> unowned[k] < unowned[l]
        invariant forall x :: x in unowned <==> x in idle[..i] && !Owned(owners, x)
      {
        InTake(idle, i);
        InAppend(unowned, idle[i]);
        TakenIsLess(idle, i, unowned);
        if !Owned(owners, idle[i]) {
          unowned := unowned + [idle[i]];
        }
      }
      assert idle[..|idle|] == idle;
    }

    /** The place in the map of the owner of `slot`. */
    method PlaceOf(slot: int) returns (place: nat)
      requires Owned(owners, slot)
      ensures place < |owners| && owners[place].slot == slot && forall i :: 0 <= i < place ==> owners[i].slot != slot
    {
      place := 0;
      while owners[place].slot != slot
        invariant place < |owners| && exists i :: place <= i < |owners| && owners[i].slot == slot
        invariant forall i :: 0 <= i < place ==> owners[i].slot != slot
        decreases |owners| - place
      {
        place := place + 1;
      }
    }

    /** `min(idle, key=order.index)`: the place of the least recently used owner of an idle slot. */
    method LeastRecent(idle: seq<int>) returns (place: nat)
      requires OwnersOk(total, owners) && Lists(idle, total, owners, busy, false)
      requires idle != [] && forall x :: x in idle ==> Owned(owners, x)
      ensures place < |owners| && place == FirstIdleOwner(owners, busy)
    {
      hide Owned, OwnersOk, Lists, Slots.FirstIdleOwner;
      OwnedMember(idle, 0, total, owners, busy);
      place := PlaceOf(idle[0]);
      for i := 1 to |idle|
        invariant place < |owners| && owners[place].slot in idle
        invariant forall p, k :: 0 <= p < place && 0 <= k < i ==> owners[p].slot != idle[k]
      {
        OwnedMember(idle, i, total, owners, busy);
        var p := PlaceOf(idle[i]);
        if p < place {
          place := p;
        }
      }
      FirstIdleIs(total, owners, busy, idle, place);
    }

    /** For a request with no slot of its own: an idle slot nobody owns, else the one whose
        conversation is least recently used, which loses it, else None. */
    method TakeIdle(key: Option<string>) returns (slot: Option<int>)
      requires Valid() && !HasSlot(owners, key)
      modifies this`owners
      ensures match Slots.Choose(total, old(owners), busy, key)
              case Some(c) => slot == Some(c.slot) && owners == c.owners
              case None => slot == None && owners == old(owners)
    {
      hide Owned, Slots.Choose, OwnersOk, Lists, HasSlot;
      var idle := IdleSlots();
      ChooseNew(total, owners, busy, key);
      if idle == [] {
        NoneListed(idle, total, owners, busy);
        return None;
      }
      var unowned := UnownedOf(idle);
      if unowned != [] {
        FirstListed(unowned, total, owners, busy);
        slot := Some(unowned[0]);
      } else {
        NoneUnowned(unowned, idle, total, owners, busy);
        var place := LeastRecent(idle);
        slot := Some(owners[place].slot);
        owners := Without(owners, place);
      }
      owners := owners + Entry(key, slot.value);
    }

    /** The slot this request may have now, or None: it waits. */
    method Choose(key: Option<string>) returns (slot: Option<int>)
      requires Valid()
      modifies this`owners
      ensures Valid()
      ensures match Slots.Choose(total, old(owners), busy, key)
              case Some(c) => slot == Some(c.slot) && owners == c.owners
              case None => slot == None && owners == old(owners)
    {
      hide Slots.Choose, OwnersOk;
      if Slots.Choose(total, owners, busy, key).Some? {
        ChoiceKeepsOk(total, owners, busy, key);
      }
      if HasSlot(owners, key) {
        ChooseOwn(total, owners, busy, key);
        var own := IndexOfKey(owners, key.value);
        if owners[own].slot in busy {
          return None;
        }
        slot := Some(owners[own].slot);
        owners := Without(owners, own) + [owners[own]];
      } else {
        slot := TakeIdle(key);
      }
    }

    /** One pass of `hold`'s loop: a slot, held busy, or the event to sleep on. */
    method Attempt(key: Option<string>) returns (slot: Option<int>, wait: Event?)
      requires Valid()
      modifies this
      ensures Valid()
      ensures match Slots.Choose(total, old(owners), old(busy), key)
              case Some(c) => slot == Some(c.slot) && wait == null && owners == c.owners
                && busy == old(busy) + {c.slot} && freed == old(freed)
              case None => slot == None && wait != null && wait == freed && owners == old(owners) && busy == old(busy)
      ensures slot.None? ==> if old(freed) == null then fresh(freed) else freed == old(freed)
    {
      slot := Choose(key);
      wait := null;
      if slot.None? {
        if freed == null {
          freed := new Event();
        }
        wait := freed;
      } else {
        busy := busy + {slot.value};
      }
    }

    /** What `hold` does on the way out, however its request ended. */
    method Release(slot: int)
      requires Valid()
      modifies this, freed
      ensures Valid()
      ensures busy == old(busy) - {slot} && owners == old(owners) && freed == null
      ensures old(freed) != null ==> old(freed).isSet
    {
      busy := busy - {slot};
      if freed != null {
        freed.isSet := true;
        freed := null;
      }
    }
  }

  lemma ChooseOwn(total: nat, owners: seq<Owner>, busy: set<int>, key: Option<string>)
    requires HasSlot(owners, key)
    ensures var own := IndexOfKey(owners, key.value);
      Slots.Choose(total, owners, busy, key) ==
        if owners[own].slot in busy then None else Some(Choice(owners[own].slot, Without(owners, own) + [owners[own]]))
  {
  }

  lemma ChooseNew(total: nat, owners: seq<Owner>, busy: set<int>, key: Option<string>)
    requires !HasSlot(owners, key)
    ensures var free, v := FirstUnowned(total, owners, busy, 0), FirstIdleOwner(owners, busy);
      Slots.Choose(total, owners, busy, key) ==
        if free < total then Some(Choice(free, owners + Entry(key, free)))
        else if v == |owners| then None
        else Some(Choice(owners[v].slot, Without(owners, v) + Entry(key, owners[v].slot)))
  {
  }

  lemma NoneListed(idle: seq<int>, total: nat, owners: seq<Owner>, busy: set<int>)
    requires OwnersOk(total, owners) && Lists(idle, total, owners, busy, false) && idle == []
    ensures FirstUnowned(total, owners, busy, 0) == total && FirstIdleOwner(owners, busy) == |owners|
  {
    var free, v := FirstUnowned(total, owners, busy, 0), FirstIdleOwner(owners, busy);
    assert free < total ==> free in idle;
    forall i | 0 <= i < |owners|
      ensures owners[i].slot in busy
    {
      assert InRange(total, owners[i].slot) && owners[i].slot !in idle;
    }
  }

  lemma FirstListed(unowned: seq<int>, total: nat, owners: seq<Owner>, busy: set<int>)
    requires Lists(unowned, total, owners, busy, true) && unowned != []
    ensures FirstUnowned(total, owners, busy, 0) == unowned[0] < total
  {
    hide Owned;
    var free := FirstUnowned(total, owners, busy, 0);
    assert unowned[0] in unowned;
    assert IdleUnowned(owners, busy, unowned[0]);
    assert free < total ==> free in unowned;
  }

  lemma NoneUnowned(unowned: seq<int>, idle: seq<int>, total: nat, owners: seq<Owner>, busy: set<int>)
    requires Lists(unowned, total, owners, busy, true) && unowned == []
    requires Lists(idle, total, owners, busy, false)
    ensures FirstUnowned(total, owners, busy, 0) == total
    ensures forall x :: x in idle ==> Owned(owners, x)
  {
    hide Owned;
    var free := FirstUnowned(total, owners, busy, 0);
    assert free < total ==> free in unowned;
    forall x | x in idle
      ensures Owned(owners, x)
    {
      assert x !in unowned;
    }
  }
}
