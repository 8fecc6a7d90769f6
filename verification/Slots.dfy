/**
  `SlotPins`: each conversation in one engine slot, and never a busy one. This module
  is the map itself; module SlotRuns runs many requests over it.
 */
module Slots {
  import opened Options

  /** An entry of the ordered map from conversation to slot, least recently used first. */
  datatype Owner = Owner(key: string, slot: int)

  datatype Choice = Choice(slot: int, owners: seq<Owner>)

  predicate InRange(total: nat, slot: int) {
    0 <= slot < total
  }

  predicate Owned(owners: seq<Owner>, slot: int) {
    exists i :: 0 <= i < |owners| && owners[i].slot == slot
  }

  /** Conversations and slots are paired one to one. */
  ghost predicate OwnersOk(total: nat, owners: seq<Owner>) {
    && (forall i :: 0 <= i < |owners| ==> InRange(total, owners[i].slot))
    && (forall i, j :: 0 <= i < j < |owners| ==> owners[i].key != owners[j].key)
    && (forall i, j :: 0 <= i < j < |owners| ==> owners[i].slot != owners[j].slot)
  }

  /** The place of `key` in the map, or -1. */
  function IndexOfKey(owners: seq<Owner>, key: string): (i: int)
    ensures -1 <= i < |owners|
    ensures i >= 0 ==> owners[i].key == key
    ensures i < 0 ==> forall j :: 0 <= j < |owners| ==> owners[j].key != key
  {
    if owners == [] then -1
    else
      var n := |owners| - 1;
      if owners[n].key == key then n else IndexOfKey(owners[..n], key)
  }

  predicate IdleUnowned(owners: seq<Owner>, busy: set<int>, slot: int) {
    slot !in busy && !Owned(owners, slot)
  }

  /** The lowest-numbered slot from `from` that is idle and nobody's, or `total`. */
  function FirstUnowned(total: nat, owners: seq<Owner>, busy: set<int>, from: nat): (slot: nat)
    requires from <= total
    ensures from <= slot <= total
    ensures slot < total ==> IdleUnowned(owners, busy, slot)
    ensures forall x :: from <= x < slot ==> !IdleUnowned(owners, busy, x)
    decreases total - from
  {
    if from == total then total
    else if IdleUnowned(owners, busy, from) then from
    else FirstUnowned(total, owners, busy, from + 1)
  }

  /** The place of the least recently used conversation whose slot is idle, or the map's length. */
  function FirstIdleOwner(owners: seq<Owner>, busy: set<int>): (v: nat)
    ensures v <= |owners|
    ensures v < |owners| ==> owners[v].slot !in busy
    ensures forall i :: 0 <= i < v ==> owners[i].slot in busy
  {
    if owners == [] then 0
    else if owners[0].slot !in busy then 0
    else 1 + FirstIdleOwner(owners[1..], busy)
  }

  function Without(owners: seq<Owner>, i: nat): seq<Owner>
    requires i < |owners|
  {
    owners[..i] + owners[i + 1..]
  }

  function Entry(key: Option<string>, slot: int): seq<Owner> {
    if key.Some? then [Owner(key.value, slot)] else []
  }

  /** The slot a request may have now and the map once it has it, or None: it waits. */
  function Choose(total: nat, owners: seq<Owner>, busy: set<int>, key: Option<string>): Option<Choice> {
    var own := if key.Some? then IndexOfKey(owners, key.value) else -1;
    if own >= 0 then
      if owners[own].slot in busy then None
      else Some(Choice(owners[own].slot, Without(owners, own) + [owners[own]]))
    else
      var free := FirstUnowned(total, owners, busy, 0);
      if free < total then Some(Choice(free, owners + Entry(key, free)))
      else
        var v := FirstIdleOwner(owners, busy);
        if v == |owners| then None
        else Some(Choice(owners[v].slot, Without(owners, v) + Entry(key, owners[v].slot)))
  }

  /** The conversation already has a slot. */
  predicate HasSlot(owners: seq<Owner>, key: Option<string>) {
    key.Some? && IndexOfKey(owners, key.value) >= 0
  }

  ghost predicate AllBusy(total: nat, busy: set<int>) {
    forall x :: InRange(total, x) ==> x in busy
  }

  /** A request waits exactly when its own slot is busy or, having none, when every slot is. */
  lemma WaitsExactlyWhen(total: nat, owners: seq<Owner>, busy: set<int>, key: Option<string>)
    requires OwnersOk(total, owners)
    ensures Choose(total, owners, busy, key).None? <==>
              if HasSlot(owners, key) then owners[IndexOfKey(owners, key.value)].slot in busy
              else AllBusy(total, busy)
  {
    if !HasSlot(owners, key) {
      var free := FirstUnowned(total, owners, busy, 0);
      var v := FirstIdleOwner(owners, busy);
      if free < total {
        assert InRange(total, free) && free !in busy;
      } else if v < |owners| {
        assert InRange(total, owners[v].slot);
      } else {
        forall x | InRange(total, x)
          ensures x in busy
        {
          assert !IdleUnowned(owners, busy, x);
        }
      }
    }
  }

  lemma WithoutMembers(owners: seq<Owner>, i: nat, o: Owner)
    requires i < |owners|
    ensures o in owners <==> o in Without(owners, i) || o == owners[i]
  {
    var w := Without(owners, i);
    if o in owners {
      var j :| 0 <= j < |owners| && owners[j] == o;
      assert j < i ==> w[j] == o;
      assert j > i ==> w[j - 1] == o;
    }
    if o in w {
      var k :| 0 <= k < |w| && w[k] == o;
      assert o == owners[if k < i then k else k + 1];
    }
  }

  lemma WithoutKeepsOk(total: nat, owners: seq<Owner>, i: nat)
    requires OwnersOk(total, owners) && i < |owners|
    ensures OwnersOk(total, Without(owners, i))
    ensures forall o :: o in Without(owners, i) <==> o in owners && o.slot != owners[i].slot
    ensures forall o :: o in Without(owners, i) <==> o in owners && o.key != owners[i].key
  {
    var w := Without(owners, i);
    assert forall k :: 0 <= k < |w| ==> w[k] == owners[if k < i then k else k + 1];
    forall o
      ensures o in w <==> o in owners && o.slot != owners[i].slot
      ensures o in w <==> o in owners && o.key != owners[i].key
    {
      WithoutMembers(owners, i, o);
    }
  }

  lemma AppendKeepsOk(total: nat, owners: seq<Owner>, key: Option<string>, slot: int)
    requires OwnersOk(total, owners) && InRange(total, slot)
    requires forall o :: o in owners ==> o.slot != slot && key != Some(o.key)
    ensures OwnersOk(total, owners + Entry(key, slot))
    ensures forall o :: o in owners + Entry(key, slot) <==> o in owners || o in Entry(key, slot)
  {
  }

  /** A claim names an idle slot, keeps conversations and slots paired, and gives the slot to the claimant. */
  lemma ChoiceKeepsOk(total: nat, owners: seq<Owner>, busy: set<int>, key: Option<string>)
    requires OwnersOk(total, owners) && Choose(total, owners, busy, key).Some?
    ensures var c := Choose(total, owners, busy, key).value;
      && InRange(total, c.slot) && c.slot !in busy && OwnersOk(total, c.owners)
      && (forall o :: o in c.owners <==> (o in owners && o.slot != c.slot) || o in Entry(key, c.slot))
  {
    hide OwnersOk, Without;
    var c := Choose(total, owners, busy, key).value;
    var v := if HasSlot(owners, key) then IndexOfKey(owners, key.value) else FirstIdleOwner(owners, busy);
    if HasSlot(owners, key) || FirstUnowned(total, owners, busy, 0) == total {
      SlotInRange(total, owners, v);
      WithoutKeepsOk(total, owners, v);
      AppendKeepsOk(total, Without(owners, v), key, c.slot);
    } else {
      AppendKeepsOk(total, owners, key, c.slot);
    }
  }

  lemma SlotInRange(total: nat, owners: seq<Owner>, i: nat)
    requires OwnersOk(total, owners) && i < |owners|
    ensures InRange(total, owners[i].slot)
  {
  }
}
