/** The slot map against the history of claims: who owns what, and in which order, is decided by who claimed last. */
module SlotHistory {
  import opened Options
  import opened Slots

  /** A request for conversation `key` (or none) was given `slot` while the slots in `busy` were serving. */
  datatype Claim = Claim(key: Option<string>, slot: int, busy: set<int>)

  /** When `slot` was last claimed, or -1. */
  function LastClaim(h: seq<Claim>, slot: int): (t: int)
    ensures -1 <= t < |h|
    ensures t >= 0 ==> h[t].slot == slot
    ensures forall u :: t < u < |h| ==> h[u].slot != slot
  {
    if h == [] then -1
    else
      var n := |h| - 1;
      if h[n].slot == slot then n else LastClaim(h[..n], slot)
  }

  /** The conversation a slot belongs to: its last claimant. */
  function LastClaimant(h: seq<Claim>, slot: int): Option<string> {
    var t := LastClaim(h, slot);
    if t < 0 then None else h[t].key
  }

  /** `slot` belongs to the conversation `key`. */
  predicate Belongs(total: nat, h: seq<Claim>, key: Option<string>, slot: int) {
    InRange(total, slot) && key.Some? && LastClaimant(h, slot) == key
  }

  predicate IdleAndNobodys(total: nat, h: seq<Claim>, busy: set<int>, slot: int) {
    InRange(total, slot) && slot !in busy && LastClaimant(h, slot).None?
  }

  /** Least-recently-used allocation, said of the history alone: a conversation comes back to
      its slot; a new one takes the lowest idle slot that is nobody's; only when every idle slot
      is somebody's does it take one, the idle slot claimed longest ago. */
  ghost predicate FollowsRule(total: nat, h: seq<Claim>, c: Claim) {
    && InRange(total, c.slot) && c.slot !in c.busy
    && if exists x :: Belongs(total, h, c.key, x) then Belongs(total, h, c.key, c.slot)
       else if exists x :: IdleAndNobodys(total, h, c.busy, x) then
         && IdleAndNobodys(total, h, c.busy, c.slot)
         && (forall x :: IdleAndNobodys(total, h, c.busy, x) ==> c.slot <= x)
       else forall x :: InRange(total, x) && x !in c.busy ==> LastClaim(h, c.slot) <= LastClaim(h, x)
  }

  /** The map says exactly what the history says, in the order of last claim. */
  ghost predicate Agrees(total: nat, owners: seq<Owner>, h: seq<Claim>) {
    && (forall o :: o in owners ==> LastClaimant(h, o.slot) == Some(o.key))
    && (forall x, k :: InRange(total, x) && LastClaimant(h, x) == Some(k) ==> Owner(k, x) in owners)
    && InOrder(owners, h)
  }

  ghost predicate InOrder(owners: seq<Owner>, h: seq<Claim>) {
    forall i, j :: 0 <= i < j < |owners| ==> LastClaim(h, owners[i].slot) < LastClaim(h, owners[j].slot)
  }

  lemma LastClaimAfter(h: seq<Claim>, c: Claim, slot: int)
    ensures LastClaim(h + [c], slot) == if slot == c.slot then |h| else LastClaim(h, slot)
    ensures LastClaimant(h + [c], slot) == if slot == c.slot then c.key else LastClaimant(h, slot)
  {
    assert (h + [c])[..|h|] == h;
  }

  lemma OwnedMeansMember(owners: seq<Owner>, slot: int)
    ensures Owned(owners, slot) <==> exists o :: o in owners && o.slot == slot
  {
    if exists o :: o in owners && o.slot == slot {
      var o :| o in owners && o.slot == slot;
      var i :| 0 <= i < |owners| && owners[i] == o;
      assert owners[i].slot == slot;
    }
  }

  /** Owned in the map is claimed last by a conversation in the history. */
  lemma NobodysExactly(total: nat, owners: seq<Owner>, h: seq<Claim>, slot: int)
    requires Agrees(total, owners, h) && InRange(total, slot)
    ensures Owned(owners, slot) <==> LastClaimant(h, slot).Some?
  {
    OwnedMeansMember(owners, slot);
    if LastClaimant(h, slot).Some? {
      assert Owner(LastClaimant(h, slot).value, slot) in owners;
    }
  }

  lemma OwnsExactly(total: nat, owners: seq<Owner>, h: seq<Claim>, key: string, slot: int)
    requires OwnersOk(total, owners) && Agrees(total, owners, h)
    ensures Belongs(total, h, Some(key), slot) <==>
      IndexOfKey(owners, key) >= 0 && owners[IndexOfKey(owners, key)].slot == slot
  {
    var i := IndexOfKey(owners, key);
    if i >= 0 {
      assert owners[i] in owners && InRange(total, owners[i].slot);
    }
    if Belongs(total, h, Some(key), slot) {
      assert Owner(key, slot) in owners;
    }
  }

  /** The slot a waiting request is given is the one the rule names. */
  lemma ChoiceFollowsRule(total: nat, owners: seq<Owner>, busy: set<int>, key: Option<string>, h: seq<Claim>)
    requires OwnersOk(total, owners) && Agrees(total, owners, h) && Choose(total, owners, busy, key).Some?
    ensures FollowsRule(total, h, Claim(key, Choose(total, owners, busy, key).value.slot, busy))
  {
    hide OwnersOk, LastClaimant, LastClaim, Without;
    var c := Claim(key, Choose(total, owners, busy, key).value.slot, busy);
    ChoiceKeepsOk(total, owners, busy, key);
    if HasSlot(owners, key) {
      OwnsExactly(total, owners, h, key.value, c.slot);
    } else {
      forall x
        ensures !Belongs(total, h, key, x)
      {
        if key.Some? {
          OwnsExactly(total, owners, h, key.value, x);
        }
      }
      forall x | InRange(total, x)
        ensures IdleUnowned(owners, busy, x) <==> IdleAndNobodys(total, h, busy, x)
      {
        NobodysExactly(total, owners, h, x);
      }
      var free := FirstUnowned(total, owners, busy, 0);
      if free == total {
        OldestIdle(total, owners, busy, h);
      }
    }
  }

  /** The first conversation in the map with an idle slot is the one that claimed longest ago. */
  lemma OldestIdle(total: nat, owners: seq<Owner>, busy: set<int>, h: seq<Claim>)
    requires OwnersOk(total, owners) && Agrees(total, owners, h)
    requires FirstUnowned(total, owners, busy, 0) == total
    ensures var v := FirstIdleOwner(owners, busy); v < |owners| ==>
      forall x :: InRange(total, x) && x !in busy ==> LastClaim(h, owners[v].slot) <= LastClaim(h, x)
  {
    hide LastClaim, LastClaimant;
    var v := FirstIdleOwner(owners, busy);
    forall x | v < |owners| && InRange(total, x) && x !in busy
      ensures LastClaim(h, owners[v].slot) <= LastClaim(h, x)
    {
      assert !IdleUnowned(owners, busy, x);
      var i :| 0 <= i < |owners| && owners[i].slot == x;
      assert v <= i;
    }
  }

  lemma WithoutInOrder(owners: seq<Owner>, h: seq<Claim>, i: nat)
    requires i < |owners| && InOrder(owners, h)
    ensures InOrder(Without(owners, i), h)
  {
    hide LastClaim;
    var w := Without(owners, i);
    assert forall k :: 0 <= k < |w| ==> w[k] == owners[if k < i then k else k + 1];
  }

  lemma AppendInOrder(owners: seq<Owner>, h: seq<Claim>, c: Claim)
    requires InOrder(owners, h) && forall o :: o in owners ==> o.slot != c.slot
    ensures InOrder(owners + Entry(c.key, c.slot), h + [c])
  {
    hide LastClaim;
    var all := owners + Entry(c.key, c.slot);
    forall i | 0 <= i < |all|
      ensures LastClaim(h + [c], all[i].slot) == if i < |owners| then LastClaim(h, owners[i].slot) else |h|
    {
      assert i < |owners| ==> all[i] == owners[i] && owners[i] in owners;
      LastClaimAfter(h, c, all[i].slot);
    }
  }

  /** Once the claim is recorded, map and history agree again. */
  lemma ChoiceAgrees(total: nat, owners: seq<Owner>, busy: set<int>, key: Option<string>, h: seq<Claim>)
    requires OwnersOk(total, owners) && Agrees(total, owners, h) && Choose(total, owners, busy, key).Some?
    ensures var c := Choose(total, owners, busy, key).value; Agrees(total, c.owners, h + [Claim(key, c.slot, busy)])
  {
    hide LastClaim, LastClaimant, OwnersOk, InRange, InOrder, Choose;
    var c := Choose(total, owners, busy, key).value;
    var claim := Claim(key, c.slot, busy);
    ChoiceKeepsOk(total, owners, busy, key);
    forall x
      ensures LastClaimant(h + [claim], x) == if x == c.slot then key else LastClaimant(h, x)
    {
      LastClaimAfter(h, claim, x);
    }
    ChoiceInOrder(total, owners, busy, key, h);
  }

  lemma ChoiceInOrder(total: nat, owners: seq<Owner>, busy: set<int>, key: Option<string>, h: seq<Claim>)
    requires OwnersOk(total, owners) && InOrder(owners, h) && Choose(total, owners, busy, key).Some?
    ensures var c := Choose(total, owners, busy, key).value; InOrder(c.owners, h + [Claim(key, c.slot, busy)])
  {
    hide LastClaim, OwnersOk, InRange, InOrder, Without;
    var c := Choose(total, owners, busy, key).value;
    var claim := Claim(key, c.slot, busy);
    ChoiceKeepsOk(total, owners, busy, key);
    if HasSlot(owners, key) || FirstUnowned(total, owners, busy, 0) == total {
      var v := if HasSlot(owners, key) then IndexOfKey(owners, key.value) else FirstIdleOwner(owners, busy);
      WithoutKeepsOk(total, owners, v);
      WithoutInOrder(owners, h, v);
      AppendInOrder(Without(owners, v), h, claim);
    } else {
      AppendInOrder(owners, h, claim);
    }
  }

  /** Every claim of the run obeyed the least-recently-used rule when it was made. */
  ghost predicate HistoryOk(total: nat, h: seq<Claim>) {
    forall t :: 0 <= t < |h| ==> FollowsRule(total, h[..t], h[t])
  }

  lemma HistoryStep(total: nat, h: seq<Claim>, c: Claim)
    requires HistoryOk(total, h) && FollowsRule(total, h, c)
    ensures HistoryOk(total, h + [c])
  {
    hide FollowsRule;
    var h' := h + [c];
    forall t | 0 <= t < |h'|
      ensures FollowsRule(total, h'[..t], h'[t])
    {
      assert h'[..t] == h[..t];
      assert t == |h| ==> h[..t] == h;
    }
  }

  /** Under the rule a conversation never has two slots. */
  lemma {:induction false} OneSlotEach(total: nat, h: seq<Claim>, key: Option<string>, x: int, y: int)
    requires HistoryOk(total, h) && Belongs(total, h, key, x) && Belongs(total, h, key, y)
    ensures x == y
    decreases |h|
  {
    hide LastClaim, LastClaimant, FollowsRule;
    assert h != [] by { ClaimedBySomebody(h, x); }
    var past, c := h[..|h| - 1], h[|h| - 1];
    assert h == past + [c];
    HistoryPrefix(total, past, c);
    ComesBack(total, past, c);
    LastClaimAfter(past, c, x);
    LastClaimAfter(past, c, y);
    if x != c.slot && y != c.slot {
      OneSlotEach(total, past, key, x, y);
    } else if x != y {
      var z := if x == c.slot then y else x;
      assert Belongs(total, past, key, z) && c.key == key;
      OneSlotEach(total, past, key, z, c.slot);
    }
  }

  lemma ComesBack(total: nat, h: seq<Claim>, c: Claim)
    requires FollowsRule(total, h, c)
    ensures forall x :: Belongs(total, h, c.key, x) ==> Belongs(total, h, c.key, c.slot)
  {
  }

  lemma ClaimedBySomebody(h: seq<Claim>, slot: int)
    requires LastClaimant(h, slot).Some?
    ensures h != []
  {
  }

  lemma HistoryPrefix(total: nat, past: seq<Claim>, c: Claim)
    requires HistoryOk(total, past + [c])
    ensures HistoryOk(total, past) && FollowsRule(total, past, c)
  {
    hide FollowsRule;
    var h := past + [c];
    forall t | 0 <= t <= |past|
      ensures FollowsRule(total, (past + [c])[..t], h[t])
      ensures t < |past| ==> h[..t] == past[..t] && h[t] == past[t]
    {
      assert t < |past| ==> h[..t] == past[..t];
    }
    assert h[..|past|] == past;
  }
}
