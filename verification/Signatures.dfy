/**
  The bounded, expiring memory of a model's calls, against the unbounded one it stands for:
  every call ever remembered, ordered by when its id was last remembered.
 */
module Signatures {
  import opened Options

  datatype RememberedCall = RememberedCall(name: string, signature: Option<string>, googleId: bool)

  datatype Item = Item(id: string, expires: real, call: RememberedCall)

  /** The place of `id`, or -1. */
  function Place(items: seq<Item>, id: string): (i: int)
    ensures -1 <= i < |items|
    ensures i >= 0 ==> items[i].id == id
    ensures i < 0 ==> forall j :: 0 <= j < |items| ==> items[j].id != id
  {
    if items == [] then -1
    else if items[|items| - 1].id == id then |items| - 1
    else Place(items[..|items| - 1], id)
  }

  /** `pop(id, None)`. */
  function Dropped(items: seq<Item>, id: string): seq<Item> {
    var i := Place(items, id);
    if i < 0 then items else items[..i] + items[i + 1..]
  }

  function Remembered(items: seq<Item>, entries: nat, item: Item): seq<Item> {
    var all := Dropped(items, item.id) + [item];
    if |all| > entries then all[|all| - entries..] else all
  }

  /** What `recall` answers. */
  function Lookup(items: seq<Item>, id: string, now: real): Option<RememberedCall> {
    var i := Place(items, id);
    if i < 0 || now >= items[i].expires then None else Some(items[i].call)
  }

  /** What `recall` leaves: an expired item it was asked for is forgotten. */
  function AfterRecall(items: seq<Item>, id: string, now: real): seq<Item> {
    var i := Place(items, id);
    if i >= 0 && now >= items[i].expires then Dropped(items, id) else items
  }

  // ----- Every history of use -----

  datatype Use = Remember(at: real, id: string, call: RememberedCall) | Recall(at: real, id: string)

  function Cached(entries: nat, seconds: real, uses: seq<Use>): seq<Item> {
    if uses == [] then []
    else
      var before, u := Cached(entries, seconds, uses[..|uses| - 1]), uses[|uses| - 1];
      match u
      case Remember(at, id, call) => Remembered(before, entries, Item(id, at + seconds, call))
      case Recall(at, id) => AfterRecall(before, id, at)
  }

  /** The unbounded memory: nothing evicted, nothing expired. */
  function Everything(seconds: real, uses: seq<Use>): seq<Item> {
    if uses == [] then []
    else
      var before, u := Everything(seconds, uses[..|uses| - 1]), uses[|uses| - 1];
      match u
      case Remember(at, id, call) => Dropped(before, id) + [Item(id, at + seconds, call)]
      case Recall(_, _) => before
  }

  /** The clock is monotone. */
  ghost predicate Monotone(uses: seq<Use>) {
    forall i, j :: 0 <= i <= j < |uses| ==> uses[i].at <= uses[j].at
  }

  ghost predicate Ordered(items: seq<Item>) {
    && (forall i, j :: 0 <= i < j < |items| ==> items[i].id != items[j].id)
    && (forall i, j :: 0 <= i < j < |items| ==> items[i].expires <= items[j].expires)
  }

  /** `items` is some expired part of `all` and then all of it from `n` on; what is missing and
      not expired has `entries` or more after it. */
  ghost predicate Tails(items: seq<Item>, dead: seq<Item>, n: nat, all: seq<Item>, entries: nat, now: real) {
    && n <= |all| && items == dead + all[n..] && |items| <= entries
    && (forall x :: x in dead ==> x.expires <= now && x in all[..n])
    && Ordered(items)
    && (forall j :: 0 <= j < n && all[j].expires > now ==> |all| - j > entries)
  }

  ghost predicate Agree(items: seq<Item>, all: seq<Item>, entries: nat, now: real) {
    Ordered(all) && exists dead: seq<Item>, n: nat :: Tails(items, dead, n, all, entries, now)
  }

  lemma CutMembers(items: seq<Item>, i: nat, x: Item)
    requires Ordered(items) && i < |items|
    ensures x in items[..i] + items[i + 1..] <==> x in items && x.id != items[i].id
  {
    var d := items[..i] + items[i + 1..];
    if x in items && x.id != items[i].id {
      var j :| 0 <= j < |items| && items[j] == x;
      assert d[if j < i then j else j - 1] == x;
    }
    if x in d {
      var k :| 0 <= k < |d| && d[k] == x;
      assert x == items[if k < i then k else k + 1];
    }
  }

  lemma CutOrdered(items: seq<Item>, i: nat)
    requires Ordered(items) && i < |items|
    ensures Ordered(items[..i] + items[i + 1..])
  {
    var d := items[..i] + items[i + 1..];
    assert forall k :: 0 <= k < |d| ==> d[k] == items[if k < i then k else k + 1];
  }

  lemma DroppedMembers(items: seq<Item>, id: string)
    requires Ordered(items)
    ensures Ordered(Dropped(items, id)) && Place(Dropped(items, id), id) < 0
    ensures forall x :: x in Dropped(items, id) <==> x in items && x.id != id
    ensures |items| - 1 <= |Dropped(items, id)| <= |items|
  {
    hide Place, Ordered;
    var i := Place(items, id);
    if i >= 0 {
      CutOrdered(items, i);
      forall x
        ensures x in Dropped(items, id) <==> x in items && x.id != id
      {
        CutMembers(items, i, x);
      }
      PlaceMeans(Dropped(items, id), id);
    }
  }

  /** Asking for a call forgets it if it has expired, and nothing else; one it does not answer is not there any more. */
  lemma RecallForgets(items: seq<Item>, id: string, now: real)
    requires Ordered(items)
    ensures Ordered(AfterRecall(items, id, now))
    ensures forall x :: x in AfterRecall(items, id, now) <==> x in items && !(x.id == id && x.expires <= now)
    ensures Lookup(items, id, now).None? ==> forall x :: x in AfterRecall(items, id, now) ==> x.id != id
  {
    hide Place;
    DroppedMembers(items, id);
    var i := Place(items, id);
    forall x | x in items && x.id == id
      ensures i >= 0 && x == items[i]
    {
      var j :| 0 <= j < |items| && items[j] == x;
    }
  }

  lemma OrderedPart(items: seq<Item>, i: nat, j: nat)
    requires Ordered(items) && i <= j <= |items|
    ensures Ordered(items[i..j])
  {
  }

  lemma {:induction false} PlaceInSum(a: seq<Item>, b: seq<Item>, id: string)
    ensures Place(a + b, id) == if Place(b, id) >= 0 then |a| + Place(b, id) else Place(a, id)
    decreases |b|
  {
    if b == [] {
      assert a + b == a;
    } else {
      assert (a + b)[..|a + b| - 1] == a + b[..|b| - 1];
      PlaceInSum(a, b[..|b| - 1], id);
    }
  }

  lemma DroppedFromSum(a: seq<Item>, b: seq<Item>, id: string)
    ensures Place(b, id) >= 0 ==> Dropped(a + b, id) == a + Dropped(b, id)
    ensures Place(b, id) < 0 ==> Dropped(a + b, id) == Dropped(a, id) + b
  {
    hide Place, Dropped;
    PlaceInSum(a, b, id);
    DroppedIs(a + b, id);
    var k, i := Place(b, id), Place(a, id);
    if k >= 0 {
      DroppedIs(b, id);
      CutFromBack(a, b, k);
    } else {
      DroppedIs(a, id);
      if i >= 0 {
        CutFromFront(a, b, i);
      }
    }
  }

  lemma DroppedIs(items: seq<Item>, id: string)
    ensures var i := Place(items, id); Dropped(items, id) == if i < 0 then items else items[..i] + items[i + 1..]
  {
    hide Place;
  }

  lemma CutFromFront(a: seq<Item>, b: seq<Item>, i: nat)
    requires i < |a|
    ensures (a + b)[..i] + (a + b)[i + 1..] == a[..i] + a[i + 1..] + b
  {
    assert (a + b)[..i] == a[..i] && (a + b)[i + 1..] == a[i + 1..] + b;
  }

  lemma CutFromBack(a: seq<Item>, b: seq<Item>, k: nat)
    requires k < |b|
    ensures (a + b)[..|a| + k] + (a + b)[|a| + k + 1..] == a + (b[..k] + b[k + 1..])
  {
    assert (a + b)[..|a| + k] == a + b[..k] && (a + b)[|a| + k + 1..] == b[k + 1..];
  }

  /** `Tails` for memories an id has just been dropped from, and about to be put back at the end. */
  ghost predicate TailsBut(items: seq<Item>, dead: seq<Item>, n: nat, all: seq<Item>, entries: nat, now: real) {
    && n <= |all| && items == dead + all[n..] && |items| <= entries
    && (forall x :: x in dead ==> x.expires <= now && x in all[..n])
    && (forall j :: 0 <= j < n && all[j].expires > now ==> |all| + 1 - j > entries)
  }

  lemma DropKeepsTails(items: seq<Item>, dead: seq<Item>, n: nat, all: seq<Item>, entries: nat, now: real, id: string)
    returns (dead': seq<Item>, n': nat)
    requires n <= |all| && Ordered(all) && Tails(items, dead, n, all, entries, now)
    ensures TailsBut(Dropped(items, id), dead', n', Dropped(all, id), entries, now)
  {
    hide Place, Dropped, Ordered, Tails, TailsBut;
    if Place(all[n..], id) >= 0 {
      dead', n' := dead, n;
      DropLater(items, dead, n, all, entries, now, id);
    } else {
      dead', n' := Dropped(dead, id), |Dropped(all[..n], id)|;
      DropEarlier(items, dead, n, all, entries, now, id);
    }
  }

  lemma DropLater(items: seq<Item>, dead: seq<Item>, n: nat, all: seq<Item>, entries: nat, now: real, id: string)
    requires Ordered(all) && Tails(items, dead, n, all, entries, now) && Place(all[n..], id) >= 0
    ensures TailsBut(Dropped(items, id), dead, n, Dropped(all, id), entries, now)
  {
    hide Place, Dropped, Ordered;
    var front, back := all[..n], all[n..];
    assert all == front + back;
    DroppedFromSum(dead, back, id);
    DroppedFromSum(front, back, id);
    DroppedMembers(items, id);
    DroppedLength(back, id);
    var all' := Dropped(all, id);
    assert all'[..n] == front && all'[n..] == Dropped(back, id);
    assert forall j :: 0 <= j < n ==> all'[j] == front[j] == all[j];
  }

  lemma DropEarlier(items: seq<Item>, dead: seq<Item>, n: nat, all: seq<Item>, entries: nat, now: real, id: string)
    requires Ordered(all) && Tails(items, dead, n, all, entries, now) && Place(all[n..], id) < 0
    ensures TailsBut(Dropped(items, id), Dropped(dead, id), |Dropped(all[..n], id)|, Dropped(all, id), entries, now)
  {
    hide Place, Dropped, Ordered;
    var front, back := all[..n], all[n..];
    assert all == front + back;
    DroppedFromSum(dead, back, id);
    DroppedFromSum(front, back, id);
    DroppedLength(items, id);
    DropEarlierDead(items, dead, n, all, entries, now, id);
    DropEarlierCounts(front, back, entries, now, id);
    var all', n' := Dropped(all, id), |Dropped(front, id)|;
    assert all'[..n'] == Dropped(front, id) && all'[n'..] == back;
  }

  /** What is left of the expired part is expired, and left of the front. */
  lemma DropEarlierDead(items: seq<Item>, dead: seq<Item>, n: nat, all: seq<Item>, entries: nat, now: real, id: string)
    requires Ordered(all) && Tails(items, dead, n, all, entries, now)
    ensures forall x :: x in Dropped(dead, id) ==> x.expires <= now && x in Dropped(all[..n], id)
  {
    hide Place, Dropped, Ordered;
    OrderedPart(all, 0, n);
    OrderedPart(items, 0, |dead|);
    assert items[0..|dead|] == dead && all[0..n] == all[..n];
    DroppedMembers(dead, id);
    DroppedMembers(all[..n], id);
  }

  /** What is missing and alive still has as many after it, but for the place about to be filled. */
  lemma DropEarlierCounts(front: seq<Item>, back: seq<Item>, entries: nat, now: real, id: string)
    requires forall j :: 0 <= j < |front| && front[j].expires > now ==> |front| + |back| - j > entries
    ensures var all' := Dropped(front, id) + back;
      forall j :: 0 <= j < |Dropped(front, id)| && all'[j].expires > now ==> |all'| + 1 - j > entries
  {
    hide Place, Dropped;
    DroppedLength(front, id);
    var left := Dropped(front, id);
    forall j | 0 <= j < |left| && left[j].expires > now
      ensures |left| + |back| + 1 - j > entries
    {
      DroppedAt(front, id, j);
    }
    assert forall j :: 0 <= j < |left| ==> (left + back)[j] == left[j];
  }

  lemma DroppedAt(items: seq<Item>, id: string, j: nat)
    requires j < |Dropped(items, id)|
    ensures Dropped(items, id)[j] == items[j]
      || (|Dropped(items, id)| == |items| - 1 && Dropped(items, id)[j] == items[j + 1])
  {
    hide Place;
  }

  lemma DroppedLength(items: seq<Item>, id: string)
    ensures |items| - 1 <= |Dropped(items, id)| <= |items|
  {
    hide Place;
  }

  /** Remembering an id keeps the bounded and the unbounded memory in agreement. */
  lemma RememberAgrees(items: seq<Item>, all: seq<Item>, entries: nat, now: real, item: Item)
    requires Agree(items, all, entries, now)
    requires forall x :: x in all ==> x.expires <= item.expires
    ensures Agree(Remembered(items, entries, item), Dropped(all, item.id) + [item], entries, now)
  {
    hide Place, Dropped, Tails, TailsBut, Ordered;
    var dead: seq<Item>, n: nat :| Tails(items, dead, n, all, entries, now);
    TailsMean(items, dead, n, all, entries, now);
    var dead', n' := DropKeepsTails(items, dead, n, all, entries, now, item.id);
    AppendOrdered(items, dead, n, all, item);
    RememberTails(Dropped(items, item.id), dead', n', Dropped(all, item.id), entries, now, item);
  }

  lemma TailsMean(items: seq<Item>, dead: seq<Item>, n: nat, all: seq<Item>, entries: nat, now: real)
    requires Tails(items, dead, n, all, entries, now)
    ensures n <= |all| && items == dead + all[n..] && Ordered(items) && forall x :: x in dead ==> x in all
  {
    hide Ordered;
  }

  /** The remembered item goes last; where there is no room the oldest goes. */
  lemma RememberTails(kept: seq<Item>, dead: seq<Item>, n: nat, all: seq<Item>, entries: nat, now: real, item: Item)
    requires TailsBut(kept, dead, n, all, entries, now) && Ordered(kept + [item]) && Ordered(all + [item])
    ensures var more := kept + [item];
      Agree(if |more| > entries then more[|more| - entries..] else more, all + [item], entries, now)
  {
    hide Ordered, Tails, TailsBut;
    var more, all' := kept + [item], all + [item];
    if |more| <= entries {
      TailsWithRoom(kept, dead, n, all, entries, now, item);
    } else {
      OldestGoes(kept, dead, n, all, entries, now, item);
      assert |kept| <= entries by { KeptFits(kept, dead, n, all, entries, now); }
      if dead != [] {
        assert Tails(more[1..], dead[1..], n, all', entries, now);
      } else {
        assert Tails(more[1..], [], n + 1, all', entries, now);
      }
    }
  }

  lemma KeptFits(kept: seq<Item>, dead: seq<Item>, n: nat, all: seq<Item>, entries: nat, now: real)
    requires TailsBut(kept, dead, n, all, entries, now)
    ensures |kept| <= entries
  {
  }

  /** The front of a list is its own, whatever is put at the end. */
  lemma FrontStays(all: seq<Item>, n: nat, item: Item)
    requires n <= |all|
    ensures (all + [item])[..n] == all[..n] && (all + [item])[n..] == all[n..] + [item]
    ensures forall j :: 0 <= j < n ==> (all + [item])[j] == all[j]
  {
  }

  lemma TailsWithRoom(kept: seq<Item>, dead: seq<Item>, n: nat, all: seq<Item>, entries: nat, now: real, item: Item)
    requires TailsBut(kept, dead, n, all, entries, now) && Ordered(kept + [item]) && |kept| < entries
    ensures Tails(kept + [item], dead, n, all + [item], entries, now)
  {
    hide Ordered;
    FrontStays(all, n, item);
    assert kept + [item] == dead + (all[n..] + [item]);
  }

  /** With the oldest gone, whether it had expired or not. */
  lemma OldestGoes(kept: seq<Item>, dead: seq<Item>, n: nat, all: seq<Item>, entries: nat, now: real, item: Item)
    requires TailsBut(kept, dead, n, all, entries, now) && Ordered(kept + [item]) && |kept| >= entries
    ensures var more := kept + [item];
      if dead != [] then Tails(more[1..], dead[1..], n, all + [item], entries, now)
      else Tails(more[1..], [], n + 1, all + [item], entries, now)
  {
    hide Ordered;
    var more, all' := kept + [item], all + [item];
    FrontStays(all, n, item);
    OrderedPart(more, 1, |more|);
    assert more[1..|more|] == more[1..];
    if dead != [] {
      assert more[1..] == dead[1..] + (all[n..] + [item]);
    } else {
      assert more == all[n..] + [item];
      assert more[1..] == [] + all'[n + 1..];
    }
  }

  lemma AppendOrdered(items: seq<Item>, dead: seq<Item>, n: nat, all: seq<Item>, item: Item)
    requires Ordered(all) && Ordered(items) && n <= |all| && items == dead + all[n..]
    requires forall x :: x in dead ==> x in all
    requires forall x :: x in all ==> x.expires <= item.expires
    ensures Ordered(Dropped(all, item.id) + [item])
    ensures Ordered(Dropped(items, item.id) + [item])
  {
    hide Place, Dropped;
    DroppedMembers(all, item.id);
    DroppedMembers(items, item.id);
    OrderedSnoc(Dropped(all, item.id), item);
    OrderedSnoc(Dropped(items, item.id), item);
  }

  lemma OrderedSnoc(items: seq<Item>, item: Item)
    requires Ordered(items) && forall x :: x in items ==> x.id != item.id && x.expires <= item.expires
    ensures Ordered(items + [item])
  {
  }

  /** Everything up to an expired item has expired. */
  lemma DeadUpTo(items: seq<Item>, dead: seq<Item>, n: nat, all: seq<Item>, entries: nat, now: real, p: nat)
    requires Ordered(all) && Tails(items, dead, n, all, entries, now) && n + p < |all| && all[n + p].expires <= now
    ensures forall j :: 0 <= j <= n + p ==> all[j].expires <= now
    ensures forall x :: x in dead + all[n..][..p] ==> x.expires <= now && x in all[..n + p + 1]
  {
    var back := all[n..];
    assert forall j :: 0 <= j <= n + p ==> all[j].expires <= all[n + p].expires;
    assert all[..n + p + 1] == all[..n] + back[..p] + [back[p]];
    assert forall k :: 0 <= k < p ==> back[k] == all[n + k];
  }

  lemma SplitBack(dead: seq<Item>, all: seq<Item>, n: nat, p: nat)
    requires n + p < |all|
    ensures dead + (all[n..][..p] + all[n..][p + 1..]) == dead + all[n..][..p] + all[n + p + 1..]
  {
    assert all[n..][p + 1..] == all[n + p + 1..];
  }

  lemma ForgetLater(items: seq<Item>, dead: seq<Item>, n: nat, all: seq<Item>, entries: nat, now: real, id: string)
    requires Ordered(all) && Tails(items, dead, n, all, entries, now)
    requires Place(all[n..], id) >= 0 && all[n..][Place(all[n..], id)].expires <= now
    ensures var p := Place(all[n..], id); Tails(Dropped(items, id), dead + all[n..][..p], n + p + 1, all, entries, now)
  {
    hide Dropped, Place, Ordered;
    var p := Place(all[n..], id);
    DeadUpTo(items, dead, n, all, entries, now, p);
    DroppedMembers(items, id);
    assert Dropped(items, id) == dead + all[n..][..p] + all[n + p + 1..] by {
      DroppedFromSum(dead, all[n..], id);
      DroppedIs(all[n..], id);
      SplitBack(dead, all, n, p);
    }
  }

  lemma ForgetDead(items: seq<Item>, dead: seq<Item>, n: nat, all: seq<Item>, entries: nat, now: real, id: string)
    requires Ordered(all) && Tails(items, dead, n, all, entries, now) && Place(all[n..], id) < 0
    ensures Tails(Dropped(items, id), Dropped(dead, id), n, all, entries, now)
  {
    hide Dropped, Place;
    DroppedFromSum(dead, all[n..], id);
    DroppedMembers(items, id);
    OrderedPart(items, 0, |dead|);
    assert items[0..|dead|] == dead;
    DroppedMembers(dead, id);
  }

  /** Forgetting an expired item on recall keeps the agreement. */
  lemma RecallAgrees(items: seq<Item>, all: seq<Item>, entries: nat, now: real, id: string)
    requires Agree(items, all, entries, now)
    ensures Agree(AfterRecall(items, id, now), all, entries, now)
  {
    hide Dropped, Place, Tails, Ordered;
    TailsAre(items, all, entries, now);
    var dead: seq<Item>, n: nat :| n <= |all| && Tails(items, dead, n, all, entries, now) && items == dead + all[n..];
    var i := Place(items, id);
    if i >= 0 && now >= items[i].expires {
      PlaceInSum(dead, all[n..], id);
      if Place(all[n..], id) >= 0 {
        ForgetLater(items, dead, n, all, entries, now, id);
      } else {
        ForgetDead(items, dead, n, all, entries, now, id);
      }
    }
  }

  lemma TailsAre(items: seq<Item>, all: seq<Item>, entries: nat, now: real)
    requires Agree(items, all, entries, now)
    ensures exists dead: seq<Item>, n: nat ::
      n <= |all| && Tails(items, dead, n, all, entries, now) && items == dead + all[n..]
  {
    var dead: seq<Item>, n: nat :| Tails(items, dead, n, all, entries, now);
    assert n <= |all| && Tails(items, dead, n, all, entries, now) && items == dead + all[n..];
  }

  /** Time passing keeps the agreement. */
  lemma LaterAgrees(items: seq<Item>, all: seq<Item>, entries: nat, now: real, later: real)
    requires Agree(items, all, entries, now) && now <= later
    ensures Agree(items, all, entries, later)
  {
    var dead: seq<Item>, n: nat :| Tails(items, dead, n, all, entries, now);
    assert Tails(items, dead, n, all, entries, later);
  }

  /** What the bounded memory answers, from the unbounded one: the call, if it has not expired
      and fewer than `entries` ids come after it. */
  lemma AgreeingLookup(items: seq<Item>, all: seq<Item>, entries: nat, now: real, id: string)
    requires Agree(items, all, entries, now)
    ensures var p := Place(all, id);
      Lookup(items, id, now)
      == if p >= 0 && now < all[p].expires && |all| - p <= entries then Some(all[p].call) else None
  {
    hide Place, Ordered;
    var dead: seq<Item>, n: nat :| Tails(items, dead, n, all, entries, now);
    var front, back := all[..n], all[n..];
    assert all == front + back;
    PlaceInSum(dead, back, id);
    PlaceInSum(front, back, id);
    var q := Place(dead, id);
    if Place(back, id) < 0 && q >= 0 {
      assert dead[q] in dead && items[q] == dead[q];
      assert dead[q] in front;
    }
    if Place(back, id) >= 0 {
      assert items[|dead| + Place(back, id)] == back[Place(back, id)];
    } else if Place(front, id) >= 0 {
      SameEntry(all, dead, front, back, id);
    }
  }

  /** An id has one entry: the dead one is the one in the unbounded memory. */
  lemma SameEntry(all: seq<Item>, dead: seq<Item>, front: seq<Item>, back: seq<Item>, id: string)
    requires Ordered(all) && all == front + back && Place(front, id) >= 0
    requires forall x :: x in dead ==> x in front
    ensures Place(dead, id) >= 0 ==> dead[Place(dead, id)] == front[Place(front, id)]
  {
    hide Place;
    var q, p := Place(dead, id), Place(front, id);
    if q >= 0 {
      assert dead[q] in front;
      var i :| 0 <= i < |front| && front[i] == dead[q];
      assert all[i].id == all[p].id;
    }
  }

  lemma EverythingGrows(seconds: real, uses: seq<Use>, u: Use)
    ensures Everything(seconds, uses + [u])
            == if u.Remember? then Dropped(Everything(seconds, uses), u.id) + [Item(u.id, u.at + seconds, u.call)]
               else Everything(seconds, uses)
  {
    hide Dropped;
    assert (uses + [u])[..|uses|] == uses;
  }

  lemma CachedGrows(entries: nat, seconds: real, uses: seq<Use>, u: Use)
    ensures Cached(entries, seconds, uses + [u])
            == if u.Remember?
              then Remembered(Cached(entries, seconds, uses), entries, Item(u.id, u.at + seconds, u.call))
               else AfterRecall(Cached(entries, seconds, uses), u.id, u.at)
  {
    hide Remembered, AfterRecall;
    assert (uses + [u])[..|uses|] == uses;
  }

  ghost predicate ExpireBy(items: seq<Item>, limit: real) {
    forall x :: x in items ==> x.expires <= limit
  }

  lemma UseKeepsAgreement(entries: nat, seconds: real, past: seq<Use>, u: Use)
    requires Agree(Cached(entries, seconds, past), Everything(seconds, past), entries, u.at)
    requires ExpireBy(Everything(seconds, past), u.at + seconds)
    ensures Agree(Cached(entries, seconds, past + [u]), Everything(seconds, past + [u]), entries, u.at)
    ensures ExpireBy(Everything(seconds, past + [u]), u.at + seconds)
  {
    hide Agree, Dropped, Remembered, AfterRecall, Cached, Everything;
    CachedGrows(entries, seconds, past, u);
    EverythingGrows(seconds, past, u);
    var items, all := Cached(entries, seconds, past), Everything(seconds, past);
    if u.Remember? {
      RememberAgrees(items, all, entries, u.at, Item(u.id, u.at + seconds, u.call));
      OrderedAll(items, all, entries, u.at);
      DroppedMembers(all, u.id);
    } else {
      RecallAgrees(items, all, entries, u.at, u.id);
    }
  }

  /** Every history of use, on a clock that never goes back, keeps the two memories in agreement. */
  lemma {:induction false} RunAgrees(entries: nat, seconds: real, uses: seq<Use>, now: real)
    requires Monotone(uses) && (uses != [] ==> uses[|uses| - 1].at <= now)
    ensures Agree(Cached(entries, seconds, uses), Everything(seconds, uses), entries, now)
    ensures ExpireBy(Everything(seconds, uses), now + seconds)
  {
    hide Agree;
    if uses == [] {
      StartAgrees(entries, now);
    } else {
      hide Cached, Everything;
      var past, u := uses[..|uses| - 1], uses[|uses| - 1];
      assert uses == past + [u];
      RunAgrees(entries, seconds, past, u.at);
      UseKeepsAgreement(entries, seconds, past, u);
      LaterAgrees(Cached(entries, seconds, uses), Everything(seconds, uses), entries, u.at, now);
    }
  }

  lemma StartAgrees(entries: nat, now: real)
    ensures Agree([], [], entries, now)
  {
    assert Tails([], [], 0, [], entries, now);
  }

  lemma OrderedAll(items: seq<Item>, all: seq<Item>, entries: nat, now: real)
    requires Agree(items, all, entries, now)
    ensures Ordered(all) && Ordered(items) && |items| <= entries
  {
  }

  // ----- The unbounded memory, said of the history -----

  /** When `id` was last remembered, or -1. */
  function LastRemember(uses: seq<Use>, id: string): (t: int)
    ensures -1 <= t < |uses|
    ensures t >= 0 ==> uses[t].Remember? && uses[t].id == id
    ensures forall u :: t < u < |uses| && uses[u].Remember? ==> uses[u].id != id
  {
    if uses == [] then -1
    else
      var n := |uses| - 1;
      if uses[n].Remember? && uses[n].id == id then n else LastRemember(uses[..n], id)
  }

  /** The ids remembered in a stretch of use. */
  function Ids(uses: seq<Use>): set<string> {
    set u | 0 <= u < |uses| && uses[u].Remember? :: uses[u].id
  }

  function ItemIds(items: seq<Item>): set<string> {
    set i | 0 <= i < |items| :: items[i].id
  }

  lemma {:induction false} DistinctCount(items: seq<Item>)
    requires Ordered(items)
    ensures |ItemIds(items)| == |items|
  {
    if items == [] {
    } else {
      var n := |items| - 1;
      DistinctCount(items[..n]);
      assert ItemIds(items) == ItemIds(items[..n]) + {items[n].id};
      assert items[n].id !in ItemIds(items[..n]);
    }
  }

  lemma IdsGrow(uses: seq<Use>, u: Use)
    ensures Ids(uses + [u]) == Ids(uses) + if u.Remember? then {u.id} else {}
  {
    var all := uses + [u];
    assert forall i :: 0 <= i < |uses| ==> all[i] == uses[i];
    assert all[|uses|] == u;
  }

  /** Where the last remembered call of `id` stands: itself, and after it one entry for every id remembered since. */
  ghost predicate Stands(seconds: real, uses: seq<Use>, id: string) {
    var all, t := Everything(seconds, uses), LastRemember(uses, id);
    var p := Place(all, id);
    && (p < 0 <==> t < 0)
    && (t >= 0 && p >= 0 ==>
      all[p] == Item(id, uses[t].at + seconds, uses[t].call) && ItemIds(all[p + 1..]) == Ids(uses[t + 1..]))
  }

  lemma LastRememberGrows(uses: seq<Use>, u: Use, id: string)
    ensures LastRemember(uses + [u], id) == if u.Remember? && u.id == id then |uses| else LastRemember(uses, id)
  {
    assert (uses + [u])[..|uses|] == uses;
  }

  lemma SinceGrows(uses: seq<Use>, u: Use, t: nat)
    requires t < |uses|
    ensures Ids((uses + [u])[t + 1..]) == Ids(uses[t + 1..]) + if u.Remember? then {u.id} else {}
  {
    assert (uses + [u])[t + 1..] == uses[t + 1..] + [u];
    IdsGrow(uses[t + 1..], u);
  }

  lemma DroppedIds(items: seq<Item>, id: string)
    requires Ordered(items)
    ensures ItemIds(Dropped(items, id)) == ItemIds(items) - {id}
  {
    hide Dropped;
    DroppedMembers(items, id);
    var d := Dropped(items, id);
    forall k | k in ItemIds(items) && k != id
      ensures k in ItemIds(d)
    {
      var i :| 0 <= i < |items| && items[i].id == k;
      assert items[i] in d;
    }
    forall k | k in ItemIds(d)
      ensures k in ItemIds(items) && k != id
    {
      var i :| 0 <= i < |d| && d[i].id == k;
      assert d[i] in d && d[i] in items;
    }
  }

  /** Putting another id last leaves `id`'s entry as it was and one more id after it. */
  lemma OtherRemembered(all: seq<Item>, item: Item, id: string)
    requires Ordered(all) && item.id != id
    ensures var all', p := Dropped(all, item.id) + [item], Place(all, id);
      var p' := Place(all', id);
      && (p' < 0 <==> p < 0)
      && (p >= 0 && p' >= 0 ==> all'[p'] == all[p] && ItemIds(all'[p' + 1..]) == ItemIds(all[p + 1..]) + {item.id})
  {
    hide Dropped, Place, ItemIds, Ordered;
    var p, kept := Place(all, id), Dropped(all, item.id);
    PlaceInSum(kept, [item], id);
    PlaceMeans([item], id);
    if p < 0 {
      DroppedMembers(all, item.id);
      PlaceMeans(all, id);
      PlaceMeans(kept, id);
    } else {
      OtherDropped(all, item.id, id);
      var p' := Place(kept, id);
      assert (kept + [item])[p' + 1..] == kept[p' + 1..] + [item];
      ItemIdsGrow(kept[p' + 1..], item);
    }
  }

  lemma ItemIdsGrow(items: seq<Item>, item: Item)
    ensures ItemIds(items + [item]) == ItemIds(items) + {item.id}
  {
    var all := items + [item];
    assert forall i :: 0 <= i < |items| ==> all[i] == items[i];
    assert all[|items|] == item;
  }

  lemma OtherDropped(all: seq<Item>, gone: string, id: string)
    requires Ordered(all) && gone != id && Place(all, id) >= 0
    ensures var kept, p := Dropped(all, gone), Place(all, id);
      var p' := Place(kept, id);
      p' >= 0 && kept[p'] == all[p] && ItemIds(kept[p' + 1..]) == ItemIds(all[p + 1..]) - {gone}
  {
    hide Dropped, Place, ItemIds, Ordered;
    var p := Place(all, id);
    var front, back := all[..p + 1], all[p + 1..];
    assert all == front + back && front[|front| - 1] == all[p];
    OrderedPart(all, p + 1, |all|);
    OrderedPart(all, 0, p + 1);
    assert all[p + 1..|all|] == back && all[0..p + 1] == front;
    DroppedFromSum(front, back, gone);
    DroppedIds(back, gone);
    NotAfter(all, id);
    if Place(back, gone) >= 0 {
      DroppedAfter(front, back, gone, id);
    } else {
      DroppedBefore(front, back, gone, id);
    }
  }

  lemma DroppedAfter(front: seq<Item>, back: seq<Item>, gone: string, id: string)
    requires Ordered(back) && front != [] && front[|front| - 1].id == id && forall x :: x in back ==> x.id != id
    ensures var kept := front + Dropped(back, gone);
      Place(kept, id) == |front| - 1 && kept[|front|..] == Dropped(back, gone)
  {
    hide Dropped, Place, Ordered;
    DroppedMembers(back, gone);
    PlaceInSum(front, Dropped(back, gone), id);
    LastPlace(front, id);
    PlaceMeans(Dropped(back, gone), id);
  }

  lemma DroppedBefore(front: seq<Item>, back: seq<Item>, gone: string, id: string)
    requires Ordered(front) && front != [] && front[|front| - 1].id == id && gone != id
      && forall x :: x in back ==> x.id != id
    requires Place(back, gone) < 0
    ensures var d := Dropped(front, gone);
      && d != [] && d[|d| - 1] == front[|front| - 1]
      && Place(d + back, id) == |d| - 1 && (d + back)[|d|..] == back && ItemIds(back) == ItemIds(back) - {gone}
  {
    hide Dropped, Place, Ordered, ItemIds;
    FrontDropped(front, gone, id);
    PlaceInSum(Dropped(front, gone), back, id);
    PlaceMeans(back, id);
    PlaceMeans(back, gone);
  }

  lemma NotAfter(all: seq<Item>, id: string)
    requires Ordered(all) && Place(all, id) >= 0
    ensures Place(all[Place(all, id) + 1..], id) < 0
    ensures forall x :: x in all[Place(all, id) + 1..] ==> x.id != id
  {
    hide Place;
  }

  lemma PlaceMeans(items: seq<Item>, id: string)
    ensures Place(items, id) < 0 <==> id !in ItemIds(items)
    ensures Place(items, id) < 0 ==> forall x :: x in items ==> x.id != id
    ensures (forall x :: x in items ==> x.id != id) ==> Place(items, id) < 0
  {
    hide Place;
    var i := Place(items, id);
    assert i >= 0 ==> items[i] in items;
  }

  lemma LastPlace(front: seq<Item>, id: string)
    requires front != [] && front[|front| - 1].id == id
    ensures Place(front, id) == |front| - 1
  {
  }

  lemma FrontDropped(front: seq<Item>, gone: string, id: string)
    requires Ordered(front) && front != [] && front[|front| - 1].id == id && gone != id
    ensures var d := Dropped(front, gone); d != [] && d[|d| - 1] == front[|front| - 1] && Place(d, id) == |d| - 1
  {
    hide Place;
    var d := Dropped(front, gone);
    LastPlace(d, id);
  }

  lemma UseKeepsStanding(seconds: real, past: seq<Use>, u: Use, id: string)
    requires Stands(seconds, past, id) && Ordered(Everything(seconds, past))
    ensures Stands(seconds, past + [u], id)
  {
    hide Place, Dropped, LastRemember, ItemIds, Ids, Everything, Ordered;
    EverythingGrows(seconds, past, u);
    LastRememberGrows(past, u, id);
    var t := LastRemember(past, id);
    if t >= 0 {
      SinceGrows(past, u, t);
    }
    if u.Remember? {
      var item := Item(u.id, u.at + seconds, u.call);
      if u.id == id {
        NewestStands(Dropped(Everything(seconds, past), id), item, past + [u]);
      } else {
        OtherRemembered(Everything(seconds, past), item, id);
      }
    }
  }

  lemma {:induction false} EverythingStands(seconds: real, uses: seq<Use>, id: string)
    requires Monotone(uses)
    ensures Stands(seconds, uses, id)
  {
    if uses == [] {
    } else {
      hide Stands, Everything, Cached, Agree;
      var past, u := uses[..|uses| - 1], uses[|uses| - 1];
      assert uses == past + [u];
      EverythingStands(seconds, past, id);
      RunAgrees(0, seconds, past, u.at);
      OrderedAll(Cached(0, seconds, past), Everything(seconds, past), 0, u.at);
      UseKeepsStanding(seconds, past, u, id);
    }
  }

  lemma NewestStands(kept: seq<Item>, item: Item, uses: seq<Use>)
    ensures Place(kept + [item], item.id) == |kept|
    ensures ItemIds((kept + [item])[|kept| + 1..]) == {} == Ids(uses[|uses|..])
  {
    LastPlace(kept + [item], item.id);
  }

  /** `recall` answers with the last call remembered under the id exactly while that is not
      expired and fewer than `entries` other ids have been remembered since. */
  lemma RecallExactly(entries: nat, seconds: real, uses: seq<Use>, now: real, id: string)
    requires Monotone(uses) && (uses != [] ==> uses[|uses| - 1].at <= now)
    ensures var t := LastRemember(uses, id);
      Lookup(Cached(entries, seconds, uses), id, now)
      == if t >= 0 && now < uses[t].at + seconds && |Ids(uses[t + 1..])| < entries then Some(uses[t].call) else None
  {
    hide Place, Ids, LastRemember, Lookup, Agree, Everything, Cached, Ordered, Monotone, Stands;
    RunAgrees(entries, seconds, uses, now);
    var all := Everything(seconds, uses);
    OrderedAll(Cached(entries, seconds, uses), all, entries, now);
    AgreeingLookup(Cached(entries, seconds, uses), all, entries, now, id);
    EverythingStands(seconds, uses, id);
    CountSince(seconds, uses, id);
  }

  /** As many items stand after an id's own as ids have been remembered since. */
  lemma CountSince(seconds: real, uses: seq<Use>, id: string)
    requires Stands(seconds, uses, id) && Ordered(Everything(seconds, uses))
    ensures var all, t := Everything(seconds, uses), LastRemember(uses, id);
      var p := Place(all, id);
      && (p < 0 <==> t < 0)
      && (p >= 0 ==> all[p] == Item(id, uses[t].at + seconds, uses[t].call) && |Ids(uses[t + 1..])| == |all| - p - 1)
  {
    hide Place, Ids, ItemIds, LastRemember, Everything, Ordered;
    var all := Everything(seconds, uses);
    var p := Place(all, id);
    if p >= 0 {
      OrderedPart(all, p + 1, |all|);
      assert all[p + 1..|all|] == all[p + 1..];
      DistinctCount(all[p + 1..]);
    }
  }

  /** The memory never holds more than `entries`, one per id, oldest expiry first. */
  lemma CacheIsBounded(entries: nat, seconds: real, uses: seq<Use>)
    requires Monotone(uses)
    ensures var items := Cached(entries, seconds, uses); |items| <= entries && Ordered(items)
  {
    if uses != [] {
      var now := uses[|uses| - 1].at;
      RunAgrees(entries, seconds, uses, now);
      OrderedAll(Cached(entries, seconds, uses), Everything(seconds, uses), entries, now);
    }
  }

  // ----- The cache as the object it is -----

  class SignatureCache {
    const entries: nat
    const seconds: real
    var items: seq<Item>

    ghost predicate Valid()
      reads this
    {
      |items| <= entries
    }

    constructor (entries: nat, seconds: real)
      ensures Valid() && items == [] && this.entries == entries && this.seconds == seconds
    {
      this.entries, this.seconds := entries, seconds;
      items := [];
    }

    method Remember(id: string, call: RememberedCall, now: real)
      requires Valid()
      modifies this
      ensures Valid() && items == Remembered(old(items), entries, Item(id, now + seconds, call))
    {
      hide Place, Dropped;
      items := Dropped(items, id);
      items := items + [Item(id, now + seconds, call)];
      ghost var all, k := items, 0;
      while |items| > entries
        invariant k <= |all| && items == all[k..]
        invariant k > 0 ==> |items| >= entries
        decreases |items|
      {
        items := items[1..];
        k := k + 1;
      }
    }

    method RecallCall(id: string, now: real) returns (call: Option<RememberedCall>)
      requires Valid()
      modifies this
      ensures Valid() && call == Lookup(old(items), id, now) && items == AfterRecall(old(items), id, now)
    {
      hide Place;
      var i := Place(items, id);
      if i < 0 {
        return None;
      }
      if now >= items[i].expires {
        items := Dropped(items, id);
        return None;
      }
      return Some(items[i].call);
    }
  }
}
