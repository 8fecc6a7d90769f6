/** One account's model list, as last read and as currently filtered, and the loop that reads it. */
module Catalogue {
  import opened Options
  import opened Globs

  datatype Model = Model(id: string, surfaces: seq<string>, rest: string)

  const NOT_SERVED := {"rerank"}

  /** Code-point order of strings. */
  predicate Before(a: string, b: string) {
    if b == "" then false
    else if a == "" then true
    else a[0] < b[0] || (a[0] == b[0] && Before(a[1..], b[1..]))
  }

  /** `a` is the beginning of `b`, or has the smaller character where they first differ. */
  ghost predicate Precedes(a: string, b: string) {
    exists k :: Differs(a, b, k) && if k == |a| then k < |b| else k < |b| && a[k] < b[k]
  }

  ghost predicate Differs(a: string, b: string, k: int) {
    0 <= k <= |a| && k <= |b| && a[..k] == b[..k]
  }

  lemma {:induction false} BeforeExactly(a: string, b: string)
    ensures Before(a, b) <==> Precedes(a, b)
    decreases |a|
  {
    if a == "" || b == "" || a[0] != b[0] {
      PrecedesAtOnce(a, b);
    } else {
      BeforeExactly(a[1..], b[1..]);
      PrecedesFurtherOn(a, b);
    }
  }

  lemma PrecedesAtOnce(a: string, b: string)
    requires a == "" || b == "" || a[0] != b[0]
    ensures Precedes(a, b) <==> b != "" && (a == "" || a[0] < b[0])
  {
    assert Differs(a, b, 0);
    forall k
      ensures Differs(a, b, k) && k > 0 ==> a != "" && b != "" && a[0] == b[0]
    {
      SameStart(a, b, k);
    }
  }

  lemma SameStart(a: string, b: string, k: int)
    ensures Differs(a, b, k) && k > 0 ==> a != "" && b != "" && a[0] == b[0]
  {
    if Differs(a, b, k) && k > 0 {
      assert a[..k][0] == b[..k][0];
    }
  }

  lemma PrecedesFurtherOn(a: string, b: string)
    requires a != "" && b != "" && a[0] == b[0]
    ensures Precedes(a, b) <==> Precedes(a[1..], b[1..])
  {
    var s, t := a[1..], b[1..];
    if Precedes(s, t) {
      var k :| Differs(s, t, k) && if k == |s| then k < |t| else k < |t| && s[k] < t[k];
      assert a[..k + 1] == [a[0]] + s[..k] && b[..k + 1] == [b[0]] + t[..k];
      assert Differs(a, b, k + 1);
    }
    if Precedes(a, b) {
      var k :| Differs(a, b, k) && if k == |a| then k < |b| else k < |b| && a[k] < b[k];
      assert k > 0 ==> s[..k - 1] == a[..k][1..] && t[..k - 1] == b[..k][1..];
      assert Differs(s, t, k - 1);
    }
  }

  lemma {:induction false} BeforeIsTotal(a: string, b: string)
    ensures Before(a, b) || a == b || Before(b, a)
    ensures !(Before(a, b) && Before(b, a)) && !(Before(a, b) && a == b)
    decreases |a| + |b|
  {
    if a == "" || b == "" {
    } else {
      BeforeIsTotal(a[1..], b[1..]);
      assert a == [a[0]] + a[1..] && b == [b[0]] + b[1..];
    }
  }

  lemma {:induction false} BeforeIsTransitive(a: string, b: string, c: string)
    requires Before(a, b) && Before(b, c)
    ensures Before(a, c)
    decreases |a|
  {
    if a == "" || a[0] != b[0] || b[0] != c[0] {
    } else {
      BeforeIsTransitive(a[1..], b[1..], c[1..]);
    }
  }

  function Served(surfaces: seq<string>): seq<string> {
    if surfaces == [] then []
    else (if surfaces[0] in NOT_SERVED then [] else [surfaces[0]]) + Served(surfaces[1..])
  }

  /** A row as it is served: all of it but the surface no account serves. */
  ghost predicate IsServed(row: Model, m: Model) {
    && m.id == row.id && m.rest == row.rest
    && forall s :: s in m.surfaces <==> s in row.surfaces && s != "rerank"
  }

  lemma {:induction false} ServedExactly(surfaces: seq<string>)
    ensures forall s :: s in Served(surfaces) <==> s in surfaces && s != "rerank"
    ensures "rerank" !in surfaces ==> Served(surfaces) == surfaces
  {
    if surfaces == [] {
    } else {
      ServedExactly(surfaces[1..]);
      assert surfaces == [surfaces[0]] + surfaces[1..];
    }
  }

  /** What is served keeps its order. */
  lemma {:induction false} ServedInOrder(a: seq<string>, b: seq<string>)
    ensures Served(a + b) == Served(a) + Served(b)
  {
    if a == [] {
      assert a + b == b;
    } else {
      ServedInOrder(a[1..], b);
      assert (a + b)[0] == a[0] && (a + b)[1..] == a[1..] + b;
      var first := if a[0] in NOT_SERVED then [] else [a[0]];
      SameInOrder(first, Served(a[1..]), Served(b));
    }
  }

  lemma SameInOrder(a: seq<string>, b: seq<string>, c: seq<string>)
    ensures a + (b + c) == a + b + c
  {
  }

  function AsServed(m: Model): Model {
    m.(surfaces := Served(m.surfaces))
  }

  /** Strictly increasing ids: sorted, and each once. */
  ghost predicate SortedById(models: seq<Model>) {
    forall i, j :: 0 <= i < j < |models| ==> Before(models[i].id, models[j].id)
  }

  /** The first row of the listing with this id. */
  function FirstRow(listed: seq<Model>, id: string): Option<Model> {
    if listed == [] then None
    else
      var n := |listed| - 1;
      var first := FirstRow(listed[..n], id);
      if first.Some? then first else if listed[n].id == id then Some(AsServed(listed[n])) else None
  }

  lemma AsServedExactly(row: Model)
    ensures IsServed(row, AsServed(row))
  {
    ServedExactly(row.surfaces);
  }

  ghost predicate FirstAt(listed: seq<Model>, id: string, i: int) {
    0 <= i < |listed| && listed[i].id == id && forall j :: 0 <= j < i ==> listed[j].id != id
  }

  lemma {:induction false} FirstRowExactly(listed: seq<Model>, id: string)
    ensures var found := FirstRow(listed, id);
      if found.Some? then exists i :: FirstAt(listed, id, i) && IsServed(listed[i], found.value)
      else forall m :: m in listed ==> m.id != id
  {
    hide Served, IsServed;
    if listed == [] {
    } else {
      var n := |listed| - 1;
      FirstRowExactly(listed[..n], id);
      assert forall i :: 0 <= i < n ==> listed[..n][i] == listed[i];
      var before := FirstRow(listed[..n], id);
      if before.Some? {
        var i :| FirstAt(listed[..n], id, i) && IsServed(listed[..n][i], before.value);
        assert FirstAt(listed, id, i);
      } else if listed[n].id == id {
        assert forall i :: 0 <= i < n ==> listed[i] in listed[..n];
        assert FirstAt(listed, id, n);
        AsServedExactly(listed[n]);
      }
    }
  }

  /** In the order of their ids, the first row of each id listed, as served, and nothing else. */
  ghost predicate ListsFirstRows(models: seq<Model>, listed: seq<Model>) {
    && (forall i, j :: 0 <= i < j < |models| ==> Precedes(models[i].id, models[j].id))
    && (forall m :: m in models ==> exists i :: FirstAt(listed, m.id, i) && IsServed(listed[i], m))
    && (forall row :: row in listed ==> exists m :: m in models && m.id == row.id)
  }

  lemma ListsExactly(models: seq<Model>, listed: seq<Model>)
    requires Lists(models, listed)
    ensures ListsFirstRows(models, listed)
  {
    hide Before, FirstRow, IsServed, Precedes;
    forall i, j | 0 <= i < j < |models|
      ensures Precedes(models[i].id, models[j].id)
    {
      BeforeExactly(models[i].id, models[j].id);
    }
    forall m | m in models
      ensures exists i :: FirstAt(listed, m.id, i) && IsServed(listed[i], m)
    {
      FirstRowExactly(listed, m.id);
    }
    forall row | row in listed
      ensures exists m :: m in models && m.id == row.id
    {
      FirstRowExactly(listed, row.id);
      FirstRowHasId(listed, row.id);
      assert FirstRow(listed, row.id).value in models;
    }
  }

  /** The list holds exactly the first row of every id listed. */
  ghost predicate Lists(models: seq<Model>, listed: seq<Model>) {
    && SortedById(models)
    && (forall m :: m in models <==> FirstRow(listed, m.id) == Some(m))
  }

  ghost predicate Indexes(byId: map<string, Model>, models: seq<Model>) {
    && (forall m :: m in models ==> m.id in byId && byId[m.id] == m)
    && (forall id :: id in byId ==> byId[id] in models && byId[id].id == id)
  }

  datatype Patterns = Patterns(includes: seq<string>, excludes: seq<string>)

  predicate Kept(p: Patterns, id: string) {
    && (exists i :: 0 <= i < |p.includes| && Glob(p.includes[i], id))
    && !(exists i :: 0 <= i < |p.excludes| && Glob(p.excludes[i], id))
  }

  /** Some pattern includes it and none excludes it. */
  ghost predicate KeptBy(p: Patterns, id: string) {
    (exists g :: g in p.includes && Glob(g, id)) && forall g :: g in p.excludes ==> !Glob(g, id)
  }

  lemma KeptExactly(p: Patterns, id: string)
    ensures Kept(p, id) <==> KeptBy(p, id)
  {
    hide Glob;
    if g :| g in p.includes && Glob(g, id) {
      var i :| 0 <= i < |p.includes| && p.includes[i] == g;
      assert Glob(p.includes[i], id);
    }
    if g :| g in p.excludes && Glob(g, id) {
      var i :| 0 <= i < |p.excludes| && p.excludes[i] == g;
      assert Glob(p.excludes[i], id);
    }
  }

  /** The models the patterns keep, in order. */
  function Exposed(models: seq<Model>, p: Patterns): seq<Model> {
    if models == [] then []
    else
      var n := |models| - 1;
      Exposed(models[..n], p) + if Kept(p, models[n].id) then [models[n]] else []
  }

  lemma {:induction false} ExposedMembers(models: seq<Model>, p: Patterns, m: Model)
    ensures m in Exposed(models, p) <==> m in models && KeptBy(p, m.id)
  {
    hide Kept, KeptBy;
    if models == [] {
    } else {
      var n := |models| - 1;
      ExposedMembers(models[..n], p, m);
      KeptExactly(p, models[n].id);
      assert models == models[..n] + [models[n]];
    }
  }

  /** What is exposed of a sorted list is sorted. */
  lemma {:induction false} ExposedIsSorted(models: seq<Model>, p: Patterns)
    requires SortedById(models)
    ensures SortedById(Exposed(models, p))
  {
    hide Kept, KeptBy, Before;
    if models == [] {
    } else {
      var n := |models| - 1;
      ExposedIsSorted(models[..n], p);
      forall i | 0 <= i < |Exposed(models[..n], p)|
        ensures Before(Exposed(models[..n], p)[i].id, models[n].id)
      {
        ExposedMembers(models[..n], p, Exposed(models[..n], p)[i]);
      }
    }
  }

  /** How many are exposed: as many as the patterns keep. */
  lemma {:induction false} ExposedCount(models: seq<Model>, p: Patterns)
    ensures |Exposed(models, p)| == |set i | 0 <= i < |models| && KeptBy(p, models[i].id)|
  {
    hide Kept, KeptBy;
    var kept := set i | 0 <= i < |models| && KeptBy(p, models[i].id);
    if models == [] {
      assert kept == {};
    } else {
      var n := |models| - 1;
      ExposedCount(models[..n], p);
      KeptExactly(p, models[n].id);
      var before := set i | 0 <= i < |models[..n]| && KeptBy(p, models[..n][i].id);
      assert kept == before + if KeptBy(p, models[n].id) then {n} else {};
    }
  }

  /** Where a new id goes in a sorted list. */
  method PlaceFor(models: seq<Model>, id: string) returns (k: nat)
    requires SortedById(models) && forall m :: m in models ==> m.id != id
    ensures k <= |models|
    ensures forall i :: 0 <= i < k ==> Before(models[i].id, id)
    ensures forall i :: k <= i < |models| ==> Before(id, models[i].id)
  {
    k := 0;
    while k < |models| && Before(models[k].id, id)
      invariant k <= |models|
      invariant forall i :: 0 <= i < k ==> Before(models[i].id, id)
    {
      k := k + 1;
    }
    forall i | k <= i < |models|
      ensures Before(id, models[i].id)
    {
      assert models[i] in models && models[k] in models;
      BeforeIsTotal(models[k].id, id);
      if k < i {
        BeforeIsTransitive(id, models[k].id, models[i].id);
      }
    }
  }

  lemma InsertedIsSorted(models: seq<Model>, k: nat, m: Model)
    requires SortedById(models) && k <= |models|
    requires forall i :: 0 <= i < k ==> Before(models[i].id, m.id)
    requires forall i :: k <= i < |models| ==> Before(m.id, models[i].id)
    ensures SortedById(models[..k] + [m] + models[k..])
    ensures forall x :: x in models[..k] + [m] + models[k..] <==> x in models || x == m
  {
    hide Before;
    assert models == models[..k] + models[k..];
  }

  lemma FirstRowGrows(listed: seq<Model>, n: nat, id: string)
    requires n < |listed|
    ensures FirstRow(listed[..n + 1], id)
            == if FirstRow(listed[..n], id).Some? then FirstRow(listed[..n], id)
               else if listed[n].id == id then Some(AsServed(listed[n])) else None
  {
    assert listed[..n + 1][..n] == listed[..n];
  }

  lemma {:induction false} FirstRowHasId(listed: seq<Model>, id: string)
    ensures FirstRow(listed, id).Some? ==> FirstRow(listed, id).value.id == id
  {
    if listed == [] {
    } else {
      FirstRowHasId(listed[..|listed| - 1], id);
    }
  }

  datatype Summary = Summary(total: nat, exposed: nat, patterns: Patterns, error: Option<string>)

  /** A reading of the list: the rows, or why there are none. */
  datatype Fetched = Rows(listed: seq<Model>) | Failed(why: string)

  class Catalogue {
    var models: seq<Model>
    var byId: map<string, Model>
    var error: Option<string>
    /** The rows the list was last read from. */
    ghost var listed: seq<Model>

    ghost predicate Valid()
      reads this
    {
      Lists(models, listed) && Indexes(byId, models)
    }

    constructor ()
      ensures Valid() && models == [] && error == None
    {
      models, byId, error := [], map[], None;
      listed := [];
    }

    /** `_set`: first row of each id, sorted, and the index to match. */
    method Set(rows: seq<Model>)
      modifies this`models, this`byId, this`listed
      ensures Valid() && listed == rows
      ensures ListsFirstRows(models, rows)
    {
      hide Before, AsServed, SortedById, FirstRow, ListsFirstRows;
      var seen: seq<Model> := [];
      SortedStart(rows);
      for i := 0 to |rows|
        modifies {}
        invariant SortedById(seen)
        invariant forall m :: m in seen <==> FirstRow(rows[..i], m.id) == Some(m)
      {
        forall id
          ensures FirstRow(rows[..i], id).Some? ==> FirstRow(rows[..i], id).value.id == id
          ensures FirstRow(rows[..i + 1], id)
                  == if FirstRow(rows[..i], id).Some? then FirstRow(rows[..i], id)
                     else if rows[i].id == id then Some(AsServed(rows[i])) else None
        {
          FirstRowHasId(rows[..i], id);
          FirstRowGrows(rows, i, id);
        }
        AsServedId(rows[i]);
        if FirstRow(rows[..i], rows[i].id).None? {
          var k := PlaceFor(seen, rows[i].id);
          InsertedIsSorted(seen, k, AsServed(rows[i]));
          seen := seen[..k] + [AsServed(rows[i])] + seen[k..];
        }
      }
      assert rows[..|rows|] == rows;
      models := seen;
      listed := rows;
      UniqueIds(seen);
      byId := map m | m in seen :: m.id := m;
      ListsExactly(models, rows);
    }

    /** `exposed()`. */
    method ExposedNow(p: Patterns) returns (out: seq<Model>)
      ensures out == Exposed(models, p)
      ensures Valid() ==> SortedById(out) && forall m :: m in out <==> m in models && KeptBy(p, m.id)
    {
      hide Kept, KeptBy, SortedById;
      out := [];
      for i := 0 to |models|
        invariant out == Exposed(models[..i], p)
      {
        assert models[..i + 1][..i] == models[..i];
        if Kept(p, models[i].id) {
          out := out + [models[i]];
        }
      }
      assert models[..|models|] == models;
      if Valid() {
        ExposedIsSorted(models, p);
      }
      forall m
        ensures m in out <==> m in models && KeptBy(p, m.id)
      {
        ExposedMembers(models, p, m);
      }
    }

    /** `find`: the model, exactly if it is among those exposed. */
    method Find(id: string, p: Patterns) returns (m: Option<Model>)
      requires Valid()
      ensures m.Some? ==> m.value.id == id && m.value in models && KeptBy(p, id)
      ensures m.None? ==> !KeptBy(p, id) || forall x :: x in models ==> x.id != id
    {
      hide Lists, Kept, KeptBy;
      KeptExactly(p, id);
      if id in byId && Kept(p, id) {
        return Some(byId[id]);
      }
      return None;
    }

    /** `summary()`: its count is the length of what is exposed. */
    method Summarise(p: Patterns) returns (s: Summary)
      ensures s.total == |models| && s.patterns == p && s.error == error
      ensures s.exposed == |set i | 0 <= i < |models| && KeptBy(p, models[i].id)|
    {
      hide Kept, KeptBy;
      var exposed := 0;
      for i := 0 to |models|
        invariant exposed == |Exposed(models[..i], p)|
      {
        assert models[..i + 1][..i] == models[..i];
        if Kept(p, models[i].id) {
          exposed := exposed + 1;
        }
      }
      assert models[..|models|] == models;
      ExposedCount(models, p);
      s := Summary(|models|, exposed, p, error);
    }

    /** `refresh`: a good reading replaces the list; a failed one changes nothing but the error. */
    method Refresh(fetched: Fetched) returns (ok: bool)
      requires Valid()
      modifies this
      ensures Valid() && ok == fetched.Rows?
      ensures ok ==> listed == fetched.listed && error == None
      ensures !ok ==> models == old(models) && byId == old(byId) && listed == old(listed) && error == Some(fetched.why)
    {
      match fetched {
        case Rows(rows) =>
          Set(rows);
          error := None;
          ok := true;
        case Failed(why) =>
          error := Some(why);
          ok := false;
      }
    }

    /** `run`, for one reading after another: what it waits after each. The interval is asked for
        anew after every reading. */
    method Run(readings: seq<Fetched>, intervals: seq<real>) returns (delays: seq<real>)
      requires Valid() && |intervals| == |readings| && forall i :: 0 <= i < |intervals| ==> intervals[i] > 0.0
      modifies this
      ensures Valid() && |delays| == |readings|
      ensures forall i :: 0 <= i < |delays| ==> WaitIs(readings, intervals, i, delays[i])
    {
      hide Least, WaitIs, RetryIs;
      FirstRetry(readings, intervals);
      var retry := FIRST_RETRY;
      delays := [];
      for i := 0 to |readings|
        invariant Valid() && |delays| == i
        invariant RetryIs(readings, intervals, i, retry)
        invariant forall j :: 0 <= j < i ==> WaitIs(readings, intervals, j, delays[j])
      {
        var ok := Refresh(readings[i]);
        var delay := intervals[i];
        if ok {
          RetryAfterRows(readings, intervals, i);
          retry := FIRST_RETRY;
        } else {
          RetryAfterFailure(readings, intervals, i, retry);
          delay := Least(retry, intervals[i]);
          retry := Least(retry * 2.0, intervals[i]);
        }
        delays := delays + [delay];
      }
    }
  }

  lemma SortedStart(rows: seq<Model>)
    ensures SortedById([])
    ensures forall id :: FirstRow(rows[..0], id).None?
  {
  }

  lemma AsServedId(m: Model)
    ensures AsServed(m).id == m.id
  {
  }

  lemma UniqueIds(models: seq<Model>)
    requires SortedById(models)
    ensures forall x, y :: x in models && y in models && x.id == y.id ==> x == y
  {
    forall i, j | 0 <= i < j < |models|
      ensures models[i].id != models[j].id
    {
      BeforeIsTotal(models[i].id, models[j].id);
    }
  }

  // ----- Backing off -----

  const FIRST_RETRY := 30.0

  function Least(a: real, b: real): real {
    if a <= b then a else b
  }

  function Doubled(n: int): real
    decreases n
  {
    if n <= 0 then 1.0 else 2.0 * Doubled(n - 1)
  }

  /** How many of the readings just before the n-th failed in a row. */
  function FailuresTo(readings: seq<Fetched>, n: nat): (f: nat)
    requires n <= |readings|
    ensures f <= n
  {
    if n == 0 || readings[n - 1].Rows? then 0 else 1 + FailuresTo(readings, n - 1)
  }

  /** What the interval asked for after reading `j` lets the wait after reading `i` be. */
  function Allowed(intervals: seq<real>, j: nat, i: nat): real
    requires j < |intervals|
  {
    intervals[j] * Doubled(i - 1 - j)
  }

  /** `x` is the least of 30 s doubled `n` times and of what the intervals from `from` to before `to`
      allow reading `i`. */
  ghost predicate LeastAllowed(x: real, n: nat, intervals: seq<real>, from: int, to: nat, i: nat) {
    && 0 <= from <= to <= |intervals|
    && x <= 30.0 * Doubled(n) && (forall j :: from <= j < to ==> x <= Allowed(intervals, j, i))
    && (x == 30.0 * Doubled(n) || exists j :: from <= j < to && x == Allowed(intervals, j, i))
  }

  /** The wait after reading `i`: the interval, or after the n-th failure in a row 30 s doubled n - 1
      times, but no longer than the intervals met in that row allow, each doubled since. */
  ghost predicate WaitIs(readings: seq<Fetched>, intervals: seq<real>, i: nat, wait: real)
    requires i < |readings| == |intervals|
  {
    if readings[i].Rows? then wait == intervals[i]
    else var n := FailuresTo(readings, i); LeastAllowed(wait, n, intervals, i - n, i + 1, i)
  }

  /** The retry in hand before reading `i`. */
  ghost predicate RetryIs(readings: seq<Fetched>, intervals: seq<real>, i: nat, retry: real)
    requires i <= |readings| == |intervals|
  {
    var n := FailuresTo(readings, i); LeastAllowed(retry, n, intervals, i - n, i, i)
  }

  lemma FirstRetry(readings: seq<Fetched>, intervals: seq<real>)
    requires |readings| == |intervals|
    ensures RetryIs(readings, intervals, 0, FIRST_RETRY)
  {
  }

  lemma RetryAfterRows(readings: seq<Fetched>, intervals: seq<real>, i: nat)
    requires i < |readings| == |intervals| && readings[i].Rows?
    ensures WaitIs(readings, intervals, i, intervals[i]) && RetryIs(readings, intervals, i + 1, FIRST_RETRY)
  {
  }

  lemma RetryAfterFailure(readings: seq<Fetched>, intervals: seq<real>, i: nat, retry: real)
    requires i < |readings| == |intervals| && readings[i].Failed? && RetryIs(readings, intervals, i, retry)
    ensures WaitIs(readings, intervals, i, Least(retry, intervals[i]))
    ensures RetryIs(readings, intervals, i + 1, Least(retry * 2.0, intervals[i]))
  {
    hide LeastAllowed, Least;
    var n := FailuresTo(readings, i);
    OneMoreAllowed(retry, n, intervals, i - n, i, i);
    AllAllowedDoubled(retry, n, intervals, i - n, i);
    OneMoreAllowed(retry * 2.0, n + 1, intervals, i - n, i, i + 1);
  }

  /** The interval asked for now joins those that limit the wait. */
  lemma OneMoreAllowed(x: real, n: nat, intervals: seq<real>, from: int, to: nat, i: nat)
    requires to < |intervals| && (i == to || i == to + 1) && LeastAllowed(x, n, intervals, from, to, i)
    ensures LeastAllowed(Least(x, intervals[to]), n, intervals, from, to + 1, i)
  {
    assert Allowed(intervals, to, i) == intervals[to];
  }

  /** One reading later everything that limits the wait has doubled. */
  lemma AllAllowedDoubled(x: real, n: nat, intervals: seq<real>, from: int, i: nat)
    requires LeastAllowed(x, n, intervals, from, i, i)
    ensures LeastAllowed(x * 2.0, n + 1, intervals, from, i, i + 1)
  {
    hide Allowed, Doubled;
    var next := i + 1;
    forall j: nat | from <= j < i
      ensures Allowed(intervals, j, next) == 2.0 * Allowed(intervals, j, i)
    {
      AllowedDoubles(intervals, j, i);
    }
    DoubledOnce(n);
    assert 30.0 * Doubled(n + 1) == 2.0 * (30.0 * Doubled(n));
    if x != 30.0 * Doubled(n) {
      var j :| from <= j < i && x == Allowed(intervals, j, i);
      assert x * 2.0 == Allowed(intervals, j, next);
    }
  }

  lemma AllowedDoubles(intervals: seq<real>, j: nat, i: nat)
    requires j < i && j < |intervals|
    ensures Allowed(intervals, j, i + 1) == 2.0 * Allowed(intervals, j, i)
  {
    hide Doubled;
    DoubledOnce(i - 1 - j);
    Redouble(intervals[j], Doubled(i - 1 - j));
    assert i + 1 - 1 - j == i - 1 - j + 1;
  }

  lemma DoubledOnce(n: nat)
    ensures Doubled(n + 1) == 2.0 * Doubled(n)
  {
  }

  lemma Redouble(x: real, d: real)
    ensures x * (2.0 * d) == 2.0 * (x * d)
  {
  }

  /** With one interval throughout, that is 30 s doubled n - 1 times but no longer than the interval. */
  lemma FixedIntervalWait(readings: seq<Fetched>, intervals: seq<real>, interval: real, i: nat, wait: real)
    requires i < |readings| == |intervals| && interval > 0.0
      && forall j :: 0 <= j < |intervals| ==> intervals[j] == interval
    requires WaitIs(readings, intervals, i, wait)
    ensures wait == if readings[i].Rows? then interval
      else var doubled := 30.0 * Doubled(FailuresTo(readings, i + 1) - 1);
        if doubled <= interval then doubled else interval
  {
    hide Allowed, Doubled;
    if readings[i].Failed? {
      forall j: nat | j < |intervals|
        ensures Allowed(intervals, j, i) >= interval
      {
        FixedAllowed(intervals, interval, j, i);
      }
      FixedAllowed(intervals, interval, i, i);
    }
  }

  lemma FixedAllowed(intervals: seq<real>, interval: real, j: nat, i: nat)
    requires j < |intervals| && intervals[j] == interval > 0.0
    ensures Allowed(intervals, j, i) >= interval && (j == i ==> Allowed(intervals, j, i) == interval)
  {
    DoubledIsMore(i - 1 - j, interval);
  }

  lemma {:induction false} DoubledIsMore(n: int, x: real)
    requires x > 0.0
    ensures x * Doubled(n) >= x
    decreases n
  {
    if n <= 0 {
      assert x * 1.0 == x;
    } else {
      DoubledIsMore(n - 1, x);
      Redouble(x, Doubled(n - 1));
      assert Doubled(n) == 2.0 * Doubled(n - 1);
    }
  }
}
