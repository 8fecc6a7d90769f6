/** Exactly where a request between machines goes, and what a machine table is read as. */
module MachineRules {
  import opened Options
  import opened Machines

  // ----- Where a request goes -----

  /** The origin of a URL: no port, or port 0, is 443 under https and 80 otherwise. */
  ghost predicate IsOrigin(u: Url, o: Origin) {
    && o.scheme == u.scheme && o.host == u.host
    && match u.port
       case Some(p) => o.port == if p != 0 then p else if u.scheme == Https then 443 else 80
       case None => o.port == if u.scheme == Https then 443 else 80
  }

  lemma OriginExactly(u: Url, o: Origin)
    ensures OriginOf(u) == o <==> IsOrigin(u, o)
  {
  }

  /** `stem` is `path` without the slashes it ends in. */
  ghost predicate IsStem(path: string, stem: string) {
    && stem <= path && (forall i :: |stem| <= i < |path| ==> path[i] == '/')
    && (stem != "" ==> stem[|stem| - 1] != '/')
  }

  lemma {:induction false} UnslashedExactly(path: string)
    ensures IsStem(path, Unslashed(path))
  {
    if path != "" && path[|path| - 1] == '/' {
      UnslashedExactly(path[..|path| - 1]);
    }
  }

  lemma OneStem(path: string, a: string, b: string)
    requires IsStem(path, a) && IsStem(path, b)
    ensures a == b
  {
    NoLonger(path, a, b);
    NoLonger(path, b, a);
    assert a == path[..|a|] && b == path[..|b|];
  }

  lemma NoLonger(path: string, a: string, b: string)
    requires IsStem(path, a) && IsStem(path, b)
    ensures |b| <= |a|
  {
    if b != "" {
      assert b[|b| - 1] == path[|b| - 1];
    }
  }

  /** The table carries `u` by `base`: the request goes there, its own path and query after the base's. */
  ghost predicate CarriedBy(t: Table, u: Url, base: Url, to: Url) {
    && u.scheme == Http && (exists o :: IsOrigin(u, o) && o in t.routes && t.routes[o] == Some(base))
    && to.scheme == base.scheme && to.host == base.host && to.port == base.port
    && exists stem :: IsStem(base.path, stem) && to.path == stem + u.path
  }

  /** A request that never leaves this machine. */
  ghost predicate StaysHere(u: Url) {
    u.host == Localhost || (u.host.Address? && u.host.loopback)
  }

  /** The machine the request is for is named in the table, and has no key to be reached by. */
  ghost predicate Keyless(t: Table, u: Url) {
    u.scheme == Http && exists o :: IsOrigin(u, o) && o in t.routes && t.routes[o] == None
  }

  ghost predicate Listed(t: Table, u: Url) {
    exists o :: IsOrigin(u, o) && o in t.routes
  }

  ghost predicate IsLocal(t: Table, u: Url) {
    exists o :: IsOrigin(u, o) && o in t.local
  }

  /** The name a refusal gives the machine: the table's, unless it is empty. */
  ghost predicate Called(t: Table, u: Url, who: Option<string>) {
    exists o :: IsOrigin(u, o) &&
      match who
      case Some(name) => o in t.names && t.names[o] == name && name != ""
      case None => o in t.names ==> t.names[o] == ""
  }

  lemma CarriesExactly(t: Table, u: Url)
    ensures match Carry(t, u)
      case Ok(Some(to)) => exists base :: CarriedBy(t, u, base, to)
      case Ok(None) => (u.scheme == Http && Listed(t, u) ==> Keyless(t, u) && (t.required ==> StaysHere(u)))
      case Err(why) =>
        t.required && !StaysHere(u) && Keyless(t, u) && why.NoMachineKey? && Called(t, u, why.who)
  {
    hide Unslashed;
    var o := OriginOf(u);
    OnlyOrigin(u);
    if u.scheme == Http && o in t.routes && t.routes[o].Some? {
      var base := t.routes[o].value;
      UnslashedExactly(base.path);
      assert CarriedBy(t, u, base, Carry(t, u).value.value);
    }
  }

  lemma OnlyOrigin(u: Url)
    ensures forall o :: IsOrigin(u, o) <==> o == OriginOf(u)
  {
  }

  /** Every request is carried, where its machine has a key; refused, where encryption is required and it would cross to
      another machine in plain, to one without a key or with a token; and else goes as it is. */
  lemma RoutesExactly(t: Table, u: Url, token: bool)
    ensures match Routed(t, u, token)
      case Ok(to) =>
        || (exists base :: CarriedBy(t, u, base, to))
        || (&& to == u && (u.scheme == Http && Listed(t, u) ==> Keyless(t, u))
            && (t.required && u.scheme == Http && !StaysHere(u) ==> !Listed(t, u) && (token ==> IsLocal(t, u))))
      case Err(NoMachineKey(who)) => t.required && !StaysHere(u) && Keyless(t, u) && Called(t, u, who)
      case Err(TokenInPlain) =>
        t.required && !StaysHere(u) && u.scheme == Http && !Listed(t, u) && token && !IsLocal(t, u)
  {
    hide Unslashed, Carry, CarriedBy, Called;
    OnlyOrigin(u);
    CarriesExactly(t, u);
  }

  /** The keys a connection may present are those the table lists for the machine port of an https URL. */
  lemma PinsExactly(t: Table, u: Url)
    ensures Pins(t, u) == if u.scheme == Https && Reaches(u) in t.machines then Some(t.machines[Reaches(u)]) else None
  {
  }

  // ----- What a table is read as -----

  /** The entry is for this machine port and lists some pin. */
  ghost predicate UsableAt(e: MachineEntry, at: HostPort) {
    e.at == Some(at) && exists p :: p in e.pins && p != ""
  }

  ghost predicate LastUsable(entries: seq<MachineEntry>, at: HostPort, i: int) {
    0 <= i < |entries| && UsableAt(entries[i], at) && forall j :: i < j < |entries| ==> !UsableAt(entries[j], at)
  }

  lemma UsableExactly(e: MachineEntry, at: HostPort)
    ensures GoodMachine(e) && e.at.value == at <==> UsableAt(e, at)
    ensures forall p :: p in PinSet(e.pins) <==> p in e.pins && p != ""
  {
    forall p | p in e.pins && p != ""
      ensures p in PinSet(e.pins)
    {
      var i :| 0 <= i < |e.pins| && e.pins[i] == p;
      assert e.pins[i] != "";
    }
    if GoodMachine(e) {
      var i :| 0 <= i < |e.pins| && e.pins[i] != "";
      assert e.pins[i] in e.pins;
    }
    if UsableAt(e, at) {
      var p :| p in e.pins && p != "";
      var i :| 0 <= i < |e.pins| && e.pins[i] == p;
    }
  }

  lemma {:induction false} LastMachineExactly(entries: seq<MachineEntry>, at: HostPort)
    ensures var found := LastMachine(entries, at);
      if found.Some? then exists i :: LastUsable(entries, at, i) && found.value == entries[i]
      else forall e :: e in entries ==> !UsableAt(e, at)
  {
    hide GoodMachine, UsableAt;
    if entries == [] {
    } else {
      var n := |entries| - 1;
      LastMachineExactly(entries[..n], at);
      UsableExactly(entries[n], at);
      assert forall i :: 0 <= i < n ==> entries[..n][i] == entries[i];
      if UsableAt(entries[n], at) {
        assert LastUsable(entries, at, n);
      } else if LastMachine(entries[..n], at).Some? {
        var i :| LastUsable(entries[..n], at, i) && LastMachine(entries[..n], at).value == entries[..n][i];
        assert LastUsable(entries, at, i);
      }
    }
  }

  /** The route is for this plain origin. */
  ghost predicate RouteFor(e: RouteEntry, o: Origin) {
    e.origin.Some? && e.origin.value.scheme == Http && IsOrigin(e.origin.value, o)
  }

  ghost predicate LastFor(entries: seq<RouteEntry>, o: Origin, i: int) {
    0 <= i < |entries| && RouteFor(entries[i], o) && forall j :: i < j < |entries| ==> !RouteFor(entries[j], o)
  }

  lemma {:induction false} LastRouteExactly(entries: seq<RouteEntry>, o: Origin)
    ensures var found := LastRoute(entries, o);
      if found.Some? then exists i :: LastFor(entries, o, i) && found.value == entries[i]
      else forall e :: e in entries ==> !RouteFor(e, o)
  {
    hide OriginOf, IsOrigin;
    if entries == [] {
    } else {
      var n := |entries| - 1;
      LastRouteExactly(entries[..n], o);
      if entries[n].origin.Some? {
        OriginExactly(entries[n].origin.value, o);
      }
      assert forall i :: 0 <= i < n ==> entries[..n][i] == entries[i];
      if RouteFor(entries[n], o) {
        assert LastFor(entries, o, n);
      } else if LastRoute(entries[..n], o).Some? {
        var i :| LastFor(entries[..n], o, i) && LastRoute(entries[..n], o).value == entries[..n][i];
        assert LastFor(entries, o, i);
      }
    }
  }

  /** A target is kept only if it is an https address whose machine port the table pins. */
  lemma TargetExactly(machines: map<HostPort, set<Pin>>, target: Option<Url>)
    ensures GoodTarget(machines, target) <==>
      target.Some? && target.value.scheme == Https && Reaches(target.value) in machines
  {
  }

  ghost predicate LastNaming(entries: seq<NameEntry>, o: Origin, i: int) {
    0 <= i < |entries| && entries[i].origin == Some(o) && forall j :: i < j < |entries| ==> entries[j].origin != Some(o)
  }

  lemma {:induction false} LastNameExactly(entries: seq<NameEntry>, o: Origin)
    ensures var found := LastName(entries, o);
      if found.Some? then exists i :: LastNaming(entries, o, i) && entries[i].name == found.value
      else forall e :: e in entries ==> e.origin != Some(o)
  {
    if entries == [] {
    } else {
      var n := |entries| - 1;
      LastNameExactly(entries[..n], o);
      assert forall i :: 0 <= i < n ==> entries[..n][i] == entries[i];
      if entries[n].origin == Some(o) {
        assert LastNaming(entries, o, n);
      } else if LastName(entries[..n], o).Some? {
        var i :| LastNaming(entries[..n], o, i) && entries[..n][i].name == LastName(entries[..n], o).value;
        assert LastNaming(entries, o, i);
      }
    }
  }
}
