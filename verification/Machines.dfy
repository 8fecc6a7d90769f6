/**
  What an internal request may say to which machine: the table of machines, the TLS address that
  carries a plain request, and the pins a connection is checked against. URLs are taken apart
  already; a host is a name, `localhost`, or an address that is loopback or not.
 */
module Machines {
  import opened Options

  datatype Host = Localhost | Address(text: string, loopback: bool) | Hostname(name: string)

  datatype Scheme = Http | Https | OtherScheme(name: string)

  /** `path` is the path and query as sent. */
  datatype Url = Url(scheme: Scheme, host: Host, port: Option<int>, path: string)

  datatype HostPort = HostPort(host: Host, port: int)

  datatype Origin = Origin(scheme: Scheme, host: Host, port: int)

  /** `port or default`: no port and port 0 are the default. */
  function PortOr(port: Option<int>, default: int): int {
    if port.Some? && port.value != 0 then port.value else default
  }

  function OriginOf(u: Url): Origin {
    Origin(u.scheme, u.host, PortOr(u.port, if u.scheme == Https then 443 else 80))
  }

  predicate IsLoopback(h: Host) {
    h.Localhost? || (h.Address? && h.loopback)
  }

  type Pin = string

  datatype Table = Table(
    machines: map<HostPort, set<Pin>>,
    routes: map<Origin, Option<Url>>,
    required: bool,
    names: map<Origin, string>,
    local: set<Origin>)

  predicate IsEmpty(t: Table) {
    t.machines == map[] && t.routes == map[]
  }

  /** The pins a machine port's key is checked against, or None for any other address. */
  function Pins(t: Table, u: Url): Option<set<Pin>> {
    var at := HostPort(u.host, PortOr(u.port, 443));
    if u.scheme == Https && at in t.machines then Some(t.machines[at]) else None
  }

  /** `path.rstrip("/")`. */
  function Unslashed(path: string): string {
    if path != "" && path[|path| - 1] == '/' then Unslashed(path[..|path| - 1]) else path
  }

  /** Refused for want of a machine's key, named where the table names it, or to keep a token out of plain http. */
  datatype Refused = NoMachineKey(who: Option<string>) | TokenInPlain

  /** What a refusal calls the machine: its name, unless that is empty; None is the origin itself. */
  function NameOf(t: Table, o: Origin): Option<string> {
    if o in t.names && t.names[o] != "" then Some(t.names[o]) else None
  }

  /** `carry`: the TLS address for a plain request, None to send it as it is, or refused. */
  function Carry(t: Table, u: Url): Result<Option<Url>, Refused> {
    if u.scheme != Http || OriginOf(u) !in t.routes then Ok(None)
    else match t.routes[OriginOf(u)]
      case Some(base) => Ok(Some(base.(path := Unslashed(base.path) + u.path)))
      case None => if t.required && !IsLoopback(u.host) then Err(NoMachineKey(NameOf(t, OriginOf(u)))) else Ok(None)
  }

  /** `_route`: where a request goes, or why it does not; `token` says it carries one of this install's. */
  function Routed(t: Table, u: Url, token: bool): Result<Url, Refused> {
    if IsEmpty(t) && !t.required then Ok(u)
    else match Carry(t, u)
      case Err(e) => Err(e)
      case Ok(Some(carried)) => Ok(carried)
      case Ok(None) =>
        if t.required && u.scheme == Http && token && !IsLoopback(u.host) && OriginOf(u) !in t.local
        then Err(TokenInPlain) else Ok(u)
  }

  // ----- Reading a table -----

  /** An entry of the document: a machine port (None where the key is no host and port) and the
      pins listed for it, those that are not text left out. */
  datatype MachineEntry = MachineEntry(at: Option<HostPort>, pins: seq<Pin>)

  /** A route: the address it is for and the one it goes to, each None where it is no URL. */
  datatype RouteEntry = RouteEntry(origin: Option<Url>, target: Option<Url>)

  /** A name and the origin it is for, None where the key is no origin written out. */
  datatype NameEntry = NameEntry(origin: Option<Origin>, name: string)

  datatype Document =
    | NotAnObject
    | Document(machines: seq<MachineEntry>, routes: seq<RouteEntry>, required: bool, names: seq<NameEntry>,
      local: seq<Option<Url>>)

  predicate GoodMachine(e: MachineEntry) {
    e.at.Some? && exists i :: 0 <= i < |e.pins| && e.pins[i] != ""
  }

  function PinSet(pins: seq<Pin>): set<Pin> {
    set i | 0 <= i < |pins| && pins[i] != "" :: pins[i]
  }

  predicate GoodTarget(machines: map<HostPort, set<Pin>>, target: Option<Url>) {
    target.Some? && target.value.scheme == Https
      && HostPort(target.value.host, PortOr(target.value.port, 443)) in machines
  }

  /** Every route carries plain requests only, to an https machine the table pins. */
  ghost predicate HoldsTogether(t: Table) {
    && (forall at :: at in t.machines ==> t.machines[at] != {})
    && (forall o :: o in t.routes ==> o.scheme == Http && (t.routes[o].Some? ==> GoodTarget(t.machines, t.routes[o])))
  }

  /** What the document says of `origin`: its last usable entry, kept only if its target is pinned. */
  function LastRoute(routes: seq<RouteEntry>, origin: Origin): Option<RouteEntry> {
    if routes == [] then None
    else
      var e := routes[|routes| - 1];
      if e.origin.Some? && e.origin.value.scheme == Http && OriginOf(e.origin.value) == origin then Some(e)
      else LastRoute(routes[..|routes| - 1], origin)
  }

  function LastMachine(machines: seq<MachineEntry>, at: HostPort): Option<MachineEntry> {
    if machines == [] then None
    else
      var e := machines[|machines| - 1];
      if GoodMachine(e) && e.at.value == at then Some(e) else LastMachine(machines[..|machines| - 1], at)
  }

  function LastName(names: seq<NameEntry>, origin: Origin): Option<string> {
    if names == [] then None
    else if names[|names| - 1].origin == Some(origin) then Some(names[|names| - 1].name)
    else LastName(names[..|names| - 1], origin)
  }

  lemma GoodMachineHasPins(e: MachineEntry)
    requires GoodMachine(e)
    ensures PinSet(e.pins) != {}
  {
    var i :| 0 <= i < |e.pins| && e.pins[i] != "";
    assert e.pins[i] in PinSet(e.pins);
  }

  /** `parse_machine_table`: entries that do not hold together are dropped. */
  method ParseTable(document: Document) returns (r: Result<Table, ()>)
    ensures r.Err? <==> document.NotAnObject?
    ensures r.Ok? ==>
      && HoldsTogether(r.value) && r.value.required == document.required
      && (forall at :: at in r.value.machines <==> LastMachine(document.machines, at).Some?)
      && (forall at :: at in r.value.machines ==>
        r.value.machines[at] == PinSet(LastMachine(document.machines, at).value.pins))
      && (forall o :: o in r.value.routes <==> LastRoute(document.routes, o).Some?)
      && (forall o :: o in r.value.routes ==>
            r.value.routes[o] == (var target := LastRoute(document.routes, o).value.target;
                                  if GoodTarget(r.value.machines, target)
                                    then Some(target.value.(path := Unslashed(target.value.path))) else None))
      && (forall o :: o in r.value.names <==> LastName(document.names, o).Some?)
      && (forall o :: o in r.value.names ==> LastName(document.names, o) == Some(r.value.names[o]))
      && (forall o :: o in r.value.local <==>
        exists i :: 0 <= i < |document.local| && document.local[i].Some? && OriginOf(document.local[i].value) == o)
  {
    if document.NotAnObject? {
      return Err(());
    }
    var machines := MachinesOf(document.machines);
    var routes := RoutesOf(document.routes, machines);
    var names := NamesOf(document.names);
    var local := {};
    for i := 0 to |document.local|
      invariant forall o :: o in local <==>
        exists j :: 0 <= j < i && document.local[j].Some? && OriginOf(document.local[j].value) == o
    {
      if document.local[i].Some? {
        local := local + {OriginOf(document.local[i].value)};
      }
    }
    r := Ok(Table(machines, routes, document.required, names, local));
  }

  method MachinesOf(entries: seq<MachineEntry>) returns (machines: map<HostPort, set<Pin>>)
    ensures forall at :: at in machines <==> LastMachine(entries, at).Some?
    ensures forall at :: at in machines ==>
      machines[at] == PinSet(LastMachine(entries, at).value.pins) && machines[at] != {}
  {
    hide PinSet, GoodMachine;
    machines := map[];
    for i := 0 to |entries|
      invariant forall at :: at in machines <==> LastMachine(entries[..i], at).Some?
      invariant forall at :: at in machines ==>
        machines[at] == PinSet(LastMachine(entries[..i], at).value.pins) && machines[at] != {}
    {
      assert entries[..i + 1][..i] == entries[..i];
      if GoodMachine(entries[i]) {
        GoodMachineHasPins(entries[i]);
        GoodMachineIsAt(entries[i]);
        machines := machines[entries[i].at.value := PinSet(entries[i].pins)];
      }
    }
    assert entries[..|entries|] == entries;
  }

  lemma GoodMachineIsAt(e: MachineEntry)
    requires GoodMachine(e)
    ensures e.at.Some?
  {
  }

  method RoutesOf(entries: seq<RouteEntry>, machines: map<HostPort, set<Pin>>)
    returns (routes: map<Origin, Option<Url>>)
    ensures forall o :: o in routes <==> LastRoute(entries, o).Some?
    ensures forall o :: o in routes ==> o.scheme == Http
    ensures forall o :: o in routes ==>
      routes[o] == (var target := LastRoute(entries, o).value.target;
                    if GoodTarget(machines, target) then Some(target.value.(path := Unslashed(target.value.path)))
                      else None)
  {
    hide GoodTarget;
    routes := map[];
    for i := 0 to |entries|
      invariant forall o :: o in routes <==> LastRoute(entries[..i], o).Some?
      invariant forall o :: o in routes ==> o.scheme == Http
      invariant forall o :: o in routes ==> routes[o] == Carrier(machines, LastRoute(entries[..i], o).value.target)
    {
      assert entries[..i + 1][..i] == entries[..i];
      var e := entries[i];
      if e.origin.Some? && e.origin.value.scheme == Http {
        routes := routes[OriginOf(e.origin.value) := Carrier(machines, e.target)];
      }
    }
    assert entries[..|entries|] == entries;
    CarrierIs(machines);
  }

  method NamesOf(entries: seq<NameEntry>) returns (names: map<Origin, string>)
    ensures forall o :: o in names <==> LastName(entries, o).Some?
    ensures forall o :: o in names ==> LastName(entries, o) == Some(names[o])
  {
    names := map[];
    for i := 0 to |entries|
      invariant forall o :: o in names <==> LastName(entries[..i], o).Some?
      invariant forall o :: o in names ==> LastName(entries[..i], o) == Some(names[o])
    {
      assert entries[..i + 1][..i] == entries[..i];
      if entries[i].origin.Some? {
        names := names[entries[i].origin.value := entries[i].name];
      }
    }
    assert entries[..|entries|] == entries;
  }

  function Carrier(machines: map<HostPort, set<Pin>>, target: Option<Url>): Option<Url> {
    if GoodTarget(machines, target) then Some(target.value.(path := Unslashed(target.value.path))) else None
  }

  lemma CarrierIs(machines: map<HostPort, set<Pin>>)
    ensures forall target :: GoodTarget(machines, target) ==> target.Some?
  {
  }

  // ----- What routing promises -----

  /** A request that is carried goes to a machine the table pins, over the pinned pool. */
  lemma CarriedIsPinned(t: Table, u: Url)
    requires HoldsTogether(t) && Carry(t, u).Ok? && Carry(t, u).value.Some?
    ensures var to := Carry(t, u).value.value; to.scheme == Https && Pins(t, to).Some? && Pins(t, to).value != {}
    ensures var to := Carry(t, u).value.value; Carry(t, to) == Ok(None)
  {
    hide Unslashed;
    assert OriginOf(u) in t.routes;
  }

  /** Under `required`, what still leaves in plain http is for no machine the table names, or never
      leaves this one; and it carries no token, or never leaves this one. */
  lemma PlainUnderRequired(t: Table, u: Url, token: bool)
    requires HoldsTogether(t) && t.required && Routed(t, u, token).Ok? && Routed(t, u, token).value.scheme == Http
    ensures Routed(t, u, token).value == u
    ensures OriginOf(u) !in t.routes || IsLoopback(u.host)
    ensures !token || IsLoopback(u.host) || OriginOf(u) in t.local
  {
    hide Unslashed;
    if Carry(t, u).Ok? && Carry(t, u).value.Some? {
      CarriedIsPinned(t, u);
    }
  }

  /** Under `required`, a request is refused exactly when it would cross to another machine in
      plain: one the table names and cannot carry, or any, with a token of this install. */
  lemma RefusedExactly(t: Table, u: Url, token: bool)
    requires t.required
    ensures Routed(t, u, token).Err? && OriginOf(u) in t.routes ==>
      Routed(t, u, token).error == NoMachineKey(NameOf(t, OriginOf(u)))
    ensures Routed(t, u, token).Err? <==>
      && u.scheme == Http && !IsLoopback(u.host)
      && (if OriginOf(u) in t.routes then t.routes[OriginOf(u)].None? else token && OriginOf(u) !in t.local)
  {
  }

  /** Routing a routed request changes nothing. */
  lemma RoutingIsIdempotent(t: Table, u: Url, token: bool)
    requires HoldsTogether(t) && Routed(t, u, token).Ok?
    ensures Routed(t, Routed(t, u, token).value, token) == Routed(t, u, token)
  {
    hide Unslashed;
    if Carry(t, u).Ok? && Carry(t, u).value.Some? {
      CarriedIsPinned(t, u);
    }
  }

  // ----- Sending -----

  class Request {
    var url: Url
    var host: HostPort
    const token: bool

    constructor (url: Url, token: bool)
      ensures this.url == url && this.token == token
      ensures this.host == HostPort(url.host, OriginOf(url).port)
    {
      this.url, this.token := url, token;
      this.host := HostPort(url.host, PortOr(url.port, if url.scheme == Https then 443 else 80));
    }
  }

  /** `_route`, rewriting the request in place. */
  method Route(request: Request, t: Table) returns (refused: Option<Refused>)
    modifies request
    ensures match Routed(t, old(request.url), request.token)
            case Ok(to) => refused == None && request.url == to
            case Err(e) => refused == Some(e) && request.url == old(request.url)
    ensures match Carry(t, old(request.url))
            case Ok(Some(to)) => request.host == HostPort(to.host, PortOr(to.port, 443))
            case _ => request.host == old(request.host)
  {
    if IsEmpty(t) && !t.required {
      return None;
    }
    var carried := Carry(t, request.url);
    if carried.Err? {
      return Some(carried.error);
    }
    if carried.value.Some? {
      request.url := carried.value.value;
      request.host := HostPort(request.url.host, PortOr(request.url.port, 443));
    } else if t.required && request.url.scheme == Http && request.token {
      if !IsLoopback(request.url.host) && OriginOf(request.url) !in t.local {
        return Some(TokenInPlain);
      }
    }
    return None;
  }

  datatype Sent =
    | NotSent(why: Refused) | WrongKey(machine: HostPort)
    | OverPlainPool(url: Url) | OverPinnedPool(url: Url, pin: Pin)

  /** The machine port an https URL is for. */
  ghost function Reaches(u: Url): HostPort {
    HostPort(u.host, if u.port.Some? && u.port.value != 0 then u.port.value else 443)
  }

  /** `_check_pin`: whether a machine may be sent anything once it has shown its key. */
  predicate KeyListed(t: Table, machine: HostPort, presented: Option<Pin>) {
    machine in t.machines && presented.Some? && presented.value in t.machines[machine]
  }

  /** `handle_request`. The table may be another one by the time the key is checked. */
  method Send(request: Request, t: Table, atHandshake: Table, presented: Option<Pin>) returns (sent: Sent)
    requires HoldsTogether(t)
    modifies request
    ensures sent.NotSent? <==> Routed(t, old(request.url), request.token).Err?
    ensures sent.OverPinnedPool? ==>
      && presented == Some(sent.pin) && Reaches(sent.url) in atHandshake.machines
      && sent.pin in atHandshake.machines[Reaches(sent.url)]
    ensures sent.WrongKey? ==>
      && Routed(t, old(request.url), request.token).Ok?
      && sent.machine == Reaches(Routed(t, old(request.url), request.token).value)
      && (presented.Some? && sent.machine in atHandshake.machines ==>
            presented.value !in atHandshake.machines[sent.machine])
    ensures sent.OverPlainPool? ==> Pins(t, sent.url).None?
    ensures sent.OverPlainPool? || sent.OverPinnedPool? ==> Ok(sent.url) == Routed(t, old(request.url), request.token)
    ensures Carry(t, old(request.url)).Ok? && Carry(t, old(request.url)).value.Some? ==> !sent.OverPlainPool?
  {
    var refused := Route(request, t);
    if refused.Some? {
      return NotSent(refused.value);
    }
    if Carry(t, old(request.url)).Ok? && Carry(t, old(request.url)).value.Some? {
      CarriedIsPinned(t, old(request.url));
    }
    if Pins(t, request.url).Some? {
      var machine := HostPort(request.url.host, PortOr(request.url.port, 443));
      if !KeyListed(atHandshake, machine, presented) {
        return WrongKey(machine);
      }
      return OverPinnedPool(request.url, presented.value);
    }
    return OverPlainPool(request.url);
  }
}
