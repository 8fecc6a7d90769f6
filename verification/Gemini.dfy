/**
  Gemini's wire, both ways: an OpenAI-shaped conversation into `contents`, and the parts of an
  answer into text and tool calls. JSON text is read and written by a codec handed in.
 */
module Gemini {
  import opened Options
  import opened Signatures
  import opened Text

  datatype Value = Scalar(text: string) | List(items: seq<Value>) | Object(fields: map<string, Value>)

  type Fields = map<string, Value>

  /** What `json.loads` makes of a text, None where it is not JSON; and `json.dumps`. */
  datatype Codec = Codec(loads: string -> Option<Value>, dumps: Value -> string)

  /** What is written reads back. */
  ghost predicate Ideal(codec: Codec) {
    forall v :: codec.loads(codec.dumps(v)) == Some(v) && !Blank(codec.dumps(v))
  }

  // ----- A conversation -----

  /** One part of a message; Unsendable is a kind, or a URL, that cannot go to Gemini. */
  datatype Piece = Words(text: string) | Media(mime: string, data: string) | Unsendable

  datatype Content = NoContent | Plain(text: string) | Pieces(pieces: seq<Piece>)

  /** Call arguments, as an object already or as text. */
  datatype Arguments = Given(fields: Fields) | Written(text: string)

  datatype ToolCall = ToolCall(id: string, name: string, arguments: Arguments)

  datatype Message =
    | System(content: Content)
    | Assistant(content: Content, calls: seq<ToolCall>)
    | Tool(content: Content, callId: string)
    | Other(content: Content)

  // ----- Gemini's side -----

  datatype Role = User | Model

  datatype Part =
    | Text(text: string)
    | Inline(mime: string, data: string)
    | FunctionCall(name: string, args: Fields, signature: Option<string>, id: Option<string>)
    | FunctionResponse(name: string, response: Fields, id: Option<string>)

  datatype Turn = Turn(role: Role, parts: seq<Part>)

  datatype Trouble =
    | CannotSend(message: nat) | ArgsNotJson(id: string) | ArgsNotObject(id: string) | NoSuchCall(message: nat)

  function PieceParts(pieces: seq<Piece>): Option<seq<Part>> {
    if pieces == [] then Some([])
    else
      var rest := PieceParts(pieces[1..]);
      if pieces[0].Unsendable? || rest.None? then None
      else Some([if pieces[0].Words? then Text(pieces[0].text) else Inline(pieces[0].mime, pieces[0].data)]
        + rest.value)
  }

  /** A message's content as parts, or None where some part cannot be sent. */
  function PartsOf(content: Content): Option<seq<Part>> {
    match content
    case NoContent => Some([])
    case Plain(text) => Some(if text == "" then [] else [Text(text)])
    case Pieces(pieces) => PieceParts(pieces)
  }

  function TextsOf(parts: seq<Part>): string {
    if parts == [] then "" else (if parts[0].Text? then parts[0].text else "") + TextsOf(parts[1..])
  }

  /** `_args_of`. */
  function ArgsOf(codec: Codec, id: string, raw: Arguments): Result<Fields, Trouble> {
    match raw
    case Given(fields) => Ok(fields)
    case Written(text) =>
      if Blank(text) then Ok(map[])
      else match codec.loads(text)
        case None => Err(ArgsNotJson(id))
        case Some(v) => if v.Object? then Ok(v.fields) else Err(ArgsNotObject(id))
  }

  /** `_response_of`: an object stays one; anything else is its `result`. */
  function ResponseOf(codec: Codec, text: string): Fields {
    match codec.loads(text)
    case None => map["result" := Scalar(text)]
    case Some(v) => if v.Object? then v.fields else map["result" := v]
  }

  /** What one message contributes: a turn's parts, or system text. */
  datatype Said = Said(system: string, role: Role, parts: seq<Part>, unsigned: bool)

  /** A call on the wire again, with what is remembered of it. */
  function CallPart(call: ToolCall, args: Fields, known: Option<RememberedCall>): Part {
    FunctionCall(call.name, args,
                 if known.Some? then known.value.signature else None,
                 if known.Some? && known.value.googleId then Some(call.id) else None)
  }

  predicate Unsigned(known: Option<RememberedCall>) {
    known.None? || known.value.signature.None?
  }

  /** What the clock says at the `i`-th recall of message `n`: a monotonic clock, read each time. */
  type Clock = (nat, nat) -> real

  ghost predicate Forward(clock: Clock) {
    forall n, i, m, j :: n < m || (n == m && i <= j) ==> clock(n, i) <= clock(m, j)
  }

  datatype CallParts = CallParts(parts: seq<Part>, unsigned: bool)

  /** The calls of message `at`. */
  function PartsOfCalls(codec: Codec, items: seq<Item>, clock: Clock, at: nat,
                        calls: seq<ToolCall>): Result<CallParts, Trouble> {
    if calls == [] then Ok(CallParts([], false))
    else
      var n := |calls| - 1;
      var before := PartsOfCalls(codec, items, clock, at, calls[..n]);
      if before.Err? then before
      else
        var call := calls[n];
        var args := ArgsOf(codec, call.id, call.arguments);
        var known := Lookup(items, call.id, clock(at, n));
        if args.Err? then Err(args.error)
        else Ok(CallParts(before.value.parts + [CallPart(call, args.value, known)],
          before.value.unsigned || Unsigned(known)))
  }

  /** The function each call id names after `calls`. */
  function Named(names: map<string, string>, calls: seq<ToolCall>): map<string, string> {
    if calls == [] then names
    else
      var n := |calls| - 1;
      Named(names, calls[..n])[calls[n].id := calls[n].name]
  }

  /** The function each call id names before message `n`. */
  function NamesBefore(messages: seq<Message>, n: nat): map<string, string>
    requires n <= |messages|
  {
    if n == 0 then map[]
    else
      var before := NamesBefore(messages, n - 1);
      if messages[n - 1].Assistant? then Named(before, messages[n - 1].calls) else before
  }

  /** The function a tool result answers: what the conversation says, else what is remembered, else "". */
  function AnsweredName(names: map<string, string>, id: string, known: Option<RememberedCall>): string {
    if id in names && names[id] != "" then names[id]
    else if known.Some? then known.value.name else ""
  }

  function Says(codec: Codec, items: seq<Item>, clock: Clock, messages: seq<Message>, n: nat): Result<Said, Trouble>
    requires n < |messages|
  {
    var m := messages[n];
    var parts := PartsOf(m.content);
    match m
    case System(_) =>
      if parts.None? then Err(CannotSend(n)) else Ok(Said(TextsOf(parts.value), User, [], false))
    case Assistant(_, calls) =>
      if parts.None? then Err(CannotSend(n))
      else
        var called := PartsOfCalls(codec, items, clock, n, calls);
        if called.Err? then Err(called.error)
        else Ok(Said("", Model, parts.value + called.value.parts, called.value.unsigned))
    case Tool(_, id) =>
      var known := Lookup(items, id, clock(n, 0));
      var name := AnsweredName(NamesBefore(messages, n), id, known);
      if name == "" then Err(NoSuchCall(n))
      else if parts.None? then Err(CannotSend(n))
      else
        var response := FunctionResponse(name, ResponseOf(codec, TextsOf(parts.value)),
                                         if known.Some? && known.value.googleId then Some(id) else None);
        Ok(Said("", User, [response], false))
    case Other(_) =>
      if parts.None? then Err(CannotSend(n)) else Ok(Said("", User, parts.value, false))
  }

  /** `add`: parts join the last turn when it is the same speaker's. */
  function Added(turns: seq<Turn>, role: Role, parts: seq<Part>): seq<Turn> {
    if parts == [] then turns
    else
      var last := |turns| - 1;
      if turns != [] && turns[last].role == role then turns[..last] + [Turn(role, turns[last].parts + parts)]
      else turns + [Turn(role, parts)]
  }

  datatype Draft = Draft(system: seq<string>, turns: seq<Turn>, unsigned: bool)

  function WithSaid(d: Draft, s: Said): Draft {
    Draft(d.system + if s.system == "" then [] else [s.system], Added(d.turns, s.role, s.parts),
      d.unsigned || s.unsigned)
  }

  /** The first `n` messages. */
  function Drafted(codec: Codec, items: seq<Item>, clock: Clock, messages: seq<Message>, n: nat): Result<Draft, Trouble>
    requires n <= |messages|
  {
    if n == 0 then Ok(Draft([], [], false))
    else
      var before := Drafted(codec, items, clock, messages, n - 1);
      if before.Err? then before
      else
        var said := Says(codec, items, clock, messages, n - 1);
        if said.Err? then Err(said.error) else Ok(WithSaid(before.value, said.value))
  }

  function JoinedBy(between: string, texts: seq<string>): string {
    if texts == [] then ""
    else if |texts| == 1 then texts[0]
    else texts[0] + between + JoinedBy(between, texts[1..])
  }

  datatype Contents = Contents(turns: seq<Turn>, instruction: Option<string>, unsigned: bool)

  /** System text becomes the instruction, or leads the first user turn where there can be none. */
  function Finished(d: Draft, foldSystem: bool): Contents {
    var system := JoinedBy("\n\n", d.system);
    if d.system == [] then Contents(d.turns, None, d.unsigned)
    else if !foldSystem then Contents(d.turns, Some(system), d.unsigned)
    else
      var lead := [Text(system + "\n\n")];
      if d.turns != [] && d.turns[0].role == User
      then Contents([Turn(User, lead + d.turns[0].parts)] + d.turns[1..], None, d.unsigned)
      else Contents([Turn(User, lead)] + d.turns, None, d.unsigned)
  }

  function Translated(codec: Codec, items: seq<Item>, clock: Clock, messages: seq<Message>,
                      foldSystem: bool): Result<Contents, Trouble> {
    var d := Drafted(codec, items, clock, messages, |messages|);
    if d.Err? then Err(d.error) else Ok(Finished(d.value, foldSystem))
  }

  // ----- The translation as it runs, recalling from the cache as it goes -----

  lemma ForgettingChangesNoAnswer(items: seq<Item>, id: string, now: real, other: string, later: real)
    requires Ordered(items) && now <= later
    ensures Lookup(AfterRecall(items, id, now), other, later) == Lookup(items, other, later)
    ensures Ordered(AfterRecall(items, id, now)) && |AfterRecall(items, id, now)| <= |items|
  {
    hide Place, Dropped;
    var left := AfterRecall(items, id, now);
    DroppedMembers(items, id);
    if left != items {
      var i, j := Place(items, other), Place(left, other);
      if i >= 0 && other != id {
        assert items[i] in left;
        PlaceOfMember(left, items[i]);
      }
      if j >= 0 {
        assert left[j] in items;
        PlaceOfMember(items, left[j]);
      }
    }
  }

  lemma PlaceOfMember(items: seq<Item>, x: Item)
    requires Ordered(items) && x in items
    ensures Place(items, x.id) >= 0 && items[Place(items, x.id)] == x
  {
    hide Place;
    var i :| 0 <= i < |items| && items[i] == x;
  }

  /** From `now` on both answer alike. */
  ghost predicate SameAnswers(left: seq<Item>, items: seq<Item>, now: real) {
    Ordered(left) && forall id, later :: now <= later ==> Lookup(left, id, later) == Lookup(items, id, later)
  }

  lemma StillSameAnswers(left: seq<Item>, items: seq<Item>, since: real, now: real, id: string)
    requires SameAnswers(left, items, since) && since <= now
    ensures SameAnswers(AfterRecall(left, id, now), items, now)
  {
    hide AfterRecall, Lookup;
    forall other, later | now <= later
      ensures Lookup(AfterRecall(left, id, now), other, later) == Lookup(items, other, later)
    {
      ForgettingChangesNoAnswer(left, id, now, other, later);
    }
    ForgettingChangesNoAnswer(left, id, now, id, now);
  }

  lemma SameAnswersLater(left: seq<Item>, items: seq<Item>, now: real, later: real)
    requires SameAnswers(left, items, now) && now <= later
    ensures SameAnswers(left, items, later)
  {
    hide Lookup;
  }

  /** The reading before which the `i`-th recall of message `n` comes. */
  lemma ClockGoesOn(clock: Clock, n: nat, i: nat)
    requires Forward(clock)
    ensures clock(n, 0) <= clock(n, i) <= clock(n, i + 1) && clock(n, i) <= clock(n + 1, 0)
  {
  }

  lemma ClockLater(clock: Clock, n: nat, m: nat)
    requires Forward(clock) && n <= m
    ensures clock(n, 0) <= clock(m, 0)
  {
  }

  /** The tool calls of one assistant message. */
  method ReplayCalls(codec: Codec, calls: seq<ToolCall>, cache: SignatureCache, clock: Clock, at: nat,
                     names: map<string, string>, ghost items: seq<Item>)
    returns (r: Result<CallParts, Trouble>, named: map<string, string>)
    requires cache.Valid() && Forward(clock) && SameAnswers(cache.items, items, clock(at, 0))
    modifies cache
    ensures cache.Valid() && SameAnswers(cache.items, items, clock(at + 1, 0))
    ensures r == PartsOfCalls(codec, items, clock, at, calls)
    ensures r.Ok? ==> named == Named(names, calls)
  {
    hide Lookup, AfterRecall, SameAnswers, ArgsOf, Forward;
    var parts: seq<Part> := [];
    var unsigned := false;
    named := names;
    for i := 0 to |calls|
      invariant cache.Valid() && SameAnswers(cache.items, items, clock(at, i))
      invariant PartsOfCalls(codec, items, clock, at, calls[..i]) == Ok(CallParts(parts, unsigned))
      invariant named == Named(names, calls[..i])
    {
      var call := calls[i];
      assert calls[..i + 1][..i] == calls[..i];
      ClockGoesOn(clock, at, i);
      named := named[call.id := call.name];
      var args := ArgsOf(codec, call.id, call.arguments);
      if args.Err? {
        CallsRefused(codec, items, clock, at, calls, i + 1);
        SameAnswersLater(cache.items, items, clock(at, i), clock(at + 1, 0));
        return Err(args.error), named;
      }
      var now := clock(at, i);
      AnswersAre(cache.items, items, now, call.id);
      StillSameAnswers(cache.items, items, now, now, call.id);
      var known := cache.RecallCall(call.id, now);
      SameAnswersLater(cache.items, items, now, clock(at, i + 1));
      parts := parts + [CallPart(call, args.value, known)];
      unsigned := unsigned || Unsigned(known);
    }
    assert calls[..|calls|] == calls;
    ClockGoesOn(clock, at, |calls|);
    SameAnswersLater(cache.items, items, clock(at, |calls|), clock(at + 1, 0));
    r := Ok(CallParts(parts, unsigned));
  }

  lemma AnswersAre(left: seq<Item>, items: seq<Item>, now: real, id: string)
    requires SameAnswers(left, items, now)
    ensures Lookup(left, id, now) == Lookup(items, id, now)
  {
  }

  /** A refusal in an early call is the refusal of them all. */
  lemma {:induction false} CallsRefused(codec: Codec, items: seq<Item>, clock: Clock, at: nat, calls: seq<ToolCall>,
                                        n: nat)
    requires n <= |calls| && PartsOfCalls(codec, items, clock, at, calls[..n]).Err?
    ensures PartsOfCalls(codec, items, clock, at, calls) == PartsOfCalls(codec, items, clock, at, calls[..n])
    decreases |calls|
  {
    hide Lookup, ArgsOf;
    if n == |calls| {
      assert calls[..n] == calls;
    } else {
      var front := calls[..|calls| - 1];
      assert front[..n] == calls[..n];
      CallsRefused(codec, items, clock, at, front, n);
    }
  }

  lemma {:induction false} MessagesRefused(codec: Codec, items: seq<Item>, clock: Clock, messages: seq<Message>, n: nat,
                                           m: nat)
    requires n <= m <= |messages| && Drafted(codec, items, clock, messages, n).Err?
    ensures Drafted(codec, items, clock, messages, m) == Drafted(codec, items, clock, messages, n)
    decreases m
  {
    hide Says, Drafted;
    if n == m {
    } else {
      MessagesRefused(codec, items, clock, messages, n, m - 1);
      RefusedBefore(codec, items, clock, messages, m);
    }
  }

  lemma RefusedBefore(codec: Codec, items: seq<Item>, clock: Clock, messages: seq<Message>, m: nat)
    requires 0 < m <= |messages| && Drafted(codec, items, clock, messages, m - 1).Err?
    ensures Drafted(codec, items, clock, messages, m) == Drafted(codec, items, clock, messages, m - 1)
  {
    hide Says, WithSaid;
  }

  /** One message of the conversation. */
  method SayMessage(codec: Codec, messages: seq<Message>, n: nat, cache: SignatureCache, clock: Clock,
                    names: map<string, string>, ghost items: seq<Item>)
    returns (said: Result<Said, Trouble>, named: map<string, string>)
    requires n < |messages| && names == NamesBefore(messages, n)
    requires cache.Valid() && Forward(clock) && SameAnswers(cache.items, items, clock(n, 0))
    modifies cache
    ensures cache.Valid() && SameAnswers(cache.items, items, clock(n + 1, 0))
    ensures said == Says(codec, items, clock, messages, n)
    ensures said.Ok? ==> named == NamesBefore(messages, n + 1)
  {
    hide Lookup, AfterRecall, SameAnswers, ResponseOf, TextsOf, PartsOfCalls, Named, PartsOf, Forward;
    var m := messages[n];
    var parts := PartsOf(m.content);
    named := names;
    ClockGoesOn(clock, n, 0);
    if m.Assistant? && parts.Some? {
      var called;
      called, named := ReplayCalls(codec, m.calls, cache, clock, n, names, items);
      said := if called.Err? then Err(called.error)
              else Ok(Said("", Model, parts.value + called.value.parts, called.value.unsigned));
      return;
    }
    if m.Tool? {
      var now := clock(n, 0);
      AnswersAre(cache.items, items, now, m.callId);
      StillSameAnswers(cache.items, items, now, now, m.callId);
      var known := cache.RecallCall(m.callId, now);
      SameAnswersLater(cache.items, items, now, clock(n + 1, 0));
      var name := AnsweredName(names, m.callId, known);
      if name == "" {
        said := Err(NoSuchCall(n));
      } else if parts.None? {
        said := Err(CannotSend(n));
      } else {
        var response := FunctionResponse(name, ResponseOf(codec, TextsOf(parts.value)),
                                         if known.Some? && known.value.googleId then Some(m.callId) else None);
        said := Ok(Said("", User, [response], false));
      }
      return;
    }
    SameAnswersLater(cache.items, items, clock(n, 0), clock(n + 1, 0));
    said := if parts.None? then Err(CannotSend(n))
            else if m.System? then Ok(Said(TextsOf(parts.value), User, [], false))
            else Ok(Said("", User, parts.value, false));
  }

  /** `contents_from`. */
  method ContentsFrom(codec: Codec, messages: seq<Message>, cache: SignatureCache, clock: Clock, foldSystem: bool)
    returns (r: Result<Contents, Trouble>)
    requires cache.Valid() && Ordered(cache.items) && Forward(clock)
    modifies cache
    ensures cache.Valid() && SameAnswers(cache.items, old(cache.items), clock(|messages|, 0))
    ensures r == Translated(codec, old(cache.items), clock, messages, foldSystem)
  {
    hide SameAnswers, Says, WithSaid, Finished, Forward, NamesBefore;
    ghost var items := cache.items;
    SameToStart(items, clock(0, 0));
    var draft := Draft([], [], false);
    var names: map<string, string> := map[];
    NoNamesYet(messages);
    for i := 0 to |messages|
      invariant cache.Valid() && SameAnswers(cache.items, items, clock(i, 0))
      invariant Drafted(codec, items, clock, messages, i) == Ok(draft)
      invariant names == NamesBefore(messages, i)
    {
      var said;
      said, names := SayMessage(codec, messages, i, cache, clock, names, items);
      if said.Err? {
        MessagesRefused(codec, items, clock, messages, i + 1, |messages|);
        ClockLater(clock, i + 1, |messages|);
        SameAnswersLater(cache.items, items, clock(i + 1, 0), clock(|messages|, 0));
        return Err(said.error);
      }
      draft := WithSaid(draft, said.value);
    }
    r := Ok(Finished(draft, foldSystem));
  }

  lemma NoNamesYet(messages: seq<Message>)
    ensures NamesBefore(messages, 0) == map[]
  {
  }

  lemma SameToStart(items: seq<Item>, now: real)
    requires Ordered(items)
    ensures SameAnswers(items, items, now)
  {
  }
}
