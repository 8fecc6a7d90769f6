/** Reading an answer's parts, and replaying its calls and their results in the next turn. */
module GeminiReplay {
  import opened Options
  import opened Signatures
  import opened Gemini

  /** One part of a candidate. A call has a name; its id and signature are None where Google gave none. */
  datatype AnswerPart =
    | Called(name: string, id: Option<string>, args: Option<Fields>, signature: Option<string>)
    | Transcribed(text: string)
    | Attached(mime: string, data: string)
    | Spoken(text: string, thought: bool)
    | Ignored

  datatype File = File(mime: string, data: string)

  datatype Parsed = Parsed(text: string, reasoning: string, calls: seq<ToolCall>, images: seq<File>, audio: seq<File>)

  predicate IsAudio(mime: string) {
    |mime| >= 6 && mime[..6] == "audio/"
  }

  /** The id a call goes by: Google's, or a new one. */
  function IdOf(p: AnswerPart, spare: string): string
    requires p.Called?
  {
    if p.id.Some? then p.id.value else spare
  }

  function ArgsSent(p: AnswerPart): Fields
    requires p.Called?
  {
    if p.args.Some? then p.args.value else map[]
  }

  function CallOf(codec: Codec, p: AnswerPart, spare: string): ToolCall
    requires p.Called?
  {
    ToolCall(IdOf(p, spare), p.name, Written(codec.dumps(Object(ArgsSent(p)))))
  }

  function MemoryOf(p: AnswerPart): RememberedCall
    requires p.Called?
  {
    RememberedCall(p.name, p.signature, p.id.Some?)
  }

  /** `spare[i]` is the id made for part `i`, should it need one. */
  function Read(codec: Codec, parts: seq<AnswerPart>, spare: seq<string>): Parsed
    requires |spare| == |parts|
  {
    if parts == [] then Parsed("", "", [], [], [])
    else
      var n := |parts| - 1;
      var out := Read(codec, parts[..n], spare[..n]);
      match parts[n]
      case Called(_, _, _, _) => out.(calls := out.calls + [CallOf(codec, parts[n], spare[n])])
      case Transcribed(text) => out.(text := out.text + text)
      case Attached(mime, data) =>
        if IsAudio(mime) then out.(audio := out.audio + [File(mime, data)])
          else out.(images := out.images + [File(mime, data)])
      case Spoken(text, thought) =>
        if thought then out.(reasoning := out.reasoning + text) else out.(text := out.text + text)
      case Ignored => out
  }

  /** What the clock says when the i-th part is read. */
  type Ticks = nat -> real

  /** The cache once every call of `parts` has been remembered, each when it is read. */
  function RememberedAll(items: seq<Item>, entries: nat, seconds: real, ticks: Ticks, parts: seq<AnswerPart>,
                         spare: seq<string>): seq<Item>
    requires |spare| == |parts|
  {
    if parts == [] then items
    else
      var n := |parts| - 1;
      var before := RememberedAll(items, entries, seconds, ticks, parts[..n], spare[..n]);
      if parts[n].Called?
      then Remembered(before, entries, Item(IdOf(parts[n], spare[n]), ticks(n) + seconds, MemoryOf(parts[n])))
      else before
  }

  /** `read_parts`. */
  method ReadParts(codec: Codec, parts: seq<AnswerPart>, spare: seq<string>, cache: SignatureCache, ticks: Ticks,
                   remember: bool)
    returns (out: Parsed)
    requires |spare| == |parts| && cache.Valid()
    modifies cache
    ensures cache.Valid() && out == Read(codec, parts, spare)
    ensures cache.items
      == if remember then RememberedAll(old(cache.items), cache.entries, cache.seconds, ticks, parts, spare)
      else old(cache.items)
  {
    hide Remembered;
    out := Parsed("", "", [], [], []);
    for i := 0 to |parts|
      invariant cache.Valid() && out == Read(codec, parts[..i], spare[..i])
      invariant cache.items
        == if remember then RememberedAll(old(cache.items), cache.entries, cache.seconds, ticks, parts[..i], spare[..i])
          else old(cache.items)
    {
      assert parts[..i + 1][..i] == parts[..i] && spare[..i + 1][..i] == spare[..i];
      match parts[i] {
        case Called(_, _, _, _) =>
          out := out.(calls := out.calls + [CallOf(codec, parts[i], spare[i])]);
          if remember {
            cache.Remember(IdOf(parts[i], spare[i]), MemoryOf(parts[i]), ticks(i));
          }
        case Transcribed(text) =>
          out := out.(text := out.text + text);
        case Attached(mime, data) =>
          if IsAudio(mime) {
            out := out.(audio := out.audio + [File(mime, data)]);
          } else {
            out := out.(images := out.images + [File(mime, data)]);
          }
        case Spoken(text, thought) =>
          if thought {
            out := out.(reasoning := out.reasoning + text);
          } else {
            out := out.(text := out.text + text);
          }
        case Ignored =>
      }
    }
    assert parts[..|parts|] == parts && spare[..|parts|] == spare;
  }

  // ----- The calls of an answer -----

  /** A call of an answer with the id it goes by. */
  datatype Made = Made(part: AnswerPart, id: string)

  /** The calls among `parts`, in order. */
  function Calls(parts: seq<AnswerPart>, spare: seq<string>): (made: seq<Made>)
    requires |spare| == |parts|
    ensures forall m :: m in made ==> m.part.Called? && (m.part.id.Some? ==> m.id == m.part.id.value)
  {
    if parts == [] then []
    else
      var n := |parts| - 1;
      Calls(parts[..n], spare[..n]) + if parts[n].Called? then [Made(parts[n], IdOf(parts[n], spare[n]))] else []
  }

  ghost predicate DistinctIds(made: seq<Made>) {
    forall i, j :: 0 <= i < j < |made| ==> made[i].id != made[j].id
  }

  lemma {:induction false} ReadCalls(codec: Codec, parts: seq<AnswerPart>, spare: seq<string>)
    requires |spare| == |parts|
    ensures var made, calls := Calls(parts, spare), Read(codec, parts, spare).calls;
      && |calls| == |made|
      && forall i :: 0 <= i < |made| ==>
        made[i].part.Called?
        && calls[i] == ToolCall(made[i].id, made[i].part.name, Written(codec.dumps(Object(ArgsSent(made[i].part)))))
  {
    if parts == [] {
    } else {
      var n := |parts| - 1;
      ReadCalls(codec, parts[..n], spare[..n]);
    }
  }

  // ----- The cache holds what was just read -----

  /** The calls of an answer, remembered one by one. */
  function Rememberings(parts: seq<AnswerPart>, spare: seq<string>, ticks: Ticks): seq<Use>
    requires |spare| == |parts|
  {
    if parts == [] then []
    else
      var n := |parts| - 1;
      Rememberings(parts[..n], spare[..n], ticks)
      + if parts[n].Called? then [Remember(ticks(n), IdOf(parts[n], spare[n]), MemoryOf(parts[n]))] else []
  }

  /** They are the calls, in order. */
  lemma {:induction false} RememberingsAre(parts: seq<AnswerPart>, spare: seq<string>, ticks: Ticks)
    requires |spare| == |parts|
    ensures var made, uses := Calls(parts, spare), Rememberings(parts, spare, ticks);
      && |uses| == |made|
      && forall i :: 0 <= i < |made| ==>
           made[i].part.Called? && uses[i].Remember? && uses[i].id == made[i].id
             && uses[i].call == MemoryOf(made[i].part)
  {
    if parts == [] {
    } else {
      var n := |parts| - 1;
      RememberingsAre(parts[..n], spare[..n], ticks);
    }
  }

  /** The clock goes forward. */
  ghost predicate Steady(ticks: Ticks) {
    forall i, j :: i <= j ==> ticks(i) <= ticks(j)
  }

  lemma LaterTick(ticks: Ticks, i: nat, j: nat)
    requires Steady(ticks) && i <= j
    ensures ticks(i) <= ticks(j)
  {
  }

  /** In order of time, up to `end`. */
  ghost predicate InTime(uses: seq<Use>, end: real) {
    && (forall i :: 0 <= i < |uses| ==> uses[i].at <= end)
    && (forall i, j :: 0 <= i <= j < |uses| ==> uses[i].at <= uses[j].at)
  }

  lemma InTimeSnoc(uses: seq<Use>, end: real, last: Use, later: real)
    requires InTime(uses, end) && end <= last.at <= later
    ensures InTime(uses + [last], later)
  {
  }

  lemma {:induction false} RememberedInTime(parts: seq<AnswerPart>, spare: seq<string>, ticks: Ticks)
    requires |spare| == |parts| && Steady(ticks)
    ensures InTime(Rememberings(parts, spare, ticks), ticks(|parts|))
  {
    hide Steady, InTime;
    if parts == [] {
      assert InTime([], ticks(0)) by { NothingInTime(ticks(0)); }
    } else {
      var n := |parts| - 1;
      var front := Rememberings(parts[..n], spare[..n], ticks);
      RememberedInTime(parts[..n], spare[..n], ticks);
      LaterTick(ticks, n, |parts|);
      assert |parts[..n]| == n && InTime(front, ticks(n));
      if parts[n].Called? {
        InTimeSnoc(front, ticks(n), Remember(ticks(n), IdOf(parts[n], spare[n]), MemoryOf(parts[n])), ticks(|parts|));
      } else {
        assert front + [] == front;
        InTimeLater(front, ticks(n), ticks(|parts|));
      }
    }
  }

  lemma NothingInTime(end: real)
    ensures InTime([], end)
  {
  }

  lemma InTimeLater(uses: seq<Use>, end: real, later: real)
    requires InTime(uses, end) && end <= later
    ensures InTime(uses, later)
  {
  }

  function ItemsOf(uses: seq<Use>, seconds: real): (r: seq<Item>)
    requires forall u :: u in uses ==> u.Remember?
    ensures |r| == |uses|
    ensures forall i :: 0 <= i < |uses| ==>
      uses[i].Remember? && r[i] == Item(uses[i].id, uses[i].at + seconds, uses[i].call)
  {
    seq(|uses|, i requires 0 <= i < |uses| =>
                  assert uses[i] in uses; Item(uses[i].id, uses[i].at + seconds, uses[i].call))
  }

  lemma {:induction false} AllRemember(parts: seq<AnswerPart>, spare: seq<string>, ticks: Ticks)
    requires |spare| == |parts|
    ensures forall u :: u in Rememberings(parts, spare, ticks) ==> u.Remember?
  {
    if parts == [] {
    } else {
      var n := |parts| - 1;
      AllRemember(parts[..n], spare[..n], ticks);
    }
  }

  /** `items` ends with `tail`. */
  ghost predicate EndsWith(items: seq<Item>, tail: seq<Item>) {
    |tail| <= |items| && items[|items| - |tail|..] == tail
  }

  lemma {:induction false} CallsAreLast(items: seq<Item>, entries: nat, seconds: real, ticks: Ticks,
                                        parts: seq<AnswerPart>, spare: seq<string>)
    requires |spare| == |parts| && DistinctIds(Calls(parts, spare)) && |Calls(parts, spare)| <= entries
    ensures forall u :: u in Rememberings(parts, spare, ticks) ==> u.Remember?
    ensures EndsWith(RememberedAll(items, entries, seconds, ticks, parts, spare),
      ItemsOf(Rememberings(parts, spare, ticks), seconds))
  {
    hide Remembered, EndsWith, RememberedAll, Rememberings, Calls, DistinctIds;
    AllRemember(parts, spare, ticks);
    if parts == [] {
      NothingRead(items, entries, seconds, ticks);
      EndsWithNothing(items);
      assert ItemsOf([], seconds) == [];
    } else {
      var n := |parts| - 1;
      var front, uses := Calls(parts[..n], spare[..n]), Rememberings(parts[..n], spare[..n], ticks);
      OnePartRead(items, entries, seconds, ticks, parts, spare);
      DistinctFront(front, Calls(parts, spare));
      CallsAreLast(items, entries, seconds, ticks, parts[..n], spare[..n]);
      if parts[n].Called? {
        var last := Remember(ticks(n), IdOf(parts[n], spare[n]), MemoryOf(parts[n]));
        var item := Item(last.id, last.at + seconds, last.call);
        var tail := ItemsOf(uses, seconds);
        RememberingsAre(parts[..n], spare[..n], ticks);
        NewId(front, Made(parts[n], last.id));
        assert ItemsOf(uses + [last], seconds) == tail + [item];
        RememberedLast(RememberedAll(items, entries, seconds, ticks, parts[..n], spare[..n]), tail, entries, item);
      }
    }
  }

  lemma DistinctFront(front: seq<Made>, made: seq<Made>)
    requires DistinctIds(made) && front <= made
    ensures DistinctIds(front)
  {
  }

  lemma NewId(front: seq<Made>, m: Made)
    requires DistinctIds(front + [m])
    ensures forall i :: 0 <= i < |front| ==> front[i].id != m.id
  {
    var made := front + [m];
    assert made[|front|] == m && forall i :: 0 <= i < |front| ==> made[i] == front[i];
  }

  lemma EndsWithNothing(items: seq<Item>)
    ensures EndsWith(items, [])
  {
  }

  lemma RememberedLast(items: seq<Item>, tail: seq<Item>, entries: nat, item: Item)
    requires EndsWith(items, tail) && |tail| < entries && forall i :: 0 <= i < |tail| ==> tail[i].id != item.id
    ensures EndsWith(Remembered(items, entries, item), tail + [item])
  {
    hide Place, Dropped;
    var head := items[..|items| - |tail|];
    assert items == head + tail;
    PlaceMeans(tail, item.id);
    assert forall x :: x in tail ==> x.id != item.id;
    DroppedFromSum(head, tail, item.id);
    var all := Dropped(items, item.id) + [item];
    assert all == Dropped(head, item.id) + (tail + [item]);
  }

  lemma {:induction false} LookupInTail(items: seq<Item>, tail: seq<Item>, i: nat, now: real)
    requires EndsWith(items, tail) && i < |tail| && now < tail[i].expires
    requires forall j, k :: 0 <= j < k < |tail| ==> tail[j].id != tail[k].id
    ensures Lookup(items, tail[i].id, now) == Some(tail[i].call)
  {
    hide Place;
    var head := items[..|items| - |tail|];
    assert items == head + tail;
    PlaceInSum(head, tail, tail[i].id);
  }

  /** `known` remembers every call as it was made. */
  ghost predicate Holds(items: seq<Item>, now: real, made: seq<Made>) {
    forall i :: 0 <= i < |made| ==>
      made[i].part.Called? && Lookup(items, made[i].id, now) == Some(MemoryOf(made[i].part))
  }

  /** Once read, an answer's calls are remembered for the cache's time, if it has room for them. */
  lemma ReadIsRemembered(items: seq<Item>, entries: nat, seconds: real, ticks: Ticks, parts: seq<AnswerPart>,
                         spare: seq<string>, later: real)
    requires |spare| == |parts| && DistinctIds(Calls(parts, spare)) && |Calls(parts, spare)| <= entries
    requires forall u :: u in Rememberings(parts, spare, ticks) ==> later < u.at + seconds
    ensures Holds(RememberedAll(items, entries, seconds, ticks, parts, spare), later, Calls(parts, spare))
  {
    hide RememberedAll, Rememberings, Lookup, EndsWith;
    var made, after := Calls(parts, spare), RememberedAll(items, entries, seconds, ticks, parts, spare);
    CallsAreLast(items, entries, seconds, ticks, parts, spare);
    RememberingsAre(parts, spare, ticks);
    var uses := Rememberings(parts, spare, ticks);
    var tail := ItemsOf(uses, seconds);
    forall i | 0 <= i < |made|
      ensures made[i].part.Called? && Lookup(after, made[i].id, later) == Some(MemoryOf(made[i].part))
    {
      assert uses[i] in uses;
      LookupInTail(after, tail, i, later);
    }
  }

  // ----- Replay -----

  /** A call as Google must see it again. */
  function Again(m: Made): Part
    requires m.part.Called?
  {
    FunctionCall(m.part.name, ArgsSent(m.part), m.part.signature, m.part.id)
  }

  /** `calls` are the calls made, as they are handed to the caller. */
  ghost predicate Echoes(codec: Codec, made: seq<Made>, calls: seq<ToolCall>) {
    && |calls| == |made|
    && forall i :: 0 <= i < |made| ==>
         && made[i].part.Called? && (made[i].part.id.Some? ==> made[i].id == made[i].part.id.value)
         && calls[i] == ToolCall(made[i].id, made[i].part.name, Written(codec.dumps(Object(ArgsSent(made[i].part)))))
  }

  /** `parts` are the calls made, on the wire again. */
  ghost predicate AllAgain(made: seq<Made>, parts: seq<Part>) {
    |parts| == |made| && forall i :: 0 <= i < |made| ==> made[i].part.Called? && parts[i] == Again(made[i])
  }

  ghost predicate SomeUnsigned(made: seq<Made>) {
    exists i :: 0 <= i < |made| && made[i].part.Called? && made[i].part.signature.None?
  }

  lemma CallReplays(codec: Codec, items: seq<Item>, now: real, m: Made, call: ToolCall)
    requires Ideal(codec) && m.part.Called? && (m.part.id.Some? ==> m.id == m.part.id.value)
    requires Lookup(items, m.id, now) == Some(MemoryOf(m.part))
    requires call == ToolCall(m.id, m.part.name, Written(codec.dumps(Object(ArgsSent(m.part)))))
    ensures ArgsOf(codec, call.id, call.arguments) == Ok(ArgsSent(m.part))
    ensures CallPart(call, ArgsSent(m.part), Lookup(items, call.id, now)) == Again(m)
    ensures Unsigned(Lookup(items, call.id, now)) <==> m.part.signature.None?
  {
    hide Lookup, Ideal;
    ArgsReadBack(codec, call.id, ArgsSent(m.part));
  }

  /** What the cache answers at some time it answered at every earlier one. */
  lemma LookupEarlier(items: seq<Item>, id: string, now: real, later: real)
    requires now <= later && Lookup(items, id, later).Some?
    ensures Lookup(items, id, now) == Lookup(items, id, later)
  {
    hide Place;
  }

  lemma {:induction false} CallsReplay(codec: Codec, items: seq<Item>, clock: Clock, at: nat, until: real,
                                       made: seq<Made>, calls: seq<ToolCall>)
    requires Ideal(codec) && Holds(items, until, made) && Echoes(codec, made, calls)
    requires Forward(clock) && clock(at + 1, 0) <= until
    ensures var r := PartsOfCalls(codec, items, clock, at, calls);
      r.Ok? && AllAgain(made, r.value.parts) && (r.value.unsigned <==> SomeUnsigned(made))
    decreases |made|
  {
    hide Lookup, Ideal, ArgsOf, CallPart, Unsigned, Again, Holds, Echoes, AllAgain, SomeUnsigned, PartsOfCalls, Forward;
    if made == [] {
      NothingReplays(codec, items, clock, at, calls);
    } else {
      var n := |made| - 1;
      LastOfEchoes(codec, items, until, made, calls);
      ClockGoesOn(clock, at, n);
      LookupEarlier(items, made[n].id, clock(at, n), until);
      CallsReplay(codec, items, clock, at, until, made[..n], calls[..n]);
      CallReplays(codec, items, clock(at, n), made[n], calls[n]);
      SomeUnsignedGrows(made);
      OneMoreReplays(codec, items, clock, at, made, calls);
    }
  }

  lemma NothingReplays(codec: Codec, items: seq<Item>, clock: Clock, at: nat, calls: seq<ToolCall>)
    requires Echoes(codec, [], calls)
    ensures PartsOfCalls(codec, items, clock, at, calls) == Ok(CallParts([], false)) && AllAgain([], [])
      && !SomeUnsigned([])
  {
  }

  lemma LastOfEchoes(codec: Codec, items: seq<Item>, now: real, made: seq<Made>, calls: seq<ToolCall>)
    requires made != [] && Holds(items, now, made) && Echoes(codec, made, calls)
    ensures |calls| == |made|
    ensures var n := |made| - 1;
      && Holds(items, now, made[..n]) && Echoes(codec, made[..n], calls[..n])
      && made[n].part.Called? && (made[n].part.id.Some? ==> made[n].id == made[n].part.id.value)
      && Lookup(items, made[n].id, now) == Some(MemoryOf(made[n].part))
      && calls[n] == ToolCall(made[n].id, made[n].part.name, Written(codec.dumps(Object(ArgsSent(made[n].part)))))
  {
    hide Lookup;
  }

  lemma OneMoreReplays(codec: Codec, items: seq<Item>, clock: Clock, at: nat, made: seq<Made>, calls: seq<ToolCall>)
    requires made != [] && |calls| == |made| && made[|made| - 1].part.Called?
    requires var n := |made| - 1;
      && PartsOfCalls(codec, items, clock, at, calls[..n]).Ok?
      && AllAgain(made[..n], PartsOfCalls(codec, items, clock, at, calls[..n]).value.parts)
      && ArgsOf(codec, calls[n].id, calls[n].arguments) == Ok(ArgsSent(made[n].part))
      && CallPart(calls[n], ArgsSent(made[n].part), Lookup(items, calls[n].id, clock(at, n))) == Again(made[n])
    ensures var n, r := |made| - 1, PartsOfCalls(codec, items, clock, at, calls);
      && r.Ok? && AllAgain(made, r.value.parts)
      && (r.value.unsigned <==>
        PartsOfCalls(codec, items, clock, at, calls[..n]).value.unsigned
        || Unsigned(Lookup(items, calls[n].id, clock(at, n))))
  {
    hide Lookup, ArgsOf, CallPart, Unsigned, Again;
  }

  lemma AgainMany(made: seq<Made>, parts: seq<Part>)
    requires AllAgain(made, parts)
    ensures |parts| == |made|
  {
  }

  lemma SomeUnsignedGrows(made: seq<Made>)
    requires made != [] && made[|made| - 1].part.Called?
    ensures SomeUnsigned(made) <==> SomeUnsigned(made[..|made| - 1]) || made[|made| - 1].part.signature.None?
  {
    var front := made[..|made| - 1];
    assert forall i :: 0 <= i < |front| ==> front[i] == made[i];
  }

  lemma ArgsReadBack(codec: Codec, id: string, fields: Fields)
    requires Ideal(codec)
    ensures ArgsOf(codec, id, Written(codec.dumps(Object(fields)))) == Ok(fields)
  {
    assert codec.loads(codec.dumps(Object(fields))) == Some(Object(fields));
  }

  lemma {:induction false} NamedByLast(names: map<string, string>, calls: seq<ToolCall>, i: nat)
    requires i < |calls| && forall j, k :: 0 <= j < k < |calls| ==> calls[j].id != calls[k].id
    ensures calls[i].id in Named(names, calls) && Named(names, calls)[calls[i].id] == calls[i].name
    decreases |calls|
  {
    var n := |calls| - 1;
    if i == n {
    } else {
      NamedByLast(names, calls[..n], i);
    }
  }

  lemma {:induction false} NamedByOthers(names: map<string, string>, calls: seq<ToolCall>, id: string)
    requires forall i :: 0 <= i < |calls| ==> calls[i].id != id
    ensures id in Named(names, calls) <==> id in names
    ensures id in names ==> Named(names, calls)[id] == names[id]
    decreases |calls|
  {
    if calls == [] {
    } else {
      NamedByOthers(names, calls[..|calls| - 1], id);
    }
  }

  /** No message between `a` and `t` makes a call of this id. */
  ghost predicate NotCalledAgain(messages: seq<Message>, a: nat, t: nat, id: string) {
    forall m, i :: a < m < t && m < |messages| && messages[m].Assistant? && 0 <= i < |messages[m].calls| ==>
      messages[m].calls[i].id != id
  }

  lemma {:induction false} NameStays(messages: seq<Message>, a: nat, t: nat, i: nat)
    requires a < t <= |messages| && messages[a].Assistant? && i < |messages[a].calls|
    requires forall j, k :: 0 <= j < k < |messages[a].calls| ==> messages[a].calls[j].id != messages[a].calls[k].id
    requires NotCalledAgain(messages, a, t, messages[a].calls[i].id)
    ensures var call, names := messages[a].calls[i], NamesBefore(messages, t);
      call.id in names && names[call.id] == call.name
    decreases t
  {
    hide Named;
    var call := messages[a].calls[i];
    if t == a + 1 {
      NamedByLast(NamesBefore(messages, a), messages[a].calls, i);
    } else {
      NameStays(messages, a, t - 1, i);
      if messages[t - 1].Assistant? {
        NamedByOthers(NamesBefore(messages, t - 1), messages[t - 1].calls, call.id);
      }
    }
  }

  /** The calls read from an answer and echoed back go out as they came: same name, arguments,
      signature and, where Google gave one, id; the turn is unsigned exactly when a call is. */
  lemma CallsRoundTrip(codec: Codec, items: seq<Item>, clock: Clock, until: real, messages: seq<Message>, a: nat,
                       parts: seq<AnswerPart>, spare: seq<string>)
    requires Ideal(codec) && Forward(clock) && |spare| == |parts| && a < |messages| && clock(a + 1, 0) <= until
    requires messages[a].Assistant? && messages[a].calls == Read(codec, parts, spare).calls
      && PartsOf(messages[a].content).Some?
    requires Holds(items, until, Calls(parts, spare))
    ensures GoOutAgain(codec, items, clock, messages, a, Calls(parts, spare))
  {
    hide PartsOf, Lookup, Ideal, Holds, Read, AllAgain, SomeUnsigned, Forward;
    var made := Calls(parts, spare);
    ReadCalls(codec, parts, spare);
    assert forall i :: 0 <= i < |made| ==> made[i] in made;
    CallsReplay(codec, items, clock, a, until, made, messages[a].calls);
    var words, called := PartsOf(messages[a].content).value,
      PartsOfCalls(codec, items, clock, a, messages[a].calls).value.parts;
    AgainMany(made, called);
    assert (words + called)[|words|..] == called;
  }

  /** Message `a` becomes its words and then the calls made, as they came. */
  ghost predicate GoOutAgain(codec: Codec, items: seq<Item>, clock: Clock, messages: seq<Message>, a: nat,
                             made: seq<Made>)
    requires a < |messages| && PartsOf(messages[a].content).Some?
  {
    var said, words := Says(codec, items, clock, messages, a), PartsOf(messages[a].content).value;
    && said.Ok? && said.value.role == Model && |said.value.parts| == |words| + |made|
    && said.value.parts[..|words|] == words
    && AllAgain(made, said.value.parts[|words|..])
    && (said.value.unsigned <==> SomeUnsigned(made))
  }

  /** The result of a call read from an answer names the function it answers, and carries Google's id
      where there is one. */
  lemma ResultRoundTrip(codec: Codec, items: seq<Item>, clock: Clock, messages: seq<Message>, a: nat, t: nat, i: nat,
                        parts: seq<AnswerPart>, spare: seq<string>)
    requires |spare| == |parts| && a < t < |messages| && i < |Calls(parts, spare)|
    requires messages[a].Assistant? && messages[a].calls == Read(codec, parts, spare).calls
    requires DistinctIds(Calls(parts, spare)) && Holds(items, clock(t, 0), Calls(parts, spare))
    requires Calls(parts, spare)[i].part.Called? && Calls(parts, spare)[i].part.name != ""
    requires messages[t].Tool? && messages[t].callId == Calls(parts, spare)[i].id && PartsOf(messages[t].content).Some?
    requires NotCalledAgain(messages, a, t, messages[t].callId)
    ensures var m := Calls(parts, spare)[i];
      Says(codec, items, clock, messages, t)
      == Ok(Said("", User,
        [FunctionResponse(m.part.name, ResponseOf(codec, TextsOf(PartsOf(messages[t].content).value)), m.part.id)],
        false))
  {
    hide PartsOf, Lookup, Read, ResponseOf, TextsOf, NamesBefore;
    var made := Calls(parts, spare);
    ReadCalls(codec, parts, spare);
    assert made[i] in made;
    NameStays(messages, a, t, i);
  }

  // ----- From the reading to the replay, whatever the cache is used for between -----

  /** Reading an answer is one stretch of the cache's history. */
  lemma {:induction false} ReadingIsAStretch(entries: nat, seconds: real, before: seq<Use>, ticks: Ticks,
                                             parts: seq<AnswerPart>, spare: seq<string>)
    requires |spare| == |parts|
    ensures RememberedAll(Cached(entries, seconds, before), entries, seconds, ticks, parts, spare)
         == Cached(entries, seconds, before + Rememberings(parts, spare, ticks))
    decreases |parts|
  {
    hide RememberedAll, Cached, Rememberings, Remembered, Calls;
    if parts == [] {
      NothingRead(Cached(entries, seconds, before), entries, seconds, ticks);
      assert before + [] == before;
    } else {
      var n := |parts| - 1;
      var front := Rememberings(parts[..n], spare[..n], ticks);
      ReadingIsAStretch(entries, seconds, before, ticks, parts[..n], spare[..n]);
      OnePartRead(Cached(entries, seconds, before), entries, seconds, ticks, parts, spare);
      if parts[n].Called? {
        var last := Remember(ticks(n), IdOf(parts[n], spare[n]), MemoryOf(parts[n]));
        CachedSnoc(entries, seconds, before + front, last);
        assert before + (front + [last]) == before + front + [last];
      }
    }
  }

  lemma NothingRead(items: seq<Item>, entries: nat, seconds: real, ticks: Ticks)
    ensures RememberedAll(items, entries, seconds, ticks, [], []) == items
    ensures Calls([], []) == [] && Rememberings([], [], ticks) == []
  {
  }

  lemma OnePartRead(items: seq<Item>, entries: nat, seconds: real, ticks: Ticks, parts: seq<AnswerPart>,
                    spare: seq<string>)
    requires |spare| == |parts| && parts != []
    ensures var n := |parts| - 1;
      var before := RememberedAll(items, entries, seconds, ticks, parts[..n], spare[..n]);
      var made, uses := Calls(parts[..n], spare[..n]), Rememberings(parts[..n], spare[..n], ticks);
      if parts[n].Called? then
        && Calls(parts, spare) == made + [Made(parts[n], IdOf(parts[n], spare[n]))]
        && Rememberings(parts, spare, ticks)
           == uses + [Remember(ticks(n), IdOf(parts[n], spare[n]), MemoryOf(parts[n]))]
        && RememberedAll(items, entries, seconds, ticks, parts, spare)
           == Remembered(before, entries, Item(IdOf(parts[n], spare[n]), ticks(n) + seconds, MemoryOf(parts[n])))
      else
        && Calls(parts, spare) == made && Rememberings(parts, spare, ticks) == uses
        && RememberedAll(items, entries, seconds, ticks, parts, spare) == before
  {
    hide Remembered;
  }

  lemma CachedSnoc(entries: nat, seconds: real, uses: seq<Use>, last: Use)
    requires last.Remember?
    ensures Cached(entries, seconds, uses + [last])
      == Remembered(Cached(entries, seconds, uses), entries, Item(last.id, last.at + seconds, last.call))
  {
    hide Remembered;
    assert (uses + [last])[..|uses|] == uses;
  }

  /** Each call's id was last remembered with that very call, not too long ago, and fewer than
      `entries` other ids have been remembered since. */
  ghost predicate StillRemembered(entries: nat, seconds: real, uses: seq<Use>, made: seq<Made>, later: real) {
    forall i :: 0 <= i < |made| ==> made[i].part.Called? && OneStillRemembered(entries, seconds, uses, made[i], later)
  }

  ghost predicate OneStillRemembered(entries: nat, seconds: real, uses: seq<Use>, m: Made, later: real)
    requires m.part.Called?
  {
    var t := LastRemember(uses, m.id);
    t >= 0 && uses[t].call == MemoryOf(m.part) && later < uses[t].at + seconds && |Ids(uses[t + 1..])| < entries
  }

  /** Over any history, repeated ids and all, that is exactly when the cache holds the calls. */
  lemma HeldExactlyWhile(entries: nat, seconds: real, uses: seq<Use>, made: seq<Made>, later: real)
    requires Monotone(uses) && (uses != [] ==> uses[|uses| - 1].at <= later)
    ensures Holds(Cached(entries, seconds, uses), later, made) <==> StillRemembered(entries, seconds, uses, made, later)
  {
    hide Cached, Lookup, Ids, LastRemember, Monotone, OneStillRemembered;
    var items := Cached(entries, seconds, uses);
    forall i | 0 <= i < |made| && made[i].part.Called?
      ensures Lookup(items, made[i].id, later) == Some(MemoryOf(made[i].part))
         <==> OneStillRemembered(entries, seconds, uses, made[i], later)
    {
      OneHeldExactlyWhile(entries, seconds, uses, made[i], later);
    }
  }

  lemma OneHeldExactlyWhile(entries: nat, seconds: real, uses: seq<Use>, m: Made, later: real)
    requires Monotone(uses) && (uses != [] ==> uses[|uses| - 1].at <= later) && m.part.Called?
    ensures Lookup(Cached(entries, seconds, uses), m.id, later) == Some(MemoryOf(m.part))
       <==> OneStillRemembered(entries, seconds, uses, m, later)
  {
    hide Cached, Lookup, Ids, LastRemember, Monotone;
    RecallExactly(entries, seconds, uses, later, m.id);
  }

  /** Where none of the ids comes again after the reading, the calls are all remembered exactly while
      the first has not expired and fewer than `entries` ids have been remembered since. */
  lemma RememberedIfNotRepeated(entries: nat, seconds: real, before: seq<Use>, ticks: Ticks, parts: seq<AnswerPart>,
                                spare: seq<string>, more: seq<Use>, later: real)
    requires |spare| == |parts| && Steady(ticks) && DistinctIds(Calls(parts, spare)) && Calls(parts, spare) != []
    requires NotRepeated(Calls(parts, spare), more)
    ensures |Rememberings(parts, spare, ticks)| == |Calls(parts, spare)|
    ensures var stretch := Rememberings(parts, spare, ticks);
      var uses := before + stretch + more;
      StillRemembered(entries, seconds, uses, Calls(parts, spare), later) <==>
        later < stretch[0].at + seconds && |Ids(uses[|before| + 1..])| < entries
  {
    hide Ids, Rememberings, Calls, Steady, NotRepeated, DistinctIds, OneStillRemembered, InTime;
    var made, stretch := Calls(parts, spare), Rememberings(parts, spare, ticks);
    var uses := before + stretch + more;
    RememberingsAre(parts, spare, ticks);
    RememberedInTime(parts, spare, ticks);
    var held := later < stretch[0].at + seconds && |Ids(uses[|before| + 1..])| < entries;
    forall i | 0 <= i < |made|
      ensures held ==> OneStillRemembered(entries, seconds, uses, made[i], later)
    {
      OneIfNotRepeated(entries, seconds, before, stretch, made, more, later, i, ticks(|parts|));
    }
    OneIfNotRepeated(entries, seconds, before, stretch, made, more, later, 0, ticks(|parts|));
  }

  lemma OneIfNotRepeated(entries: nat, seconds: real, before: seq<Use>, stretch: seq<Use>, made: seq<Made>,
                         more: seq<Use>, later: real, i: nat, end: real)
    requires DistinctIds(made) && NotRepeated(made, more) && i < |made| == |stretch| && InTime(stretch, end)
    requires forall j :: 0 <= j < |made| ==>
      made[j].part.Called? && stretch[j].Remember? && stretch[j].id == made[j].id
      && stretch[j].call == MemoryOf(made[j].part)
    ensures var uses := before + stretch + more;
      var held := later < stretch[0].at + seconds && |Ids(uses[|before| + 1..])| < entries;
      && (held ==> OneStillRemembered(entries, seconds, uses, made[i], later))
      && (i == 0 && OneStillRemembered(entries, seconds, uses, made[i], later) ==> held)
  {
    hide Ids, LastRemember, NotRepeated, DistinctIds;
    var uses := before + stretch + more;
    LastRememberedAt(before, stretch, made, more, i);
    FewerIdsLater(uses, |before| + 1, |before| + i + 1);
    assert stretch[0].at <= stretch[i].at;
  }

  /** No call's id is remembered again in `more`. */
  ghost predicate NotRepeated(made: seq<Made>, more: seq<Use>) {
    forall i, u :: 0 <= i < |made| && 0 <= u < |more| && more[u].Remember? ==> more[u].id != made[i].id
  }

  lemma LastRememberedAt(before: seq<Use>, stretch: seq<Use>, made: seq<Made>, more: seq<Use>, i: nat)
    requires DistinctIds(made) && NotRepeated(made, more) && i < |made| == |stretch|
    requires forall j :: 0 <= j < |made| ==> stretch[j].Remember? && stretch[j].id == made[j].id
    ensures var uses := before + stretch + more;
      LastRemember(uses, made[i].id) == |before| + i && uses[|before| + i] == stretch[i]
  {
    hide LastRemember;
    var uses, t := before + stretch + more, |before| + i;
    assert uses[t] == stretch[i];
    forall u | t < u < |uses| && uses[u].Remember?
      ensures uses[u].id != made[i].id
    {
      if u < |before| + |made| {
        assert uses[u] == stretch[u - |before|];
      } else {
        assert uses[u] == more[u - |before| - |made|];
      }
    }
  }

  lemma FewerIdsLater(uses: seq<Use>, a: nat, b: nat)
    requires a <= b <= |uses|
    ensures |Ids(uses[b..])| <= |Ids(uses[a..])|
  {
    forall id | id in Ids(uses[b..])
      ensures id in Ids(uses[a..])
    {
      var u :| 0 <= u < |uses[b..]| && uses[b..][u].Remember? && uses[b..][u].id == id;
      assert uses[a..][u + b - a] == uses[b..][u];
    }
    SmallerSet(Ids(uses[b..]), Ids(uses[a..]));
  }

  lemma {:induction false} SmallerSet(a: set<string>, b: set<string>)
    requires a <= b
    ensures |a| <= |b|
  {
    if a == {} {
    } else {
      var x :| x in a;
      SmallerSet(a - {x}, b - {x});
    }
  }

  /** An answer's calls, read into a cache and echoed back after any other use of it, go out as they
      came if each is still remembered by then. */
  lemma ReadThenReplayed(codec: Codec, entries: nat, seconds: real, before: seq<Use>, ticks: Ticks, more: seq<Use>,
                         clock: Clock, later: real,
                         messages: seq<Message>, a: nat, parts: seq<AnswerPart>, spare: seq<string>)
    requires Ideal(codec) && Forward(clock) && |spare| == |parts| && a < |messages| && clock(a + 1, 0) <= later
    requires messages[a].Assistant? && messages[a].calls == Read(codec, parts, spare).calls
      && PartsOf(messages[a].content).Some?
    requires var uses := before + Rememberings(parts, spare, ticks) + more;
      && Monotone(uses) && (uses != [] ==> uses[|uses| - 1].at <= later)
      && StillRemembered(entries, seconds, uses, Calls(parts, spare), later)
    ensures var uses := before + Rememberings(parts, spare, ticks) + more;
      GoOutAgain(codec, Cached(entries, seconds, uses), clock, messages, a, Calls(parts, spare))
  {
    hide Cached, Holds, GoOutAgain, PartsOf, Ideal, Read, Monotone, Forward, StillRemembered;
    var made := Calls(parts, spare);
    var uses := before + Rememberings(parts, spare, ticks) + more;
    HeldExactlyWhile(entries, seconds, uses, made, later);
    CallsRoundTrip(codec, Cached(entries, seconds, uses), clock, later, messages, a, parts, spare);
  }
}
