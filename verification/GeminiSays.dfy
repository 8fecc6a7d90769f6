/** What each message of a conversation says to Gemini, and what each part of Gemini's answer says back. */
module GeminiSays {
  import opened Options
  import opened Signatures
  import opened Text
  import opened Gemini
  import opened GeminiReplay

  // ----- The parts of a message -----

  ghost predicate IsPart(piece: Piece, part: Part) {
    match piece
    case Words(text) => part == Part.Text(text)
    case Media(mime, data) => part == Inline(mime, data)
    case Unsendable => false
  }

  /** Text is one part, empty text none; of several pieces each is a part, in order. */
  ghost predicate PartsAre(content: Content, parts: seq<Part>) {
    match content
    case NoContent => parts == []
    case Plain(text) => parts == if text == "" then [] else [Part.Text(text)]
    case Pieces(pieces) => |parts| == |pieces| && forall i :: 0 <= i < |pieces| ==> IsPart(pieces[i], parts[i])
  }

  ghost predicate CannotGo(content: Content) {
    content.Pieces? && Unsendable in content.pieces
  }

  lemma {:induction false} PieceByPiece(pieces: seq<Piece>)
    ensures PieceParts(pieces).None? <==> Unsendable in pieces
    ensures PieceParts(pieces).Some? ==>
      |PieceParts(pieces).value| == |pieces| && PartsAre(Pieces(pieces), PieceParts(pieces).value)
  {
    hide PartsAre;
    if pieces == [] {
      OnePiece([], []);
    } else {
      PieceByPiece(pieces[1..]);
      assert Unsendable in pieces <==> pieces[0] == Unsendable || Unsendable in pieces[1..];
      if PieceParts(pieces).Some? {
        assert PieceParts(pieces).value[1..] == PieceParts(pieces[1..]).value;
        OnePiece(pieces, PieceParts(pieces).value);
      }
    }
  }

  lemma OnePiece(pieces: seq<Piece>, parts: seq<Part>)
    requires |parts| == |pieces|
    requires pieces != [] ==> IsPart(pieces[0], parts[0]) && PartsAre(Pieces(pieces[1..]), parts[1..])
    ensures PartsAre(Pieces(pieces), parts)
  {
    hide IsPart;
    forall i | 0 <= i < |pieces|
      ensures IsPart(pieces[i], parts[i])
    {
      assert i > 0 ==> IsPart(pieces[1..][i - 1], parts[1..][i - 1]);
    }
  }

  lemma PartsExactly(content: Content)
    ensures PartsOf(content).None? <==> CannotGo(content)
    ensures PartsOf(content).Some? ==> PartsAre(content, PartsOf(content).value)
  {
    hide PieceParts;
    if content.Pieces? {
      PieceByPiece(content.pieces);
    }
  }

  lemma PartsAreOnly(content: Content, a: seq<Part>, b: seq<Part>)
    requires PartsAre(content, a) && PartsAre(content, b)
    ensures a == b && !CannotGo(content)
  {
    if content.Pieces? {
      assert forall i :: 0 <= i < |content.pieces| ==>
        IsPart(content.pieces[i], a[i]) && IsPart(content.pieces[i], b[i]);
    }
  }

  /** The texts among some parts. */
  function TextsIn(parts: seq<Part>): seq<string> {
    if parts == [] then []
    else TextsIn(parts[..|parts| - 1]) + match parts[|parts| - 1] case Text(text) => [text] case _ => []
  }

  lemma {:induction false} TextsAreJoined(parts: seq<Part>)
    ensures TextsOf(parts) == Joined(TextsIn(parts))
  {
    if parts == [] {
    } else {
      var n := |parts| - 1;
      TextsAreJoined(parts[..n]);
      assert parts == parts[..n] + [parts[n]];
      TextsOfOneMore(parts[..n], parts[n]);
      JoinedSum(TextsIn(parts[..n]), match parts[n] case Text(text) => [text] case _ => []);
      assert parts[n].Text? ==> [parts[n].text][1..] == [] && parts[n].text + "" == parts[n].text;
    }
  }

  lemma {:induction false} TextsOfOneMore(parts: seq<Part>, last: Part)
    ensures TextsOf(parts + [last]) == TextsOf(parts) + if last.Text? then last.text else ""
  {
    var text := if last.Text? then last.text else "";
    if parts == [] {
      assert [] + [last] == [last] && [last][1..] == [] && text + "" == text == "" + text;
    } else {
      TextsOfOneMore(parts[1..], last);
      assert (parts + [last])[0] == parts[0] && (parts + [last])[1..] == parts[1..] + [last];
      Assoc(if parts[0].Text? then parts[0].text else "", TextsOf(parts[1..]), text);
    }
  }

  // ----- Calls and results -----

  /** What a call's arguments are read as: an object as it is, blank text as none, other text as the object
      it spells. */
  ghost predicate ArgsAre(codec: Codec, raw: Arguments, fields: Fields) {
    match raw
    case Given(given) => fields == given
    case Written(text) => if Blank(text) then fields == map[] else codec.loads(text) == Some(Object(fields))
  }

  /** They are text, not blank, that spells no object. */
  ghost predicate NoArgs(codec: Codec, call: ToolCall) {
    && call.arguments.Written? && !Blank(call.arguments.text)
    && match codec.loads(call.arguments.text) case Some(Object(_)) => false case _ => true
  }

  ghost predicate NoArgsBecause(codec: Codec, call: ToolCall, why: Trouble) {
    && NoArgs(codec, call)
    && why == if codec.loads(call.arguments.text) == None then ArgsNotJson(call.id) else ArgsNotObject(call.id)
  }

  lemma ArgsExactly(codec: Codec, call: ToolCall)
    ensures var r := ArgsOf(codec, call.id, call.arguments);
      if r.Ok? then ArgsAre(codec, call.arguments, r.value) && !NoArgs(codec, call)
      else NoArgsBecause(codec, call, r.error)
  {
  }

  /** What a result says: the object it spells, or its text or value under `result`. */
  ghost predicate Responds(codec: Codec, text: string, response: Fields) {
    match codec.loads(text)
    case Some(Object(fields)) => response == fields
    case Some(v) => response == map["result" := v]
    case None => response == map["result" := Scalar(text)]
  }

  /** A call goes out with its name and arguments, with its signature if one is remembered, and with its id if
      Google gave it. */
  ghost predicate GoesOut(codec: Codec, items: seq<Item>, now: real, call: ToolCall, part: Part) {
    var known := Lookup(items, call.id, now);
    && part.FunctionCall? && part.name == call.name && ArgsAre(codec, call.arguments, part.args)
    && part.signature == (match known case Some(k) => k.signature case None => None)
    && part.id == (match known case Some(k) => if k.googleId then Some(call.id) else None case None => None)
  }

  /** The cache remembers no signature for the call. */
  ghost predicate Unproven(items: seq<Item>, now: real, call: ToolCall) {
    match Lookup(items, call.id, now)
    case Some(k) => k.signature == None
    case None => true
  }

  /** The calls of message `at`, each recalled in its turn. */
  ghost predicate CallsGoOut(codec: Codec, items: seq<Item>, clock: Clock, at: nat, calls: seq<ToolCall>,
                             out: CallParts) {
    && |out.parts| == |calls|
    && (forall i :: 0 <= i < |calls| ==> GoesOut(codec, items, clock(at, i), calls[i], out.parts[i]))
    && (out.unsigned <==> exists i :: 0 <= i < |calls| && Unproven(items, clock(at, i), calls[i]))
  }

  ghost predicate AllArgs(codec: Codec, calls: seq<ToolCall>) {
    forall i :: 0 <= i < |calls| ==> !NoArgs(codec, calls[i])
  }

  /** The first call whose arguments cannot be read is refused, and `why` is why. */
  ghost predicate FirstWithoutArgs(codec: Codec, calls: seq<ToolCall>, why: Trouble) {
    exists i :: 0 <= i < |calls| && NoArgsBecause(codec, calls[i], why) && AllArgs(codec, calls[..i])
  }

  ghost predicate CallsAnswer(codec: Codec, items: seq<Item>, clock: Clock, at: nat, calls: seq<ToolCall>,
                              r: Result<CallParts, Trouble>) {
    if r.Ok? then CallsGoOut(codec, items, clock, at, calls, r.value) && AllArgs(codec, calls)
    else FirstWithoutArgs(codec, calls, r.error)
  }

  lemma {:induction false} CallsExactly(codec: Codec, items: seq<Item>, clock: Clock, at: nat, calls: seq<ToolCall>)
    ensures CallsAnswer(codec, items, clock, at, calls, PartsOfCalls(codec, items, clock, at, calls))
  {
    hide PartsOfCalls, CallsAnswer;
    if calls == [] {
      NoCallsAnswer(codec, items, clock, at);
    } else {
      CallsExactly(codec, items, clock, at, calls[..|calls| - 1]);
      OneMoreCall(codec, items, clock, at, calls);
    }
  }

  lemma NoCallsAnswer(codec: Codec, items: seq<Item>, clock: Clock, at: nat)
    ensures CallsAnswer(codec, items, clock, at, [], PartsOfCalls(codec, items, clock, at, []))
  {
  }

  lemma OneMoreCall(codec: Codec, items: seq<Item>, clock: Clock, at: nat, calls: seq<ToolCall>)
    requires calls != []
    requires var front := calls[..|calls| - 1];
      CallsAnswer(codec, items, clock, at, front, PartsOfCalls(codec, items, clock, at, front))
    ensures CallsAnswer(codec, items, clock, at, calls, PartsOfCalls(codec, items, clock, at, calls))
  {
    hide ArgsOf, NoArgs, NoArgsBecause, GoesOut, Unproven, Lookup, CallPart, Unsigned, CallsGoOut, AllArgs,
      FirstWithoutArgs;
    var n := |calls| - 1;
    var front := calls[..n];
    var before := PartsOfCalls(codec, items, clock, at, front);
    ArgsExactly(codec, calls[n]);
    if before.Err? {
      StillWithoutArgs(codec, calls, before.error);
    } else {
      var args := ArgsOf(codec, calls[n].id, calls[n].arguments);
      LastArgs(codec, calls, if args.Ok? then NoSuchCall(0) else args.error);
      if args.Ok? {
        var known := Lookup(items, calls[n].id, clock(at, n));
        LastGoesOut(codec, items, clock(at, n), calls[n]);
        MoreGoOut(codec, items, clock, at, calls, before.value, CallPart(calls[n], args.value, known), Unsigned(known));
      }
    }
  }

  lemma StillWithoutArgs(codec: Codec, calls: seq<ToolCall>, why: Trouble)
    requires calls != [] && FirstWithoutArgs(codec, calls[..|calls| - 1], why)
    ensures FirstWithoutArgs(codec, calls, why)
  {
    hide NoArgsBecause, AllArgs;
    var front := calls[..|calls| - 1];
    var i :| 0 <= i < |front| && NoArgsBecause(codec, front[i], why) && AllArgs(codec, front[..i]);
    assert front[..i] == calls[..i] && NoArgsBecause(codec, calls[i], why);
  }

  lemma LastArgs(codec: Codec, calls: seq<ToolCall>, why: Trouble)
    requires calls != [] && AllArgs(codec, calls[..|calls| - 1])
    ensures !NoArgs(codec, calls[|calls| - 1]) ==> AllArgs(codec, calls)
    ensures NoArgsBecause(codec, calls[|calls| - 1], why) ==> FirstWithoutArgs(codec, calls, why)
  {
    hide NoArgs, NoArgsBecause;
    var n := |calls| - 1;
    assert forall i :: 0 <= i < n ==> calls[..n][i] == calls[i];
  }

  lemma MoreGoOut(codec: Codec, items: seq<Item>, clock: Clock, at: nat, calls: seq<ToolCall>, before: CallParts,
                  part: Part, unsigned: bool)
    requires calls != [] && CallsGoOut(codec, items, clock, at, calls[..|calls| - 1], before)
    requires GoesOut(codec, items, clock(at, |calls| - 1), calls[|calls| - 1], part)
    requires unsigned <==> Unproven(items, clock(at, |calls| - 1), calls[|calls| - 1])
    ensures CallsGoOut(codec, items, clock, at, calls, CallParts(before.parts + [part], before.unsigned || unsigned))
  {
    hide GoesOut, Unproven;
    var n := |calls| - 1;
    assert forall i :: 0 <= i < n ==> calls[..n][i] == calls[i] && (before.parts + [part])[i] == before.parts[i];
    if before.unsigned {
      var i :| 0 <= i < n && Unproven(items, clock(at, i), calls[..n][i]);
      assert Unproven(items, clock(at, i), calls[i]);
    }
  }

  lemma NoneWithoutArgs(codec: Codec, calls: seq<ToolCall>)
    ensures AllArgs(codec, calls) ==> forall why :: !FirstWithoutArgs(codec, calls, why)
  {
    hide NoArgs;
  }

  lemma LastGoesOut(codec: Codec, items: seq<Item>, now: real, call: ToolCall)
    requires ArgsOf(codec, call.id, call.arguments).Ok?
    ensures var known := Lookup(items, call.id, now);
      GoesOut(codec, items, now, call, CallPart(call, ArgsOf(codec, call.id, call.arguments).value, known))
        && (Unsigned(known) <==> Unproven(items, now, call))
  {
    hide Lookup, ArgsOf;
    ArgsExactly(codec, call);
  }

  // ----- The function a result answers -----

  /** Call `i` is the last of its id. */
  ghost predicate LastOf(calls: seq<ToolCall>, id: string, i: int) {
    0 <= i < |calls| && calls[i].id == id && forall j :: i < j < |calls| ==> calls[j].id != id
  }

  ghost predicate MakesCall(m: Message, id: string) {
    m.Assistant? && exists i :: 0 <= i < |m.calls| && m.calls[i].id == id
  }

  /** Call `i` of message `m` is the last of its id before message `n`. */
  ghost predicate LastCalled(messages: seq<Message>, n: nat, id: string, m: int, i: int) {
    && 0 <= m < n <= |messages| && messages[m].Assistant? && LastOf(messages[m].calls, id, i)
    && (forall k :: m < k < n ==> !MakesCall(messages[k], id))
  }

  /** The function the last call of this id before message `n` named. */
  ghost predicate NamedBy(messages: seq<Message>, n: nat, id: string, name: string) {
    exists m, i :: LastCalled(messages, n, id, m, i) && messages[m].calls[i].name == name
  }

  ghost predicate CalledBefore(messages: seq<Message>, n: nat, id: string) {
    exists k :: 0 <= k < n && k < |messages| && MakesCall(messages[k], id)
  }

  lemma {:induction false} NamedExactly(names: map<string, string>, calls: seq<ToolCall>, id: string)
    ensures var r := Named(names, calls);
      if exists i :: 0 <= i < |calls| && calls[i].id == id
      then id in r && exists i :: LastOf(calls, id, i) && r[id] == calls[i].name
      else (id in r <==> id in names) && (id in r ==> r[id] == names[id])
    decreases |calls|
  {
    if calls == [] {
    } else {
      var n := |calls| - 1;
      var before, r := Named(names, calls[..n]), Named(names, calls);
      NamedExactly(names, calls[..n], id);
      assert forall i :: 0 <= i < n ==> calls[..n][i] == calls[i];
      assert r == before[calls[n].id := calls[n].name];
      if calls[n].id == id {
        assert LastOf(calls, id, n) && r[id] == calls[n].name;
      } else if i :| 0 <= i < n && calls[i].id == id {
        assert calls[..n][i].id == id;
        var k :| LastOf(calls[..n], id, k) && before[id] == calls[..n][k].name;
        LastOfMore(calls, id, k);
      }
    }
  }

  lemma LastOfMore(calls: seq<ToolCall>, id: string, k: int)
    requires calls != [] && LastOf(calls[..|calls| - 1], id, k) && calls[|calls| - 1].id != id
    ensures LastOf(calls, id, k)
  {
    var front := calls[..|calls| - 1];
    assert forall j :: 0 <= j < |front| ==> front[j] == calls[j];
  }

  lemma {:induction false} NamesExactly(messages: seq<Message>, n: nat, id: string)
    requires n <= |messages|
    ensures var names := NamesBefore(messages, n);
      && (id in names <==> CalledBefore(messages, n, id))
      && (id in names ==> NamedBy(messages, n, id, names[id]))
  {
    hide Named, MakesCall, LastOf;
    if n == 0 {
    } else {
      NamesExactly(messages, n - 1, id);
      var before, m := NamesBefore(messages, n - 1), messages[n - 1];
      if MakesCall(m, id) {
        CalledNow(before, messages, n, id);
      } else {
        NotCalledNow(before, m, id);
        if id in before {
          StillNamed(messages, n, id, before[id]);
        }
      }
    }
  }

  lemma StillNamed(messages: seq<Message>, n: nat, id: string, name: string)
    requires 0 < n <= |messages| && NamedBy(messages, n - 1, id, name) && !MakesCall(messages[n - 1], id)
    ensures NamedBy(messages, n, id, name)
  {
    hide MakesCall;
    var m, i :| LastCalled(messages, n - 1, id, m, i) && messages[m].calls[i].name == name;
    assert LastCalled(messages, n, id, m, i);
  }

  lemma CalledNow(before: map<string, string>, messages: seq<Message>, n: nat, id: string)
    requires 0 < n <= |messages| && MakesCall(messages[n - 1], id)
    ensures messages[n - 1].Assistant?
    ensures var names := Named(before, messages[n - 1].calls);
      id in names && NamedBy(messages, n, id, names[id]) && CalledBefore(messages, n, id)
  {
    hide Named;
    var calls := messages[n - 1].calls;
    NamedExactly(before, calls, id);
    var i :| LastOf(calls, id, i) && Named(before, calls)[id] == calls[i].name;
    assert LastCalled(messages, n, id, n - 1, i);
  }

  lemma NotCalledNow(before: map<string, string>, m: Message, id: string)
    requires !MakesCall(m, id)
    ensures var names := if m.Assistant? then Named(before, m.calls) else before;
      (id in names <==> id in before) && (id in names ==> names[id] == before[id])
  {
    hide Named;
    if m.Assistant? {
      NamedExactly(before, m.calls, id);
    }
  }

  /** What the conversation calls it, if it names it at all; else what is remembered of the call; else "". */
  ghost predicate Answers(items: seq<Item>, now: real, messages: seq<Message>, n: nat, id: string, name: string) {
    if exists said :: said != "" && NamedBy(messages, n, id, said) then NamedBy(messages, n, id, name) && name != ""
    else name == match Lookup(items, id, now) case Some(k) => k.name case None => ""
  }

  lemma NamedByOne(messages: seq<Message>, n: nat, id: string, a: string, b: string)
    requires NamedBy(messages, n, id, a) && NamedBy(messages, n, id, b)
    ensures a == b && CalledBefore(messages, n, id)
  {
    var m, i :| LastCalled(messages, n, id, m, i) && messages[m].calls[i].name == a;
    var k, j :| LastCalled(messages, n, id, k, j) && messages[k].calls[j].name == b;
    assert MakesCall(messages[m], id) && MakesCall(messages[k], id);
  }

  lemma AnswersExactly(items: seq<Item>, now: real, messages: seq<Message>, n: nat, id: string, name: string)
    requires n <= |messages|
    ensures AnsweredName(NamesBefore(messages, n), id, Lookup(items, id, now)) == name
       <==> Answers(items, now, messages, n, id, name)
  {
    hide NamesBefore, Lookup, NamedBy, CalledBefore;
    var names := NamesBefore(messages, n);
    NamesExactly(messages, n, id);
    forall said | NamedBy(messages, n, id, said)
      ensures id in names && said == names[id]
    {
      NamedByOne(messages, n, id, said, said);
      NamedByOne(messages, n, id, said, names[id]);
    }
  }

  // ----- What a message says -----

  /** What message `n` contributes, its content being `parts`: system text, which is no turn of its own; the model's
      words and then its calls; a result, which is the user's to give; or the user's words. */
  ghost predicate Contributes(codec: Codec, items: seq<Item>, clock: Clock, messages: seq<Message>, n: nat,
                              parts: seq<Part>, said: Said)
    requires n < |messages|
  {
    match messages[n]
    case System(_) => said == Said(Joined(TextsIn(parts)), User, [], false)
    case Assistant(_, calls) =>
      && said.system == "" && said.role == Model && parts <= said.parts
      && CallsGoOut(codec, items, clock, n, calls, CallParts(said.parts[|parts|..], said.unsigned))
    case Tool(_, id) =>
      && said.system == "" && said.role == User && !said.unsigned && |said.parts| == 1
      && said.parts[0].FunctionResponse? && said.parts[0].name != ""
      && Answers(items, clock(n, 0), messages, n, id, said.parts[0].name)
      && Responds(codec, Joined(TextsIn(parts)), said.parts[0].response)
      && said.parts[0].id
         == (match Lookup(items, id, clock(n, 0)) case Some(k) => if k.googleId then Some(id)
           else None case None => None)
    case Other(_) => said == Said("", User, parts, false)
  }

  /** Why message `n` cannot be sent. */
  ghost predicate Troubles(codec: Codec, items: seq<Item>, clock: Clock, messages: seq<Message>, n: nat, why: Trouble)
    requires n < |messages|
  {
    var m := messages[n];
    if m.Tool? && Answers(items, clock(n, 0), messages, n, m.callId, "") then why == NoSuchCall(n)
    else if CannotGo(m.content) then why == CannotSend(n)
    else m.Assistant? && FirstWithoutArgs(codec, m.calls, why)
  }

  /** Every message that can be sent says just this, and every other one is refused for just that. */
  lemma SaysExactly(codec: Codec, items: seq<Item>, clock: Clock, messages: seq<Message>, n: nat)
    requires n < |messages|
    ensures var said := Says(codec, items, clock, messages, n);
      if said.Ok? then
        (forall why :: !Troubles(codec, items, clock, messages, n, why)) && exists parts ::
          PartsAre(messages[n].content, parts) && Contributes(codec, items, clock, messages, n, parts, said.value)
      else Troubles(codec, items, clock, messages, n, said.error)
  {
    hide PartsOf, PartsAre, CannotGo, TextsOf, TextsIn, PartsOfCalls, AnsweredName, NamesBefore, Answers, ResponseOf,
      NoArgs, NoArgsBecause, AllArgs, CallsGoOut, Lookup;
    var m := messages[n];
    PartsExactly(m.content);
    match m {
      case System(_) =>
        if PartsOf(m.content).Some? {
          TextsAreJoined(PartsOf(m.content).value);
        }
      case Assistant(_, calls) =>
        CallsExactly(codec, items, clock, n, calls);
        NoneWithoutArgs(codec, calls);
        if Says(codec, items, clock, messages, n).Ok? {
          var parts, called := PartsOf(m.content).value, PartsOfCalls(codec, items, clock, n, calls).value;
          assert (parts + called.parts)[|parts|..] == called.parts;
        }
      case Tool(_, id) =>
        var name := AnsweredName(NamesBefore(messages, n), id, Lookup(items, id, clock(n, 0)));
        AnswersExactly(items, clock(n, 0), messages, n, id, name);
        AnswersExactly(items, clock(n, 0), messages, n, id, "");
        if PartsOf(m.content).Some? {
          TextsAreJoined(PartsOf(m.content).value);
          RespondsExactly(codec, TextsOf(PartsOf(m.content).value));
        }
      case Other(_) =>
    }
  }

  lemma RespondsExactly(codec: Codec, text: string)
    ensures Responds(codec, text, ResponseOf(codec, text))
  {
  }

  ghost predicate FirstTrouble(codec: Codec, items: seq<Item>, clock: Clock, messages: seq<Message>, n: nat, i: int,
                               why: Trouble) {
    && 0 <= i < n <= |messages| && Says(codec, items, clock, messages, i) == Err(why)
    && forall j :: 0 <= j < i ==> Says(codec, items, clock, messages, j).Ok?
  }

  /** A conversation that cannot be sent is refused for its first message that cannot. */
  lemma {:induction false} FirstTroubleIsTold(codec: Codec, items: seq<Item>, clock: Clock, messages: seq<Message>,
                                              n: nat)
    requires n <= |messages| && Drafted(codec, items, clock, messages, n).Err?
    ensures exists i :: FirstTrouble(codec, items, clock, messages, n, i,
      Drafted(codec, items, clock, messages, n).error)
    decreases n
  {
    hide Says, WithSaid;
    var why := Drafted(codec, items, clock, messages, n).error;
    if Drafted(codec, items, clock, messages, n - 1).Err? {
      FirstTroubleIsTold(codec, items, clock, messages, n - 1);
      var i :| FirstTrouble(codec, items, clock, messages, n - 1, i, why);
      assert FirstTrouble(codec, items, clock, messages, n, i, why);
    } else {
      AllSaid(codec, items, clock, messages, n - 1);
      assert FirstTrouble(codec, items, clock, messages, n, n - 1, why);
    }
  }

  lemma {:induction false} AllSaid(codec: Codec, items: seq<Item>, clock: Clock, messages: seq<Message>, n: nat)
    requires n <= |messages| && Drafted(codec, items, clock, messages, n).Ok?
    ensures forall j :: 0 <= j < n ==> Says(codec, items, clock, messages, j).Ok?
    decreases n
  {
    hide Says, WithSaid;
    if n == 0 {
    } else {
      AllSaid(codec, items, clock, messages, n - 1);
    }
  }

  /** Texts are joined with `between` between each two. */
  lemma {:induction false} JoinsBetween(between: string, a: seq<string>, b: seq<string>)
    requires a != [] && b != []
    ensures JoinedBy(between, a + b) == JoinedBy(between, a) + between + JoinedBy(between, b)
    ensures JoinedBy(between, [a[0]]) == a[0]
    decreases |a|
  {
    var all := a + b;
    assert all[0] == a[0] && all[1..] == a[1..] + b;
    if |a| == 1 {
      assert a[1..] + b == b;
    } else {
      JoinsBetween(between, a[1..], b);
      Assoc(a[0] + between, JoinedBy(between, a[1..]) + between, JoinedBy(between, b));
      Assoc(a[0] + between, JoinedBy(between, a[1..]), between);
    }
  }

  // ----- What an answer says -----

  /** Two readings in order, side by side. */
  function Both(x: Parsed, y: Parsed): Parsed {
    Parsed(x.text + y.text, x.reasoning + y.reasoning, x.calls + y.calls, x.images + y.images, x.audio + y.audio)
  }

  const SILENCE := Parsed("", "", [], [], [])

  /** Thoughts are reasoning and no text; other text, and what was heard, is text; media of a type `audio/...` are audio
      and any other are images; a call is a call, under Google's id or else a new one. */
  ghost function Alone(codec: Codec, part: AnswerPart, spare: string): Parsed {
    match part
    case Spoken(text, thought) => if thought then SILENCE.(reasoning := text) else SILENCE.(text := text)
    case Transcribed(text) => SILENCE.(text := text)
    case Attached(mime, data) =>
      if "audio/" <= mime then SILENCE.(audio := [File(mime, data)]) else SILENCE.(images := [File(mime, data)])
    case Called(name, id, args, signature) =>
      var fields := match args case Some(given) => given case None => map[];
      var call := match id case Some(given) => given case None => spare;
      SILENCE.(calls := [ToolCall(call, name, Written(codec.dumps(Object(fields))))])
    case Ignored => SILENCE
  }

  lemma Silent(x: Parsed)
    ensures x.text + "" == x.text && x.reasoning + "" == x.reasoning && x.calls + [] == x.calls
    ensures x.images + [] == x.images && x.audio + [] == x.audio
    ensures Both(SILENCE, x) == x == Both(x, SILENCE)
  {
  }

  lemma ReadLast(codec: Codec, parts: seq<AnswerPart>, spare: seq<string>)
    requires |spare| == |parts| && parts != []
    ensures var n := |parts| - 1;
      Read(codec, parts, spare) == Both(Read(codec, parts[..n], spare[..n]), Alone(codec, parts[n], spare[n]))
  {
    hide Both, IsAudio, Alone;
    var n := |parts| - 1;
    var before := Read(codec, parts[..n], spare[..n]);
    AddsToRead(codec, before, parts[n], spare[n]);
  }

  lemma AddsToRead(codec: Codec, x: Parsed, part: AnswerPart, spare: string)
    ensures Both(x, Alone(codec, part, spare)) == match part
      case Called(_, _, _, _) => x.(calls := x.calls + [CallOf(codec, part, spare)])
      case Transcribed(text) => x.(text := x.text + text)
      case Attached(mime, data) =>
        if IsAudio(mime) then x.(audio := x.audio + [File(mime, data)])
        else x.(images := x.images + [File(mime, data)])
      case Spoken(text, thought) =>
        if thought then x.(reasoning := x.reasoning + text) else x.(text := x.text + text)
      case Ignored => x
  {
    Silent(x);
    assert part.Attached? ==> (IsAudio(part.mime) <==> "audio/" <= part.mime);
  }

  /** A part of an answer by itself. */
  lemma ReadOne(codec: Codec, part: AnswerPart, spare: string)
    ensures Read(codec, [part], [spare]) == Alone(codec, part, spare)
  {
    hide Alone, Both;
    assert [part][..0] == [] && [spare][..0] == [];
    ReadLast(codec, [part], [spare]);
    Silent(Alone(codec, part, spare));
  }

  /** An answer is read part by part: each of the five things it says is what its pieces say, in order. */
  lemma {:induction false} ReadInPieces(codec: Codec, a: seq<AnswerPart>, b: seq<AnswerPart>, spareA: seq<string>,
                                        spareB: seq<string>)
    requires |spareA| == |a| && |spareB| == |b|
    ensures Read(codec, a + b, spareA + spareB) == Both(Read(codec, a, spareA), Read(codec, b, spareB))
    decreases |b|
  {
    hide Alone, Both;
    if b == [] {
      assert a + b == a && spareA + spareB == spareA;
      Silent(Read(codec, a, spareA));
    } else {
      hide Read;
      var n, all, spare := |b| - 1, a + b, spareA + spareB;
      assert all[..|all| - 1] == a + b[..n] && spare[..|all| - 1] == spareA + spareB[..n];
      ReadInPieces(codec, a, b[..n], spareA, spareB[..n]);
      ReadLast(codec, b, spareB);
      ReadLast(codec, all, spare);
      BothInOrder(Read(codec, a, spareA), Read(codec, b[..n], spareB[..n]), Alone(codec, b[n], spareB[n]));
    }
  }

  lemma BothInOrder(x: Parsed, y: Parsed, z: Parsed)
    ensures Both(Both(x, y), z) == Both(x, Both(y, z))
  {
    Assoc(x.text, y.text, z.text);
    Assoc(x.reasoning, y.reasoning, z.reasoning);
    Assoc(x.calls, y.calls, z.calls);
    Assoc(x.images, y.images, z.images);
    Assoc(x.audio, y.audio, z.audio);
  }

  /** What is remembered of a part, read when the clock says `ticks(0)`: of a call its name, its signature and whether
      Google gave the id, under that id or else the new one; of any other part nothing. */
  lemma CallIsRemembered(part: AnswerPart, spare: string, ticks: Ticks)
    ensures Rememberings([part], [spare], ticks) == match part
      case Called(name, Some(given), args, signature) =>
        [Remember(ticks(0), given, RememberedCall(name, signature, true))]
      case Called(name, None, args, signature) => [Remember(ticks(0), spare, RememberedCall(name, signature, false))]
      case _ => []
  {
    assert [part][..0] == [] && [spare][..0] == [];
  }
}
