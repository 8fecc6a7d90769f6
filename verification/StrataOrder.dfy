/** Where the text of a filtered stream stands among its other frames. */
module StrataOrder {
  import opened Options
  import opened Text
  import opened StopStrings
  import opened Strata
  import opened StrataStream

  /** A frame without text, bare, and how much text stands ahead of it. */
  datatype Placed = Placed(after: nat, frame: Chunk)

  /** A stream as its reader sees it: its text, and every other frame in its place. */
  datatype View = View(text: string, frames: seq<Placed>)

  function FramesFrom(chunks: seq<Chunk>, n: nat): seq<Placed> {
    if chunks == [] then []
    else if chunks[0].text != "" then FramesFrom(chunks[1..], n + |chunks[0].text|)
    else [Placed(n, Bare(chunks[0]))] + FramesFrom(chunks[1..], n)
  }

  function InPlace(chunks: seq<Chunk>): View {
    View(TextOf(chunks), FramesFrom(chunks, 0))
  }

  lemma {:induction false} FramesFromSum(a: seq<Chunk>, b: seq<Chunk>, n: nat)
    ensures FramesFrom(a + b, n) == FramesFrom(a, n) + FramesFrom(b, n + |TextOf(a)|)
    decreases |a|
  {
    hide Bare;
    if a == [] {
      assert a + b == b && [] + FramesFrom(b, n) == FramesFrom(b, n);
    } else {
      assert (a + b)[0] == a[0] && (a + b)[1..] == a[1..] + b;
      var next := n + |a[0].text|;
      FramesFromSum(a[1..], b, next);
      if a[0].text == "" {
        Assoc([Placed(n, Bare(a[0]))], FramesFrom(a[1..], n), FramesFrom(b, n + |TextOf(a)|));
      }
    }
  }

  lemma FramesAfterText(c: Chunk, text: string, more: seq<Chunk>, n: nat)
    ensures FramesFrom(Visible(c, text) + more, n) == FramesFrom(more, n + |text|)
    ensures FramesFrom(Flushed(text) + more, n) == FramesFrom(more, n + |text|)
  {
    hide Bare;
    if text == "" {
      assert [] + more == more;
    } else {
      assert ([c.(text := text)] + more)[1..] == more;
      assert ([Chunk(text, "", [], "", false, None)] + more)[1..] == more;
    }
  }

  lemma FramesFromPassed(st: Memory, c: Chunk, more: seq<Chunk>, n: nat)
    requires c.text == ""
    ensures FramesFrom([Passed(st, c)] + more, n) == [Placed(n, Bare(c))] + FramesFrom(more, n)
  {
    assert ([Passed(st, c)] + more)[1..] == more;
  }

  lemma {:induction false} FramesWithin(chunks: seq<Chunk>, n: nat)
    ensures forall f :: f in FramesFrom(chunks, n) ==> n <= f.after <= n + |TextOf(chunks)|
  {
    hide Bare;
    if chunks == [] {
    } else {
      FramesWithin(chunks[1..], n + |chunks[0].text|);
    }
  }

  // ----- How far a frame gets ahead of the text -----

  /** How much withheld text each frame without text overtakes: none if it ends the run of text. */
  function Overtaken(stops: seq<string>, run: string, chunks: seq<Chunk>): seq<nat>
    decreases |chunks|
  {
    if chunks == [] then []
    else if chunks[0].text != "" then Overtaken(stops, run + chunks[0].text, chunks[1..])
    else if EndsRun(chunks[0]) then [0] + Overtaken(stops, "", chunks[1..])
    else [|run| - Safe(stops, run)] + Overtaken(stops, run, chunks[1..])
  }

  /** Where a frame comes that does not end the run, no text is withheld. */
  predicate NoneOvertakes(stops: seq<string>, run: string, chunks: seq<Chunk>)
    decreases |chunks|
  {
    if chunks == [] then true
    else if chunks[0].text != "" then NoneOvertakes(stops, run + chunks[0].text, chunks[1..])
    else if EndsRun(chunks[0]) then NoneOvertakes(stops, "", chunks[1..])
    else Safe(stops, run) == |run| && NoneOvertakes(stops, run, chunks[1..])
  }

  /** The same frames in the same order, each having overtaken so much text. */
  ghost predicate MovedBy(sent: seq<Placed>, came: seq<Placed>, gained: seq<nat>) {
    && |sent| == |came| == |gained|
    && forall j :: 0 <= j < |sent| ==> sent[j].frame == came[j].frame && sent[j].after + gained[j] == came[j].after
  }

  lemma {:induction false} NoneOvertakesMeans(stops: seq<string>, run: string, chunks: seq<Chunk>)
    ensures NoneOvertakes(stops, run, chunks) <==> AllZero(Overtaken(stops, run, chunks))
    decreases |chunks|
  {
    hide Safe, AllZero;
    if chunks == [] {
      AllZeroMore(0, []);
    } else if chunks[0].text != "" {
      NoneOvertakesMeans(stops, run + chunks[0].text, chunks[1..]);
    } else if EndsRun(chunks[0]) {
      NoneOvertakesMeans(stops, "", chunks[1..]);
      AllZeroMore(0, Overtaken(stops, "", chunks[1..]));
    } else {
      NoneOvertakesMeans(stops, run, chunks[1..]);
      AllZeroMore(|run| - Safe(stops, run), Overtaken(stops, run, chunks[1..]));
    }
  }

  predicate AllZero(gained: seq<nat>) {
    forall j :: 0 <= j < |gained| ==> gained[j] == 0
  }

  lemma AllZeroMore(first: nat, rest: seq<nat>)
    ensures AllZero([first] + rest) <==> first == 0 && AllZero(rest)
    ensures AllZero([])
  {
    var all := [first] + rest;
    assert all[0] == first;
    if AllZero(all) {
      forall j | 0 <= j < |rest|
        ensures rest[j] == 0
      {
        assert all[j + 1] == rest[j];
      }
    }
  }

  /** Only frames that do not end a run overtake any text: progress, citations and the like. */
  lemma {:induction false} OnlyAsidesOvertake(stops: seq<string>, run: string, chunks: seq<Chunk>, n: nat, j: nat)
    requires j < |Overtaken(stops, run, chunks)|
    ensures |FramesFrom(chunks, n)| == |Overtaken(stops, run, chunks)|
    ensures EndsRun(FramesFrom(chunks, n)[j].frame) ==> Overtaken(stops, run, chunks)[j] == 0
    decreases |chunks|
  {
    hide Safe;
    FramesCounted(stops, run, chunks, n);
    if chunks[0].text != "" {
      OnlyAsidesOvertake(stops, run + chunks[0].text, chunks[1..], n + |chunks[0].text|, j);
    } else if j == 0 {
    } else {
      OnlyAsidesOvertake(stops, if EndsRun(chunks[0]) then "" else run, chunks[1..], n, j - 1);
    }
  }

  lemma {:induction false} FramesCounted(stops: seq<string>, run: string, chunks: seq<Chunk>, n: nat)
    ensures |FramesFrom(chunks, n)| == |Overtaken(stops, run, chunks)|
    decreases |chunks|
  {
    hide Safe, Bare;
    if chunks == [] {
    } else if chunks[0].text != "" {
      FramesCounted(stops, run + chunks[0].text, chunks[1..], n + |chunks[0].text|);
    } else {
      FramesCounted(stops, if EndsRun(chunks[0]) then "" else run, chunks[1..], n);
    }
  }

  lemma MovedByMore(sent: seq<Placed>, came: seq<Placed>, gained: seq<nat>, n: nat, b: nat, c: Chunk)
    requires MovedBy(sent, came, gained)
    ensures MovedBy([Placed(n, c)] + sent, [Placed(n + b, c)] + came, [b] + gained)
  {
  }

  lemma MovedByNothing(sent: seq<Placed>, came: seq<Placed>, gained: seq<nat>)
    requires MovedBy(sent, came, gained)
    ensures sent == came <==> AllZero(gained)
  {
    if AllZero(gained) {
      assert forall j :: 0 <= j < |sent| ==> sent[j] == came[j];
    }
    if sent == came {
      assert forall j :: 0 <= j < |gained| ==> sent[j].after + gained[j] == came[j].after;
    }
  }

  // ----- Streams in which no stop occurs -----

  /** With no stop every frame passes, having overtaken exactly what was withheld when it came. */
  lemma {:induction false} FramesMoveExactly(stops: seq<string>, st: Memory, chunks: seq<Chunk>, n: nat)
    requires RealStops(stops) && Clear(stops, st.run, chunks)
    ensures MovedBy(FramesFrom(Filtered(stops, st, chunks), n),
                    FramesFrom(chunks, n + |st.run| - Safe(stops, st.run)),
                    Overtaken(stops, st.run, chunks))
    decreases |chunks|
  {
    hide FirstStop, Safe, RealStops, Clear, FramesFrom, Overtaken, MovedBy, Filtered;
    ClearNow(stops, st.run, chunks);
    if chunks == [] {
      NoFrames(stops, st, n);
    } else if chunks[0].text != "" {
      TextMovesNone(stops, st, chunks, n);
    } else if EndsRun(chunks[0]) {
      EndMovesNone(stops, st, chunks, n);
    } else {
      AsideMoves(stops, st, chunks, n);
    }
  }

  lemma NoFrames(stops: seq<string>, st: Memory, n: nat)
    requires RealStops(stops) && FirstStop(stops, st.run).None?
    ensures MovedBy(FramesFrom(Filtered(stops, st, []), n), FramesFrom([], n + |st.run| - Safe(stops, st.run)),
      Overtaken(stops, st.run, []))
  {
    hide FirstStop, Safe, RealStops;
  }

  lemma {:induction false} TextMovesNone(stops: seq<string>, st: Memory, chunks: seq<Chunk>, n: nat)
    requires RealStops(stops) && Clear(stops, st.run, chunks) && chunks != [] && chunks[0].text != ""
    ensures MovedBy(FramesFrom(Filtered(stops, st, chunks), n),
                    FramesFrom(chunks, n + |st.run| - Safe(stops, st.run)),
                    Overtaken(stops, st.run, chunks))
    decreases |chunks|, 0
  {
    hide FirstStop, Safe, RealStops, Visible, MovedBy, EndRun, Passed, Flushed;
    var c, rest, d := chunks[0], chunks[1..], Safe(stops, st.run);
    var got, e := st.run + c.text, Safe(stops, st.run + c.text);
    var next := AfterText(stops, st, c);
    ClearNow(stops, got, rest);
    SafeGrows(stops, st.run, c.text);
    FramesMoveExactly(stops, next, rest, n + (e - d));
    FramesAfterText(c, got[d..e], Filtered(stops, next, rest), n);
    assert Filtered(stops, st, chunks) == Visible(c, got[d..e]) + Filtered(stops, next, rest);
    assert n + (e - d) + |got| - e == n + |st.run| - d + |c.text|;
  }

  lemma {:induction false} EndMovesNone(stops: seq<string>, st: Memory, chunks: seq<Chunk>, n: nat)
    requires RealStops(stops) && Clear(stops, st.run, chunks) && chunks != [] && EndsRun(chunks[0])
    ensures MovedBy(FramesFrom(Filtered(stops, st, chunks), n),
                    FramesFrom(chunks, n + |st.run| - Safe(stops, st.run)),
                    Overtaken(stops, st.run, chunks))
    decreases |chunks|, 0
  {
    hide FirstStop, Safe, RealStops, Flushed, Passed, Bare, MovedBy, Filtered, FramesFrom, Overtaken, Clear;
    var c, rest, p := chunks[0], chunks[1..], st.run[Safe(stops, st.run)..];
    var ended := EndRun(stops, Note(st, c));
    ClearLater(stops, st.run, chunks);
    NoStopInNothing(stops);
    NothingHeld(stops);
    FramesMoveExactly(stops, ended, rest, n + |p|);
    var out := Filtered(stops, ended, rest);
    FilteredFirst(stops, st, chunks);
    OvertakenFirst(stops, st.run, chunks);
    FramesFirst(chunks, n + |p|);
    Assoc(Flushed(p), [Passed(ended, c)], out);
    FramesAfterText(c, p, [Passed(ended, c)] + out, n);
    FramesFromPassed(ended, c, out, n + |p|);
    MovedByMore(FramesFrom(out, n + |p|), FramesFrom(rest, n + |p|), Overtaken(stops, "", rest), n + |p|, 0, Bare(c));
  }

  lemma ClearLater(stops: seq<string>, run: string, chunks: seq<Chunk>)
    requires Clear(stops, run, chunks) && chunks != [] && chunks[0].text == ""
    ensures FirstStop(stops, run).None?
    ensures Clear(stops, if EndsRun(chunks[0]) then "" else run, chunks[1..])
  {
    hide FirstStop;
  }

  /** What comes out for a first frame without text. */
  lemma FilteredFirst(stops: seq<string>, st: Memory, chunks: seq<Chunk>)
    requires RealStops(stops) && FirstStop(stops, st.run).None? && chunks != [] && chunks[0].text == ""
    ensures FirstStop(stops, "").None?
    ensures var c, rest := chunks[0], chunks[1..];
      Filtered(stops, st, chunks)
      == if EndsRun(c) then
           var ended := EndRun(stops, Note(st, c));
           Flushed(st.run[Safe(stops, st.run)..]) + [Passed(ended, c)] + Filtered(stops, ended, rest)
         else [Passed(Note(st, c), c)] + Filtered(stops, Note(st, c), rest)
  {
    hide FirstStop, Safe, RealStops, Flushed, Passed;
    NoStopInNothing(stops);
  }

  lemma FramesFirst(chunks: seq<Chunk>, n: nat)
    requires chunks != [] && chunks[0].text == ""
    ensures FramesFrom(chunks, n) == [Placed(n, Bare(chunks[0]))] + FramesFrom(chunks[1..], n)
  {
    hide Bare;
  }

  lemma OvertakenFirst(stops: seq<string>, run: string, chunks: seq<Chunk>)
    requires chunks != [] && chunks[0].text == ""
    ensures Overtaken(stops, run, chunks)
         == if EndsRun(chunks[0]) then [0] + Overtaken(stops, "", chunks[1..])
            else [|run| - Safe(stops, run)] + Overtaken(stops, run, chunks[1..])
  {
    hide Safe;
  }

  lemma {:induction false} AsideMoves(stops: seq<string>, st: Memory, chunks: seq<Chunk>, n: nat)
    requires RealStops(stops) && Clear(stops, st.run, chunks) && chunks != [] && chunks[0].text == ""
      && !EndsRun(chunks[0])
    ensures MovedBy(FramesFrom(Filtered(stops, st, chunks), n),
                    FramesFrom(chunks, n + |st.run| - Safe(stops, st.run)),
                    Overtaken(stops, st.run, chunks))
    decreases |chunks|, 0
  {
    hide FirstStop, Safe, RealStops, Flushed, Passed, Bare, MovedBy, EndRun, Filtered, FramesFrom, Overtaken, Clear;
    var c, rest, next, b := chunks[0], chunks[1..], Note(st, chunks[0]), |st.run| - Safe(stops, st.run);
    ClearLater(stops, st.run, chunks);
    FramesMoveExactly(stops, next, rest, n);
    var out := Filtered(stops, next, rest);
    FilteredFirst(stops, st, chunks);
    OvertakenFirst(stops, st.run, chunks);
    FramesFirst(chunks, n + b);
    FramesFromPassed(next, c, out, n);
    MovedByMore(FramesFrom(out, n), FramesFrom(rest, n + b), Overtaken(stops, st.run, rest), n, b, Bare(c));
  }

  /** With no stop, what is sent and then withheld reads as what came, text and all, but for the text
      each frame has overtaken; so it reads the same exactly when no frame overtakes any. */
  lemma NothingMoves(stops: seq<string>, st: Memory, chunks: seq<Chunk>)
    requires RealStops(stops) && Clear(stops, st.run, chunks)
    ensures var sent := InPlace(Filtered(stops, st, chunks) + Flushed(Withheld(stops, st.run, chunks)));
      var came := InPlace(Flushed(st.run[Safe(stops, st.run)..]) + chunks);
      && sent.text == came.text && MovedBy(sent.frames, came.frames, Overtaken(stops, st.run, chunks))
      && (sent == came <==> NoneOvertakes(stops, st.run, chunks))
  {
    hide FirstStop, Safe, RealStops, Clear, FramesFrom, Overtaken, MovedBy, Filtered, Withheld, TextOf, Flushed,
      NoneOvertakes,
      AllZero;
    ClearNow(stops, st.run, chunks);
    var w, out, held := st.run[Safe(stops, st.run)..], Filtered(stops, st, chunks), Withheld(stops, st.run, chunks);
    NothingIsLost(stops, st, chunks);
    TextEnds(out, held);
    FramesEnd(out, held);
    TextOfVisible(Stopped(st, ""), w, chunks);
    FramesAfterText(Stopped(st, ""), w, chunks, 0);
    FramesMoveExactly(stops, st, chunks, 0);
    MovedByNothing(FramesFrom(out, 0), FramesFrom(chunks, |w|), Overtaken(stops, st.run, chunks));
    NoneOvertakesMeans(stops, st.run, chunks);
  }

  lemma TextEnds(out: seq<Chunk>, held: string)
    ensures TextOf(out + Flushed(held)) == TextOf(out) + held
  {
    hide TextOf;
    TextOfSum(out, Flushed(held));
    TextOfVisible(Stopped(NOTHING, ""), held, []);
    TextOfNothing();
    assert Flushed(held) + [] == Flushed(held) && held + "" == held;
  }

  lemma FramesEnd(out: seq<Chunk>, held: string)
    ensures FramesFrom(out + Flushed(held), 0) == FramesFrom(out, 0)
  {
    var n := |TextOf(out)|;
    FramesFromSum(out, Flushed(held), 0);
    FramesAfterText(Stopped(NOTHING, ""), held, [], n);
    assert Flushed(held) + [] == Flushed(held);
    assert FramesFrom(out, 0) + [] == FramesFrom(out, 0);
  }

  /** A stream without a stop that is closed by its last frame is sent whole: all its text, and every
      other frame, the closing one in its place, each other one in place exactly if no text was
      withheld when it came. */
  lemma WholeAnswerIsSentInOrder(requested: seq<string>, chunks: seq<Chunk>)
    requires Clear(Requested(requested), "", chunks) && chunks != [] && EndsRun(chunks[|chunks| - 1])
    ensures var stops, sent, came := Requested(requested), InPlace(Sent(requested, chunks)), InPlace(chunks);
      && sent.text == came.text
      && (stops != [] ==> MovedBy(sent.frames, came.frames, Overtaken(stops, "", chunks)))
      && (sent == came <==> stops == [] || NoneOvertakes(stops, "", chunks))
  {
    hide FirstStop, Clear, Safe, Filtered, Withheld, InPlace, Overtaken, MovedBy, NoneOvertakes, Requested, EndsRun;
    var stops := Requested(requested);
    if stops != [] {
      NoStopInNothing(stops);
      NothingMoves(stops, NOTHING, chunks);
      NothingWithheldAtTheEnd(stops, "", chunks);
      NothingHeld(stops);
      assert [] + chunks == chunks && Filtered(stops, NOTHING, chunks) + [] == Filtered(stops, NOTHING, chunks);
    }
  }

  // ----- Streams that a stop ends -----

  /** The run of text in hand after `chunks`. */
  function RunAfter(run: string, chunks: seq<Chunk>): string
    decreases |chunks|
  {
    if chunks == [] then run
    else if chunks[0].text != "" then RunAfter(run + chunks[0].text, chunks[1..])
    else if EndsRun(chunks[0]) then RunAfter("", chunks[1..])
    else RunAfter(run, chunks[1..])
  }

  /** The memory after a stretch of the stream in which no stop occurs. */
  function AfterAll(stops: seq<string>, st: Memory, chunks: seq<Chunk>): Memory
    decreases |chunks|
  {
    if chunks == [] then st
    else if chunks[0].text != "" then AfterAll(stops, AfterText(stops, st, chunks[0]), chunks[1..])
    else if EndsRun(chunks[0]) then AfterAll(stops, EndRun(stops, Note(st, chunks[0])), chunks[1..])
    else AfterAll(stops, Note(st, chunks[0]), chunks[1..])
  }

  /** All the reasoning of the frames that came. */
  function ReasoningOf(chunks: seq<Chunk>): string {
    if chunks == [] then "" else chunks[0].reasoning + ReasoningOf(chunks[1..])
  }

  /** All their tool calls. */
  function CallsOf(chunks: seq<Chunk>): seq<string> {
    if chunks == [] then [] else chunks[0].calls + CallsOf(chunks[1..])
  }

  lemma {:induction false} OneMoreFrame(head: seq<Chunk>, c: Chunk)
    ensures ReasoningOf(head + [c]) == ReasoningOf(head) + c.reasoning
    ensures CallsOf(head + [c]) == CallsOf(head) + c.calls
  {
    if head == [] {
      assert [] + [c] == [c] && [c][1..] == [];
      assert c.reasoning + "" == "" + c.reasoning && c.calls + [] == [] + c.calls;
    } else {
      OneMoreFrame(head[1..], c);
      assert (head + [c])[0] == head[0] && (head + [c])[1..] == head[1..] + [c];
      Assoc(head[0].reasoning, ReasoningOf(head[1..]), c.reasoning);
      Assoc(head[0].calls, CallsOf(head[1..]), c.calls);
    }
  }

  /** Whatever kinds of frames they come in, all reasoning and all calls are remembered. */
  lemma {:induction false} EverythingIsRemembered(stops: seq<string>, st: Memory, chunks: seq<Chunk>)
    ensures var last := AfterAll(stops, st, chunks);
      && last.reasoned == st.reasoned + ReasoningOf(chunks) && last.calls == st.calls + CallsOf(chunks)
    decreases |chunks|
  {
    hide FirstStop, Safe;
    if chunks == [] {
      assert st.reasoned + "" == st.reasoned && st.calls + [] == st.calls;
    } else {
      var c := chunks[0];
      var next := if c.text != "" then AfterText(stops, st, c) else if EndsRun(c) then EndRun(stops, Note(st, c))
        else Note(st, c);
      assert next.reasoned == st.reasoned + c.reasoning && next.calls == st.calls + c.calls;
      EverythingIsRemembered(stops, next, chunks[1..]);
      Assoc(st.reasoned, c.reasoning, ReasoningOf(chunks[1..]));
      Assoc(st.calls, c.calls, CallsOf(chunks[1..]));
    }
  }

  /** A stream no stop has ended yet goes on from what is remembered, having emitted what was sent. */
  lemma {:induction false} FilteredSplits(stops: seq<string>, st: Memory, head: seq<Chunk>, tail: seq<Chunk>)
    requires RealStops(stops) && Clear(stops, st.run, head)
    ensures var last := AfterAll(stops, st, head);
      && last.run == RunAfter(st.run, head) && FirstStop(stops, last.run).None?
      && Filtered(stops, st, head + tail) == Filtered(stops, st, head) + Filtered(stops, last, tail)
      && Joined(last.emitted) == Joined(st.emitted) + TextOf(Filtered(stops, st, head))
    decreases |head|
  {
    hide FirstStop, Safe, RealStops, Clear, Filtered, AfterAll, RunAfter, Joined, TextOf;
    ClearNow(stops, st.run, head);
    if head == [] {
      SplitsAtStart(stops, st, tail);
    } else if head[0].text != "" {
      SplitsAfterText(stops, st, head, tail);
    } else if EndsRun(head[0]) {
      SplitsAfterEnd(stops, st, head, tail);
    } else {
      SplitsAfterAside(stops, st, head, tail);
    }
  }

  ghost predicate SplitsAt(stops: seq<string>, st: Memory, head: seq<Chunk>, tail: seq<Chunk>)
    requires RealStops(stops) && FirstStop(stops, st.run).None?
  {
    var last := AfterAll(stops, st, head);
    && last.run == RunAfter(st.run, head) && FirstStop(stops, last.run).None?
    && Filtered(stops, st, head + tail) == Filtered(stops, st, head) + Filtered(stops, last, tail)
    && Joined(last.emitted) == Joined(st.emitted) + TextOf(Filtered(stops, st, head))
  }

  lemma SplitsAtStart(stops: seq<string>, st: Memory, tail: seq<Chunk>)
    requires RealStops(stops) && FirstStop(stops, st.run).None?
    ensures SplitsAt(stops, st, [], tail)
  {
    hide FirstStop, RealStops, Joined;
    assert [] + tail == tail && [] + Filtered(stops, st, tail) == Filtered(stops, st, tail);
    assert Joined(st.emitted) + "" == Joined(st.emitted);
  }

  lemma {:induction false} SplitsAfterText(stops: seq<string>, st: Memory, head: seq<Chunk>, tail: seq<Chunk>)
    requires RealStops(stops) && Clear(stops, st.run, head) && head != [] && head[0].text != ""
    ensures SplitsAt(stops, st, head, tail)
    decreases |head|, 0
  {
    hide FirstStop, Safe, RealStops, Visible, Joined, TextOf, EndRun, Passed, Flushed;
    var c, rest, d := head[0], head[1..], Safe(stops, st.run);
    var next, got := AfterText(stops, st, c), st.run + c.text;
    var e, last := Safe(stops, got), AfterAll(stops, next, rest);
    assert (head + tail)[0] == c && (head + tail)[1..] == rest + tail;
    ClearNow(stops, got, rest);
    SafeGrows(stops, st.run, c.text);
    FilteredSplits(stops, next, rest, tail);
    var out := Filtered(stops, next, rest);
    Assoc(Visible(c, got[d..e]), out, Filtered(stops, last, tail));
    TextOfVisible(c, got[d..e], out);
    JoinedOne(st.emitted, got[d..e]);
    Assoc(Joined(st.emitted), got[d..e], TextOf(out));
  }

  lemma {:induction false} SplitsAfterEnd(stops: seq<string>, st: Memory, head: seq<Chunk>, tail: seq<Chunk>)
    requires RealStops(stops) && Clear(stops, st.run, head) && head != [] && EndsRun(head[0])
    ensures SplitsAt(stops, st, head, tail)
    decreases |head|, 0
  {
    hide FirstStop, Safe, RealStops, Flushed, Passed, Joined, TextOf;
    var c, rest, p := head[0], head[1..], st.run[Safe(stops, st.run)..];
    var ended := EndRun(stops, Note(st, c));
    var now := Flushed(p) + [Passed(ended, c)];
    assert (head + tail)[0] == c && (head + tail)[1..] == rest + tail;
    NoStopInNothing(stops);
    FilteredSplits(stops, ended, rest, tail);
    var out := Filtered(stops, ended, rest);
    Assoc(now, out, Filtered(stops, AfterAll(stops, ended, rest), tail));
    PassedText(st, ended, c, p);
    TextOfSum(now, out);
    SentEnd(stops, st, c, [], 0);
    Assoc(Joined(st.emitted), p, TextOf(out));
  }

  lemma {:induction false} SplitsAfterAside(stops: seq<string>, st: Memory, head: seq<Chunk>, tail: seq<Chunk>)
    requires RealStops(stops) && Clear(stops, st.run, head) && head != [] && head[0].text == "" && !EndsRun(head[0])
    ensures SplitsAt(stops, st, head, tail)
    decreases |head|, 0
  {
    hide FirstStop, Safe, RealStops, Flushed, Passed, Joined, TextOf, EndRun;
    var c, rest, next := head[0], head[1..], Note(st, head[0]);
    assert (head + tail)[0] == c && (head + tail)[1..] == rest + tail;
    FilteredSplits(stops, next, rest, tail);
    var out := Filtered(stops, next, rest);
    Assoc([Passed(next, c)], out, Filtered(stops, AfterAll(stops, next, rest), tail));
    PassedText(st, next, c, "");
    TextOfSum([Passed(next, c)], out);
    assert "" + TextOf(out) == TextOf(out);
  }

  /** What came, up to the first `n` characters of its text. */
  function Until(view: View, n: nat): View
    requires n <= |view.text|
  {
    View(view.text[..n], seq(|view.frames|, j requires 0 <= j < |view.frames| =>
                               view.frames[j].(after := if view.frames[j].after < n then view.frames[j].after else n)))
  }

  /** The frame with which a stop ends the stream: nothing but the answer, which names the stop and says all
      the text that was shown and all the reasoning and calls that came. */
  predicate ClosedBy(c: Chunk, stop: string, content: string, came: seq<Chunk>) {
    && c.(result := None) == Chunk("", "", [], "", true, None)
    && c.result == Some(Answer(content, ReasoningOf(came), CallsOf(came), Some(stop)))
  }

  /** No frame has overtaken text ahead of the stop, `n` being how much of that there is. */
  ghost predicate NoneOvertakesUntil(stops: seq<string>, head: seq<Chunk>, n: nat) {
    var frames, gained := FramesFrom(head, 0), Overtaken(stops, "", head);
    |frames| == |gained| && forall j :: 0 <= j < |gained| ==> gained[j] == 0 || frames[j].after == n + gained[j]
  }

  /** `c` completes a stop in a stream that had none. */
  ghost predicate StopsWith(stops: seq<string>, run: string, head: seq<Chunk>, c: Chunk) {
    Clear(stops, run, head) && c.text != "" && FirstStop(stops, RunAfter(run, head) + c.text).Some?
  }

  /** A stream in which some stop occurs has a first frame that completes one. */
  lemma {:induction false} SomeFrameStops(stops: seq<string>, run: string, chunks: seq<Chunk>) returns (i: nat)
    requires RealStops(stops) && FirstStop(stops, run).None? && !Clear(stops, run, chunks)
    ensures i < |chunks| && StopsWith(stops, run, chunks[..i], chunks[i])
    decreases |chunks|
  {
    hide FirstStop, RealStops;
    var c, rest := chunks[0], chunks[1..];
    if c.text != "" && FirstStop(stops, run + c.text).Some? {
      i := 0;
      assert chunks[..0] == [];
    } else {
      NoStopInNothing(stops);
      var next := if c.text != "" then run + c.text else if EndsRun(c) then "" else run;
      var j := SomeFrameStops(stops, next, rest);
      i := j + 1;
      assert chunks[..i][0] == c && chunks[..i][1..] == rest[..j];
    }
  }

  /** A stream that a stop ends is sent up to the stop: the text before it, every frame that came, each
      having overtaken what was withheld then, and the frame that names the stop, all that was shown and
      all the reasoning and calls that came. It reads as what came up to the stop exactly when the text
      overtaken is text that the stop has cut. What comes later changes nothing. */
  lemma StoppedStreamIsCutThere(requested: seq<string>, head: seq<Chunk>, c: Chunk, rest: seq<Chunk>)
    requires StopsWith(Requested(requested), "", head, c)
    ensures var stops, out := Requested(requested), Sent(requested, head + ([c] + rest));
      var m := FirstStop(stops, RunAfter("", head) + c.text).value;
      && out != [] && CutAtStop(stops, head, c, m, InPlace(out[..|out| - 1]))
      && ClosedBy(out[|out| - 1], m.stop, TextOf(out[..|out| - 1]), head + [c])
  {
    hide FirstStop, Clear, Safe, Filtered, InPlace, AfterAll, RunAfter, RealStops, Visible, CutAtStop, ClosedBy, TextOf,
      Joined, ReasoningOf, CallsOf;
    var stops := Requested(requested);
    SomeStopAsked(stops, RunAfter("", head) + c.text);
    NoStopInNothing(stops);
    FilteredSplits(stops, NOTHING, head, [c] + rest);
    var last, front := AfterAll(stops, NOTHING, head), Filtered(stops, NOTHING, head);
    FilteredStop(stops, last, [c] + rest);
    var got, d := last.run + c.text, Safe(stops, last.run);
    var m := FirstStop(stops, got).value;
    var shown := got[d..m.at];
    var end := Stopped(Note(last, c).(emitted := last.emitted + [shown]), m.stop);
    var sent := front + Visible(c, shown);
    assert front + (Visible(c, shown) + [end]) == sent + [end];
    assert (sent + [end])[..|sent + [end]| - 1] == sent;
    SentUntilStop(stops, head, c);
    assert Joined([]) == "" && "" + TextOf(front) == TextOf(front) by { NothingJoined(); }
    EverythingIsRemembered(stops, NOTHING, head);
    assert "" + ReasoningOf(head) == ReasoningOf(head) && [] + CallsOf(head) == CallsOf(head);
    ClosingFrame(last, head, c, front, shown, m.stop);
  }

  lemma NothingJoined()
    ensures Joined([]) == ""
  {
  }

  lemma SomeStopAsked(stops: seq<string>, s: string)
    requires FirstStop(stops, s).Some?
    ensures stops != []
  {
  }

  lemma ClosingFrame(last: Memory, head: seq<Chunk>, c: Chunk, front: seq<Chunk>, shown: string, stop: string)
    requires Joined(last.emitted) == TextOf(front)
    requires last.reasoned == ReasoningOf(head) && last.calls == CallsOf(head)
    ensures ClosedBy(Stopped(Note(last, c).(emitted := last.emitted + [shown]), stop), stop,
      TextOf(front + Visible(c, shown)), head + [c])
  {
    hide TextOf, Joined, ReasoningOf, CallsOf;
    OneMoreFrame(head, c);
    JoinedOne(last.emitted, shown);
    TextOfSum(front, Visible(c, shown));
    TextOfVisible(c, shown, []);
    TextOfNothing();
    assert Visible(c, shown) + [] == Visible(c, shown) && shown + "" == shown;
  }

  /** `sent` is the text before the stop with the frames of `head`, each having overtaken what was withheld then. */
  ghost predicate CutAtStop(stops: seq<string>, head: seq<Chunk>, c: Chunk, m: Match, sent: View) {
    var came, n := InPlace(head + [c]), |sent.text|;
    && n + |RunAfter("", head) + c.text| == |came.text| + m.at
    && n <= |came.text| && sent.text == came.text[..n] && At(m.stop, came.text, n)
    && MovedBy(sent.frames, came.frames, Overtaken(stops, "", head))
    && (sent == Until(came, n) <==> NoneOvertakesUntil(stops, head, n))
  }

  lemma {:induction false} WithheldIs(stops: seq<string>, run: string, chunks: seq<Chunk>)
    ensures Withheld(stops, run, chunks) == RunAfter(run, chunks)[Safe(stops, RunAfter(run, chunks))..]
    decreases |chunks|
  {
    hide Safe;
    if chunks == [] {
    } else if chunks[0].text != "" {
      WithheldIs(stops, run + chunks[0].text, chunks[1..]);
    } else if EndsRun(chunks[0]) {
      WithheldIs(stops, "", chunks[1..]);
    } else {
      WithheldIs(stops, run, chunks[1..]);
    }
  }

  /** The run in hand is the end of the text that came. */
  lemma {:induction false} RunIsLast(run: string, chunks: seq<Chunk>) returns (ahead: string)
    ensures run + TextOf(chunks) == ahead + RunAfter(run, chunks)
    decreases |chunks|
  {
    if chunks == [] {
      ahead := "";
      assert run + "" == "" + run;
    } else if chunks[0].text != "" {
      ahead := RunIsLast(run + chunks[0].text, chunks[1..]);
      Assoc(run, chunks[0].text, TextOf(chunks[1..]));
    } else if EndsRun(chunks[0]) {
      var later := RunIsLast("", chunks[1..]);
      ahead := run + later;
      assert "" + TextOf(chunks[1..]) == TextOf(chunks[1..]);
      Assoc(run, later, RunAfter("", chunks[1..]));
    } else {
      ahead := RunIsLast(run, chunks[1..]);
      assert "" + TextOf(chunks[1..]) == TextOf(chunks[1..]);
    }
  }

  lemma SentUntilStop(stops: seq<string>, head: seq<Chunk>, c: Chunk)
    requires RealStops(stops) && StopsWith(stops, "", head, c)
    ensures FirstStop(stops, "").None?
    ensures var run, got := RunAfter("", head), RunAfter("", head) + c.text;
      var m := FirstStop(stops, got).value;
      && Safe(stops, run) <= m.at <= |got|
      && CutAtStop(stops, head, c, m,
                   InPlace(Filtered(stops, NOTHING, head) + Visible(c, got[Safe(stops, run)..m.at])))
  {
    hide FirstStop, Clear, Safe, Filtered, RealStops, Visible, FramesFrom, TextOf, Overtaken, MovedBy, RunAfter, At;
    NoStopInNothing(stops);
    var run, got := RunAfter("", head), RunAfter("", head) + c.text;
    var d, m, front := Safe(stops, run), FirstStop(stops, got).value, Filtered(stops, NOTHING, head);
    FilteredSplits(stops, NOTHING, head, []);
    StopStartsInTail(stops, run, c.text, m.stop, m.at);
    AtBounds(m.stop, got, m.at);
    var sent, came := InPlace(front + Visible(c, got[d..m.at])), InPlace(head + [c]);
    TextUntilStop(stops, head, c, m);
    var n := |sent.text|;
    FramesUntilStop(stops, head, c, got[d..m.at]);
    FramesWithin(front + Visible(c, got[d..m.at]), 0);
    UntilExactly(sent, came, Overtaken(stops, "", head), n);
    FramesOfHead(head, c);
    FramesCounted(stops, "", head, 0);
  }

  lemma FramesOfHead(head: seq<Chunk>, c: Chunk)
    requires c.text != ""
    ensures FramesFrom(head + [c], 0) == FramesFrom(head, 0)
    ensures TextOf(head + [c]) == TextOf(head) + c.text
  {
    hide Bare;
    FramesFromSum(head, [c], 0);
    TextOfSum(head, [c]);
    assert [c][1..] == [] && FramesFrom(head, 0) + [] == FramesFrom(head, 0) && c.text + "" == c.text;
  }

  /** What is sent is the text before the stop. */
  lemma TextUntilStop(stops: seq<string>, head: seq<Chunk>, c: Chunk, m: Match)
    requires RealStops(stops) && Clear(stops, "", head) && FirstStop(stops, "").None? && c.text != ""
    requires var run := RunAfter("", head); Safe(stops, run) <= m.at <= |run + c.text| && At(m.stop, run + c.text, m.at)
    ensures var run, got, came := RunAfter("", head), RunAfter("", head) + c.text, TextOf(head + [c]);
      var text := TextOf(Filtered(stops, NOTHING, head) + Visible(c, got[Safe(stops, run)..m.at]));
      && |text| + |got| == |came| + m.at && |text| <= |came| && text == came[..|text|] && At(m.stop, came, |text|)
  {
    hide FirstStop, Clear, Safe, Filtered, RealStops, Visible, FramesFrom, TextOf, RunAfter, At;
    var run, got, front := RunAfter("", head), RunAfter("", head) + c.text, Filtered(stops, NOTHING, head);
    var d := Safe(stops, run);
    var ahead := SentBeforeRun(stops, head);
    FramesOfHead(head, c);
    Assoc(ahead, run, c.text);
    var came := TextOf(head + [c]);
    TextOfSum(front, Visible(c, got[d..m.at]));
    TextOfVisible(c, got[d..m.at], []);
    TextOfNothing();
    assert Visible(c, got[d..m.at]) + [] == Visible(c, got[d..m.at]) && got[d..m.at] + "" == got[d..m.at];
    BeforeStop(ahead, run, c.text, d, m.at);
    AtBounds(m.stop, got, m.at);
    AtAfter(m.stop, ahead, got, m.at);
  }

  lemma AtAfter(p: string, ahead: string, s: string, i: nat)
    requires At(p, s, i)
    ensures At(p, ahead + s, |ahead| + i)
  {
    assert (ahead + s)[|ahead|..] == s;
    AtDrop(p, ahead + s, |ahead|, |ahead| + i);
  }

  /** What came is what came before the run in hand and the run; what was sent is that and the safe part of the run. */
  lemma SentBeforeRun(stops: seq<string>, head: seq<Chunk>) returns (ahead: string)
    requires RealStops(stops) && Clear(stops, "", head) && FirstStop(stops, "").None?
    ensures var run := RunAfter("", head);
      TextOf(head) == ahead + run && TextOf(Filtered(stops, NOTHING, head)) == ahead + run[..Safe(stops, run)]
  {
    hide FirstStop, Clear, Safe, Filtered, RealStops, TextOf, RunAfter, Withheld;
    var run, front := RunAfter("", head), Filtered(stops, NOTHING, head);
    ahead := RunIsLast("", head);
    NothingIsLost(stops, NOTHING, head);
    NothingHeld(stops);
    WithheldIs(stops, "", head);
    assert "" + TextOf(head) == TextOf(head) && ""[0..] + TextOf(head) == TextOf(head);
    TakenFront(TextOf(front), run, ahead, Safe(stops, run));
  }

  lemma TakenFront(front: string, run: string, ahead: string, d: nat)
    requires d <= |run| && front + run[d..] == ahead + run
    ensures front == ahead + run[..d]
  {
    assert run == run[..d] + run[d..];
    assert ahead + run == ahead + run[..d] + run[d..];
    assert |front| == |ahead + run[..d]|;
    assert front == (front + run[d..])[..|front|];
    assert ahead + run[..d] == (ahead + run[..d] + run[d..])[..|front|];
  }

  lemma BeforeStop(ahead: string, run: string, text: string, d: nat, at: nat)
    requires d <= |run| && d <= at <= |run + text|
    ensures ahead + run[..d] + (run + text)[d..at] == (ahead + (run + text))[..|ahead| + at]
  {
    var got := run + text;
    assert run[..d] == got[..d] && got[..d] + got[d..at] == got[..at];
    Assoc(ahead, run[..d], got[d..at]);
    assert (ahead + got)[..|ahead| + at] == ahead + got[..at];
  }

  lemma FramesUntilStop(stops: seq<string>, head: seq<Chunk>, c: Chunk, shown: string)
    requires RealStops(stops) && Clear(stops, "", head) && FirstStop(stops, "").None? && c.text != ""
    ensures MovedBy(FramesFrom(Filtered(stops, NOTHING, head) + Visible(c, shown), 0),
                    FramesFrom(head + [c], 0), Overtaken(stops, "", head))
  {
    hide FirstStop, Clear, Safe, Filtered, RealStops, Visible, FramesFrom, TextOf, Overtaken, MovedBy;
    var front := Filtered(stops, NOTHING, head);
    FramesMoveExactly(stops, NOTHING, head, 0);
    NothingHeld(stops);
    FramesOfHead(head, c);
    FramesFromSum(front, Visible(c, shown), 0);
    FramesAfterText(c, shown, [], |TextOf(front)|);
    assert Visible(c, shown) + [] == Visible(c, shown);
    NoFramesInNothing(|TextOf(front)| + |shown|);
    assert FramesFrom(front, 0) + [] == FramesFrom(front, 0);
  }

  lemma NoFramesInNothing(n: nat)
    ensures FramesFrom([], n) == []
  {
  }

  lemma UntilExactly(sent: View, came: View, gained: seq<nat>, n: nat)
    requires MovedBy(sent.frames, came.frames, gained) && n <= |came.text| && sent.text == came.text[..n]
    requires forall f :: f in sent.frames ==> f.after <= n
    ensures sent == Until(came, n) <==>
      forall j :: 0 <= j < |gained| ==> gained[j] == 0 || came.frames[j].after == n + gained[j]
  {
    var until := Until(came, n);
    forall j | 0 <= j < |gained|
      ensures sent.frames[j] == until.frames[j] <==> gained[j] == 0 || came.frames[j].after == n + gained[j]
    {
      assert sent.frames[j] in sent.frames && sent.frames[j].frame == came.frames[j].frame;
      assert sent.frames[j].after + gained[j] == came.frames[j].after;
    }
    if forall j :: 0 <= j < |gained| ==> sent.frames[j] == until.frames[j] {
      assert sent.frames == until.frames;
    }
  }

  // ----- Frames that do overtake text -----

  lemma HalfAStop()
    ensures FirstStop(["ab"], "a").None? && Held(["ab"], "a") == 1
  {
    hide FirstStop;
    forall i
      ensures !At("ab", "a", i)
    {
      AtBounds("ab", "a", i);
    }
    assert "a"[|"a"| - 1..] == ["ab"][0][..1];
  }

  const HALF := Chunk("a", "", [], "", false, None)
  const PROGRESS := Chunk("", "", [], "working", false, None)
  const END := Chunk("", "", [], "", true, None)

  /** A frame that says the backend is working is sent ahead of text that came before it. */
  lemma ProgressOvertakesText()
    ensures Sent(["ab"], [HALF, PROGRESS, END]) == [PROGRESS, HALF, END]
    ensures InPlace([PROGRESS, HALF, END]) != InPlace([HALF, PROGRESS, END])
  {
    hide FirstStop, Filtered, InPlace, Requested, Note;
    OneStopAsked();
    NoStopInNothing(["ab"]);
    HalfAStop();
    AllWithheld(["ab"], [HALF, PROGRESS, END]);
    ProgressThenEnd();
    NothingNoted(HALF);
    assert [HALF, PROGRESS, END][1..] == [PROGRESS, END];
    OutOfPlace();
  }

  lemma NothingNoted(c: Chunk)
    requires c.reasoning == "" && c.calls == []
    ensures Note(NOTHING, c) == NOTHING
  {
    assert "" + "" == "";
  }

  /** A first text that is all withheld leaves nothing to send yet. */
  lemma AllWithheld(stops: seq<string>, chunks: seq<Chunk>)
    requires RealStops(stops) && FirstStop(stops, "").None? && chunks != [] && chunks[0].text != ""
    requires FirstStop(stops, chunks[0].text).None? && Safe(stops, chunks[0].text) == 0
    ensures Filtered(stops, NOTHING, chunks)
         == Filtered(stops, Note(NOTHING, chunks[0]).(run := chunks[0].text, emitted := [""]), chunks[1..])
  {
    hide FirstStop, Safe, Note, EndRun, Passed, Flushed;
    var text := chunks[0].text;
    assert "" + text == text && text[0..0] == "";
    NothingHeld(stops);
    var out := Filtered(stops, Note(NOTHING, chunks[0]).(run := text, emitted := [] + [""]), chunks[1..]);
    assert [] + out == out && [] + [""] == [""];
  }

  lemma OutOfPlace()
    ensures InPlace([PROGRESS, HALF, END]) != InPlace([HALF, PROGRESS, END])
  {
    hide Bare;
    var came, sent := [HALF, PROGRESS, END], [PROGRESS, HALF, END];
    assert came[1..] == [PROGRESS, END] && [PROGRESS, END][0] == PROGRESS;
    assert FramesFrom(came, 0) == FramesFrom([PROGRESS, END], 1);
    assert FramesFrom(came, 0)[0] == Placed(1, Bare(PROGRESS));
    assert FramesFrom(sent, 0)[0] == Placed(0, Bare(PROGRESS));
  }

  lemma OneStopAsked()
    ensures Requested(["ab"]) == ["ab"]
  {
    assert ["ab"][1..] == [];
  }

  lemma ProgressThenEnd()
    ensures FirstStop(["ab"], "a").None?
    ensures Filtered(["ab"], Memory("a", [""], "", []), [PROGRESS, END]) == [PROGRESS, HALF, END]
  {
    hide FirstStop, Held, Filtered;
    var stops, st := ["ab"], Memory("a", [""], "", []);
    HalfAStop();
    StepPass(stops, st, [PROGRESS, END], 0);
    assert [PROGRESS, END][0..] == [PROGRESS, END] && [PROGRESS, END][0 + 1..] == [END];
    assert "" + "" == "" && Note(st, PROGRESS) == st;
    StepEnd(stops, st, [END], 0);
    assert [END][0..] == [END] && [END][0 + 1..] == [];
    NothingMoreComes(stops, EndRun(stops, Note(st, END)));
  }
}
