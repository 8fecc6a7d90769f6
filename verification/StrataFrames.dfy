/** What becomes of each frame of a filtered stream, and of what rides with its text. */
module StrataFrames {
  import opened Options
  import opened Text
  import opened StopStrings
  import opened Strata
  import opened StrataStream
  import opened StrataOrder

  ghost predicate SomeText(chunks: seq<Chunk>) {
    exists i :: 0 <= i < |chunks| && chunks[i].text != ""
  }

  lemma SomeTextFirst(chunks: seq<Chunk>)
    requires chunks != []
    ensures SomeText(chunks) <==> chunks[0].text != "" || SomeText(chunks[1..])
  {
    if SomeText(chunks[1..]) {
      var i :| 0 <= i < |chunks[1..]| && chunks[1..][i].text != "";
      assert chunks[i + 1].text != "";
    }
    if SomeText(chunks) && chunks[0].text == "" {
      var i :| 0 <= i < |chunks| && chunks[i].text != "";
      assert chunks[1..][i - 1].text != "";
    }
  }

  /** Something counts as emitted once any text has come, shown or not. */
  lemma {:induction false} EmittedExactly(stops: seq<string>, st: Memory, chunks: seq<Chunk>)
    requires st.run != "" ==> st.emitted != []
    ensures var last := AfterAll(stops, st, chunks);
      && (last.emitted != [] <==> st.emitted != [] || SomeText(chunks))
      && (last.run != "" ==> last.emitted != [])
    decreases |chunks|
  {
    hide FirstStop, Held, SomeText;
    if chunks == [] {
      assert !SomeText(chunks) by { NoTextInNothing(); }
    } else {
      var c := chunks[0];
      SomeTextFirst(chunks);
      var next := if c.text != "" then AfterText(stops, st, c) else if EndsRun(c) then EndRun(stops, Note(st, c))
        else Note(st, c);
      assert next.run != "" ==> next.emitted != [];
      EmittedExactly(stops, next, chunks[1..]);
    }
  }

  lemma NoTextInNothing()
    ensures !SomeText([])
  {
  }

  /** A frame without text, in its place: after all that was sent of what came before it -- all the text of it, if the
      frame is the last one or brings calls or reasoning -- and just as it came, but that an answer it closes is made
      to say what was streamed, if any text came. */
  lemma FramePasses(requested: seq<string>, head: seq<Chunk>, c: Chunk, rest: seq<Chunk>) returns (before: seq<Chunk>)
    requires Requested(requested) != [] && Clear(Requested(requested), "", head) && c.text == ""
    ensures var sent := if c.done && c.result.Some? && SomeText(head)
        then c.(result := Some(c.result.value.(content := TextOf(before)))) else c;
      before + [sent] <= Sent(requested, head + ([c] + rest))
    ensures Others(before) == Others(head)
    ensures if c.done || c.calls != [] || c.reasoning != "" then TextOf(before) == TextOf(head)
      else before == Sent(requested, head)
  {
    hide FirstStop, Clear, Safe, Filtered, AfterAll, RunAfter, RealStops, Withheld, Flushed, Joined, TextOf, Others,
      SomeText;
    var stops := Requested(requested);
    NoStopInNothing(stops);
    var last, front := AfterAll(stops, NOTHING, head), Filtered(stops, NOTHING, head);
    FilteredSplits(stops, NOTHING, head, [c] + rest);
    EmittedExactly(stops, NOTHING, head);
    NothingJoined();
    assert "" + TextOf(front) == TextOf(front);
    SentBefore(stops, head);
    if EndsRun(c) {
      var held := last.run[Safe(stops, last.run)..];
      before := front + Flushed(held);
      EndFramePasses(stops, last, c, rest, front);
    } else {
      before := front;
      AsideFramePasses(stops, last, c, rest, front);
    }
  }

  /** What has been sent and what is withheld are the text that came. */
  lemma SentBefore(stops: seq<string>, head: seq<Chunk>)
    requires RealStops(stops) && Clear(stops, "", head) && FirstStop(stops, "").None?
    ensures var front, run := Filtered(stops, NOTHING, head), RunAfter("", head);
      TextOf(front) + run[Safe(stops, run)..] == TextOf(head) && Others(front) == Others(head)
  {
    hide FirstStop, Clear, Safe, Filtered, RunAfter, RealStops, Withheld, TextOf, Others;
    NothingIsLost(stops, NOTHING, head);
    WithheldIs(stops, "", head);
    NothingHeld(stops);
    assert ""[0..] + TextOf(head) == TextOf(head);
  }

  lemma EndFramePasses(stops: seq<string>, st: Memory, c: Chunk, rest: seq<Chunk>, front: seq<Chunk>)
    requires RealStops(stops) && FirstStop(stops, st.run).None? && EndsRun(c) && Joined(st.emitted) == TextOf(front)
    requires st.run != "" ==> st.emitted != []
    ensures var held := st.run[Safe(stops, st.run)..];
      var before := front + Flushed(held);
      var sent := if c.done && c.result.Some? && st.emitted != []
        then c.(result := Some(c.result.value.(content := TextOf(before)))) else c;
      && before + [sent] <= front + Filtered(stops, st, [c] + rest)
      && TextOf(before) == TextOf(front) + held && Others(before) == Others(front)
  {
    hide FirstStop, Safe, Filtered, RealStops, Flushed, Joined, TextOf, Others;
    var held := st.run[Safe(stops, st.run)..];
    var ended, all := EndRun(stops, Note(st, c)), [c] + rest;
    assert all[0..] == all && all[0] == c;
    StepEnd(stops, st, all, 0);
    var later := Filtered(stops, ended, all[0 + 1..]);
    assert front + (Flushed(held) + [Passed(ended, c)] + later) == front + Flushed(held) + [Passed(ended, c)] + later;
    SentEnd(stops, st, c, [], 0);
    TextOfSum(front, Flushed(held));
    OthersSum(front, Flushed(held));
    TextOfVisible(c, held, []);
    OthersOfText(c, held, []);
    NothingInNothing();
    assert Flushed(held) + [] == Flushed(held) && held + "" == held && Others(front) + [] == Others(front);
    assert held != "" ==> st.run != "";
  }

  lemma NothingInNothing()
    ensures TextOf([]) == "" && Others([]) == []
  {
  }

  lemma AsideFramePasses(stops: seq<string>, st: Memory, c: Chunk, rest: seq<Chunk>, front: seq<Chunk>)
    requires RealStops(stops) && FirstStop(stops, st.run).None? && c.text == "" && !EndsRun(c)
    ensures front + [c] <= front + Filtered(stops, st, [c] + rest)
  {
    hide FirstStop, Safe, Filtered, RealStops;
    var all := [c] + rest;
    assert all[0..] == all && all[0] == c;
    StepPass(stops, st, all, 0);
    var later := Filtered(stops, Note(st, c), all[0 + 1..]);
    assert front + ([c] + later) == front + [c] + later;
  }

  /** A text frame is sent as it came, with all that rides with it, but for the text `shown`; or not at all, when
      none is. */
  function Showing(c: Chunk, shown: string): seq<Chunk> {
    if shown == "" then [] else [c.(text := shown)]
  }

  /** A text frame that completes no stop goes out, or does not, right after all that was sent before it. */
  lemma TextPasses(requested: seq<string>, head: seq<Chunk>, c: Chunk, rest: seq<Chunk>) returns (shown: string)
    requires Requested(requested) != [] && Clear(Requested(requested), "", head + [c]) && c.text != ""
    ensures Sent(requested, head) + Showing(c, shown) == Sent(requested, head + [c])
    ensures Sent(requested, head + [c]) <= Sent(requested, head + ([c] + rest))
  {
    hide FirstStop, Clear, Safe, Filtered, AfterAll, RunAfter, RealStops;
    var stops := Requested(requested);
    NoStopInNothing(stops);
    ClearFront(stops, "", head, c);
    FilteredSplits(stops, NOTHING, head, [c]);
    FilteredSplits(stops, NOTHING, head + [c], rest);
    assert head + [c] + rest == head + ([c] + rest);
    var last := AfterAll(stops, NOTHING, head);
    shown := OneText(stops, last, c);
  }

  lemma {:induction false} ClearFront(stops: seq<string>, run: string, head: seq<Chunk>, c: Chunk)
    requires Clear(stops, run, head + [c]) && c.text != ""
    ensures Clear(stops, run, head) && FirstStop(stops, RunAfter(run, head) + c.text).None?
    decreases |head|
  {
    hide FirstStop, Safe;
    if head == [] {
      assert [] + [c] == [c] && [c][1..] == [];
    } else {
      assert (head + [c])[0] == head[0] && (head + [c])[1..] == head[1..] + [c];
      var next := if head[0].text != "" then run + head[0].text else if EndsRun(head[0]) then "" else run;
      ClearFront(stops, next, head[1..], c);
    }
  }

  lemma OneText(stops: seq<string>, st: Memory, c: Chunk) returns (shown: string)
    requires RealStops(stops) && FirstStop(stops, st.run).None? && FirstStop(stops, st.run + c.text).None?
      && c.text != ""
    ensures Filtered(stops, st, [c]) == Showing(c, shown)
  {
    hide FirstStop, Safe, RealStops;
    SafeGrows(stops, st.run, c.text);
    shown := (st.run + c.text)[Safe(stops, st.run)..Safe(stops, st.run + c.text)];
    assert [c][1..] == [] && Visible(c, shown) + [] == Visible(c, shown);
  }

  /** And so does the one that completes a stop, ahead of the frame that closes the stream. */
  lemma StoppedTextPasses(requested: seq<string>, head: seq<Chunk>, c: Chunk, rest: seq<Chunk>)
    returns (shown: string, last: Chunk)
    requires StopsWith(Requested(requested), "", head, c)
    ensures Sent(requested, head + ([c] + rest)) == Sent(requested, head) + Showing(c, shown) + [last]
  {
    hide FirstStop, Clear, Safe, Filtered, AfterAll, RunAfter, RealStops, Note, Stopped;
    var stops := Requested(requested);
    SomeStopAsked(stops, RunAfter("", head) + c.text);
    NoStopInNothing(stops);
    FilteredSplits(stops, NOTHING, head, [c] + rest);
    var st := AfterAll(stops, NOTHING, head);
    FilteredStop(stops, st, [c] + rest);
    var m := FirstStop(stops, st.run + c.text).value;
    shown := (st.run + c.text)[Safe(stops, st.run)..m.at];
    last := Stopped(Note(st, c).(emitted := st.emitted + [shown]), m.stop);
    Regroup(Sent(requested, head), Showing(c, shown), [last]);
  }

  const CITED := Chunk("a", "", [], "cited", false, None)

  /** What rides with a text that has to wait is not sent when the text is. */
  lemma RiderOfWithheldTextIsLost()
    ensures Sent(["ab"], [CITED, END]) == [CITED.(aside := ""), END]
  {
    hide FirstStop, Held, Filtered, Requested, Note;
    var stops, st := ["ab"], Memory("a", [""], "", []);
    OneStopAsked();
    NoStopInNothing(stops);
    HalfAStop();
    NothingNoted(CITED);
    AllWithheld(stops, [CITED, END]);
    assert [CITED, END][1..] == [END];
    StepEnd(stops, st, [END], 0);
    assert [END][0..] == [END] && [END][0 + 1..] == [];
    NothingMoreComes(stops, EndRun(stops, Note(st, END)));
  }

  // ----- Which stop is named -----

  /** Of the stops asked for, `m` is one that occurs first in `s`, and of those the one first in the list; an
      empty one is none. */
  ghost predicate FirstAsked(asked: seq<string>, s: string, m: Match) {
    exists i :: FirstAskedAt(asked, s, m, i)
  }

  ghost predicate FirstAskedAt(asked: seq<string>, s: string, m: Match, i: int) {
    && 0 <= i < |asked| && asked[i] == m.stop != "" && At(m.stop, s, m.at)
    && forall j, k :: 0 <= j < |asked| && asked[j] != "" && At(asked[j], s, k) ==> m.at < k || (m.at == k && i <= j)
  }

  /** The stop a stream is searched for and named by. */
  lemma NamedIsFirstAsked(asked: seq<string>, s: string)
    ensures var found := FirstStop(Requested(asked), s);
      if found.Some? then FirstAsked(asked, s, found.value)
      else forall x, k :: x in asked && x != "" ==> !At(x, s, k)
  {
    hide FirstStop, FirstAsked;
    var found := FirstStop(Requested(asked), s);
    if found.Some? {
      FoundIsFirst(Requested(asked), s);
      FirstOfRequested(asked, s, found.value);
    }
  }

  lemma {:induction false} FoundIsFirst(stops: seq<string>, s: string)
    requires RealStops(stops) && FirstStop(stops, s).Some?
    ensures FirstAsked(stops, s, FirstStop(stops, s).value)
  {
    hide At;
    var n, m := |stops| - 1, FirstStop(stops, s).value;
    var x, rest := stops[n], FirstStop(stops[..n], s);
    if rest.Some? && m == rest.value {
      FoundIsFirst(stops[..n], s);
      var i :| FirstAskedAt(stops[..n], s, m, i);
      assert forall j :: 0 <= j < n ==> stops[..n][j] == stops[j];
      assert FirstAskedAt(stops, s, m, i);
    } else {
      assert forall j :: 0 <= j < n ==> stops[j] in stops[..n];
      assert FirstAskedAt(stops, s, m, n);
    }
  }

  lemma {:induction false} FirstOfRequested(asked: seq<string>, s: string, m: Match)
    requires FirstAsked(Requested(asked), s, m)
    ensures FirstAsked(asked, s, m)
  {
    hide At, FirstAskedAt;
    var i :| FirstAskedAt(Requested(asked), s, m, i);
    SomeAsked(Requested(asked), s, m, i);
    if asked[0] != "" {
      assert Requested(asked) == [asked[0]] + Requested(asked[1..]);
      if i == 0 {
        FirstInFront(asked, s, m);
      } else {
        FirstOfRest(asked[0], Requested(asked[1..]), s, m, i);
        FirstOfRequested(asked[1..], s, m);
        FirstFurtherOn(asked, s, m);
      }
    } else {
      assert Requested(asked) == Requested(asked[1..]);
      FirstOfRequested(asked[1..], s, m);
      FirstFurtherOn(asked, s, m);
    }
  }

  lemma SomeAsked(asked: seq<string>, s: string, m: Match, i: int)
    requires FirstAskedAt(asked, s, m, i)
    ensures asked != []
  {
  }

  lemma FirstInFront(asked: seq<string>, s: string, m: Match)
    requires asked != [] && asked[0] != "" && FirstAskedAt(Requested(asked), s, m, 0)
    ensures FirstAsked(asked, s, m)
  {
    hide At;
    forall j | 0 <= j < |asked| && asked[j] != ""
      ensures asked[j] in Requested(asked)
    {
      assert asked[j] in asked;
    }
    assert FirstAskedAt(asked, s, m, 0);
  }

  lemma FirstOfRest(x: string, rest: seq<string>, s: string, m: Match, i: int)
    requires FirstAskedAt([x] + rest, s, m, i) && i != 0 && x != ""
    ensures FirstAsked(rest, s, m)
    ensures forall k :: At(x, s, k) ==> m.at < k
  {
    hide At;
    var all := [x] + rest;
    assert all[0] == x && forall j :: 0 <= j < |rest| ==> rest[j] == all[j + 1];
    assert FirstAskedAt(rest, s, m, i - 1);
  }

  lemma FirstFurtherOn(asked: seq<string>, s: string, m: Match)
    requires asked != [] && FirstAsked(asked[1..], s, m)
    requires asked[0] != "" ==> forall k :: At(asked[0], s, k) ==> m.at < k
    ensures FirstAsked(asked, s, m)
  {
    hide At;
    var i :| FirstAskedAt(asked[1..], s, m, i);
    assert forall j :: 0 < j < |asked| ==> asked[j] == asked[1..][j - 1];
    assert FirstAskedAt(asked, s, m, i + 1);
  }
}
