/**
  Strata's answer stream with the caller's stop strings enforced on its visible text. The
  frames come from upstream in any number and order; text frames between two others make a run.
 */
module Strata {
  import opened Options
  import opened Text
  import opened StopStrings

  datatype Answer = Answer(content: string, reasoning: string, calls: seq<string>, stopSequence: Option<string>)

  /** A frame. `aside` is whatever else it carries, alone or riding with its text: progress, citations,
      audio, log probabilities. */
  datatype Chunk = Chunk(
    text: string, reasoning: string, calls: seq<string>, aside: string, done: bool, result: Option<Answer>)

  /** What the stream remembers: the run received so far, what was emitted (and whether anything
      was), the reasoning and the calls. */
  datatype Memory = Memory(run: string, emitted: seq<string>, reasoned: string, calls: seq<string>)

  const NOTHING := Memory("", [], "", [])

  function Note(st: Memory, c: Chunk): Memory {
    st.(reasoned := st.reasoned + c.reasoning, calls := st.calls + c.calls)
  }

  function Visible(c: Chunk, text: string): seq<Chunk> {
    if text == "" then [] else [c.(text := text)]
  }

  function Flushed(text: string): seq<Chunk> {
    if text == "" then [] else [Chunk(text, "", [], "", false, None)]
  }

  /** The closing frame of an answer a stop has ended. */
  function Stopped(st: Memory, stop: string): Chunk {
    Chunk("", "", [], "", true, Some(Answer(Joined(st.emitted), st.reasoned, st.calls, Some(stop))))
  }

  /** A frame without text, with the answer it closes made to say what was emitted. */
  function Passed(st: Memory, c: Chunk): Chunk {
    if c.done && c.result.Some? && st.emitted != [] then
      c.(result := Some(c.result.value.(content := Joined(st.emitted))))
    else c
  }

  /** A frame that ends a run of text. */
  predicate EndsRun(c: Chunk) {
    c.text == "" && (c.done || c.calls != [] || c.reasoning != "")
  }

  function EndRun(stops: seq<string>, st: Memory): Memory {
    var held := st.run[Safe(stops, st.run)..];
    st.(run := "", emitted := st.emitted + if held == "" then [] else [held])
  }

  /** What comes out of `chunks`, decided from all the text of a run at once. */
  function Filtered(stops: seq<string>, st: Memory, chunks: seq<Chunk>): seq<Chunk>
    requires RealStops(stops) && FirstStop(stops, st.run).None?
    decreases |chunks|
  {
    if chunks == [] then []
    else
      var c, rest, d := chunks[0], chunks[1..], Safe(stops, st.run);
      var noted := Note(st, c);
      if c.text != "" then
        var got := st.run + c.text;
        match FirstStop(stops, got)
        case Some(m) =>
          StopStartsInTail(stops, st.run, c.text, m.stop, m.at);
          Visible(c, got[d..m.at]) + [Stopped(noted.(emitted := st.emitted + [got[d..m.at]]), m.stop)]
        case None =>
          SafeGrows(stops, st.run, c.text);
          var shown := got[d..Safe(stops, got)];
          Visible(c, shown) + Filtered(stops, noted.(run := got, emitted := st.emitted + [shown]), rest)
      else if EndsRun(c) then
        NoStopInNothing(stops);
        var ended := EndRun(stops, noted);
        Flushed(st.run[d..]) + [Passed(ended, c)] + Filtered(stops, ended, rest)
      else
        [Passed(noted, c)] + Filtered(stops, noted, rest)
  }

  // ----- The stream as it runs, remembering only the withheld tail -----

  method FirstMatch(stops: seq<string>, pending: string) returns (best: Option<Match>)
    ensures best == FirstStop(stops, pending)
  {
    hide FirstStop, Find;
    best := None;
    NoStopAmongNone(pending);
    for i := 0 to |stops|
      invariant best == FirstStop(stops[..i], pending)
    {
      OneMoreStop(stops, pending, i);
      var at := Find(stops[i], pending);
      if at >= 0 && (best.None? || at < best.value.at) {
        best := Some(Match(at, stops[i]));
      }
    }
    assert stops[..|stops|] == stops;
  }

  lemma NoStopAmongNone(s: string)
    ensures FirstStop([], s) == None
  {
  }

  lemma OneMoreStop(stops: seq<string>, s: string, i: nat)
    requires i < |stops|
    ensures var before, at := FirstStop(stops[..i], s), Find(stops[i], s);
      FirstStop(stops[..i + 1], s)
      == if at >= 0 && (before.None? || at < before.value.at) then Some(Match(at, stops[i])) else before
  {
    hide Find, At;
    assert stops[..i + 1][..i] == stops[..i];
  }

  lemma HeldIsLongest(stops: seq<string>, s: string, k: nat)
    requires k <= |s| && (k == 0 || Partial(stops, s, k)) && forall j :: k < j ==> !Partial(stops, s, j)
    ensures Held(stops, s) == k
  {
  }

  /** The tail of `s` of length `k` begins the stop with index `i`. */
  predicate PartialOf(stops: seq<string>, s: string, i: int, k: int) {
    0 <= i < |stops| && 0 < k <= |s| && k < |stops[i]| && s[|s| - k..] == stops[i][..k]
  }

  method Keep(stops: seq<string>, pending: string) returns (keep: nat)
    ensures keep <= |pending| && keep == Held(stops, pending)
  {
    keep := 0;
    for i := 0 to |stops|
      invariant keep <= |pending| && (keep == 0 || Partial(stops, pending, keep))
      invariant forall j, k :: j < i && PartialOf(stops, pending, j, k) ==> k <= keep
    {
      var stop := stops[i];
      var length := 1;
      while length < |stop| && length <= |pending|
        invariant length >= 1
        invariant keep <= |pending| && (keep == 0 || Partial(stops, pending, keep))
        invariant forall j, k :: j < i && PartialOf(stops, pending, j, k) ==> k <= keep
        invariant forall k :: k < length && PartialOf(stops, pending, i, k) ==> k <= keep
      {
        if pending[|pending| - length..] == stop[..length] && length > keep {
          keep := length;
          assert PartialOf(stops, pending, i, keep);
        }
        length := length + 1;
      }
    }
    forall k | keep < k
      ensures !Partial(stops, pending, k)
    {
      if Partial(stops, pending, k) {
        var j :| 0 <= j < |stops| && k < |stops[j]| && pending[|pending| - k..] == stops[j][..k];
        assert PartialOf(stops, pending, j, k);
      }
    }
    HeldIsLongest(stops, pending, keep);
  }

  function Requested(stops: seq<string>): (r: seq<string>)
    ensures RealStops(r)
    ensures forall x :: x in r <==> x in stops && x != ""
  {
    if stops == [] then []
    else
      assert forall x :: x in stops <==> x == stops[0] || x in stops[1..];
      (if stops[0] != "" then [stops[0]] else []) + Requested(stops[1..])
  }

  /** What a caller asking for these stops is sent. */
  function Sent(requested: seq<string>, chunks: seq<Chunk>): seq<Chunk> {
    var stops := Requested(requested);
    if stops == [] then chunks
    else
      NoStopInNothing(stops);
      Filtered(stops, NOTHING, chunks)
  }

  /** `stream`: searching and withholding only the tail it keeps, it sends what a filter that
      kept the whole run would. */
  method Stream(requested: seq<string>, chunks: seq<Chunk>) returns (out: seq<Chunk>)
    ensures out == Sent(requested, chunks)
    ensures (forall stop :: stop in requested ==> stop == "") ==> out == chunks
  {
    hide FirstStop, Held, Safe, RealStops, Filtered;
    var stops := Requested(requested);
    if stops == [] {
      return chunks;
    }
    assert stops[0] in stops;
    NoStopInNothing(stops);
    NothingHeld(stops);
    var pending, emitted, reasoned, calls := "", [], "", [];
    ghost var st := NOTHING;
    out := [];
    assert chunks[0..] == chunks;
    for i := 0 to |chunks|
      invariant FirstStop(stops, st.run).None?
      invariant pending == st.run[Safe(stops, st.run)..]
      invariant st == Memory(st.run, emitted, reasoned, calls)
      invariant out + Filtered(stops, st, chunks[i..]) == Filtered(stops, NOTHING, chunks)
    {
      var chunk := chunks[i];
      ghost var before := out;
      reasoned := reasoned + chunk.reasoning;
      calls := calls + chunk.calls;
      if chunk.text != "" {
        pending := pending + chunk.text;
        var best := FirstMatch(stops, pending);
        if best.Some? {
          StepStop(stops, st, chunks, i);
          var visible := pending[..best.value.at];
          emitted := emitted + [visible];
          var last := Visible(chunk, visible) + [Stopped(Memory("", emitted, reasoned, calls), best.value.stop)];
          return out + last;
        }
        StepText(stops, st, chunks, i);
        var keep := Keep(stops, pending);
        var visible := pending[..|pending| - keep];
        pending := pending[|pending| - keep..];
        emitted := emitted + [visible];
        out := out + Visible(chunk, visible);
        st := Memory(st.run + chunk.text, emitted, reasoned, calls);
        Regroup(before, Visible(chunk, visible), Filtered(stops, st, chunks[i + 1..]));
      } else if EndsRun(chunk) {
        StepEnd(stops, st, chunks, i);
        var flushed := Flushed(pending);
        if pending != "" {
          emitted := emitted + [pending];
          pending := "";
        }
        var now := flushed + [Passed(Memory("", emitted, reasoned, calls), chunk)];
        out := out + now;
        ghost var ended := EndRun(stops, Note(st, chunk));
        st := Memory("", emitted, reasoned, calls);
        assert ended.emitted == emitted && ended == st;
        Regroup(before, now, Filtered(stops, st, chunks[i + 1..]));
      } else {
        StepPass(stops, st, chunks, i);
        var now := [Passed(Memory("", emitted, reasoned, calls), chunk)];
        out := out + now;
        st := Note(st, chunk);
        assert now == [Passed(st, chunk)];
        Regroup(before, now, Filtered(stops, st, chunks[i + 1..]));
      }
    }
    NothingMoreComes(stops, st);
    assert chunks[|chunks|..] == [];
  }

  lemma NothingMoreComes(stops: seq<string>, st: Memory)
    requires RealStops(stops) && FirstStop(stops, st.run).None?
    ensures Filtered(stops, st, []) == []
  {
  }

  lemma Regroup(a: seq<Chunk>, b: seq<Chunk>, c: seq<Chunk>)
    ensures a + b + c == a + (b + c)
  {
  }

  lemma NothingHeld(stops: seq<string>)
    ensures Safe(stops, "") == 0
  {
  }

  /** The tail kept in hand is as good as the whole run: what to search, show and withhold agree. */
  lemma TailSearch(stops: seq<string>, run: string, text: string)
    requires FirstStop(stops, run).None?
    ensures var d, got := Safe(stops, run), run + text;
      && d <= |run| && d <= Safe(stops, got) <= |got|
      && run[d..] + text == got[d..]
      && (match FirstStop(stops, got[d..])
          case None => FirstStop(stops, got).None?
          case Some(m) =>
            && FirstStop(stops, got) == Some(Match(m.at + d, m.stop))
            && m.at <= |got[d..]| && got[d..m.at + d] == got[d..][..m.at])
      && (var keep := Held(stops, got[d..]);
          keep <= |got[d..]| && got[d..Safe(stops, got)] == got[d..][..|got[d..]| - keep]
            && got[Safe(stops, got)..] == got[d..][|got[d..]| - keep..])
  {
    hide FirstStop, Safe, Held, At;
    var d, got := Safe(stops, run), run + text;
    assert run[d..] + text == got[d..];
    FirstStopFromTail(stops, run, text);
    TailHeld(stops, run, text);
    var found := FirstStop(stops, got[d..]);
    if found.Some? {
      AtBounds(found.value.stop, got[d..], found.value.at);
      assert got[d..found.value.at + d] == got[d..][..found.value.at];
    }
  }

  lemma TailHeld(stops: seq<string>, run: string, text: string)
    ensures var d, got := Safe(stops, run), run + text;
      var keep := Held(stops, got[d..]);
      && d <= Safe(stops, got) <= |got| && keep <= |got[d..]|
      && got[d..Safe(stops, got)] == got[d..][..|got[d..]| - keep]
        && got[Safe(stops, got)..] == got[d..][|got[d..]| - keep..]
  {
    hide Held;
    var d, got := Safe(stops, run), run + text;
    assert run[d..] + text == got[d..];
    HeldFromTail(stops, run, text);
    SafeGrows(stops, run, text);
  }

  /** A text frame that completes a stop, by the tail in hand. */
  lemma StepStop(stops: seq<string>, st: Memory, chunks: seq<Chunk>, i: nat)
    requires RealStops(stops) && FirstStop(stops, st.run).None? && i < |chunks| && chunks[i].text != ""
    requires FirstStop(stops, st.run[Safe(stops, st.run)..] + chunks[i].text).Some?
    ensures var p := st.run[Safe(stops, st.run)..] + chunks[i].text;
      var m := FirstStop(stops, p).value;
      && m.at <= |p|
      && Filtered(stops, st, chunks[i..])
         == Visible(chunks[i], p[..m.at]) + [Stopped(Note(st, chunks[i]).(emitted := st.emitted + [p[..m.at]]), m.stop)]
  {
    hide FirstStop, Safe, RealStops, Held, EndRun, Passed, Flushed, Filtered, Visible, Note, Stopped;
    TailSearch(stops, st.run, chunks[i].text);
    var rest := chunks[i..];
    assert rest[0] == chunks[i];
    FilteredStop(stops, st, rest);
  }

  lemma FilteredStop(stops: seq<string>, st: Memory, chunks: seq<Chunk>)
    requires RealStops(stops) && FirstStop(stops, st.run).None? && chunks != [] && chunks[0].text != ""
    requires FirstStop(stops, st.run + chunks[0].text).Some?
    ensures var c, got, d := chunks[0], st.run + chunks[0].text, Safe(stops, st.run);
      var m := FirstStop(stops, got).value;
      && d <= m.at <= |got|
      && Filtered(stops, st, chunks)
        == Visible(c, got[d..m.at]) + [Stopped(Note(st, c).(emitted := st.emitted + [got[d..m.at]]), m.stop)]
  {
    hide FirstStop, Safe, RealStops, EndRun, Passed, Flushed, Visible, Stopped;
    var m := FirstStop(stops, st.run + chunks[0].text).value;
    StopStartsInTail(stops, st.run, chunks[0].text, m.stop, m.at);
    AtBounds(m.stop, st.run + chunks[0].text, m.at);
  }

  /** A text frame that completes none. */
  lemma StepText(stops: seq<string>, st: Memory, chunks: seq<Chunk>, i: nat)
    requires RealStops(stops) && FirstStop(stops, st.run).None? && i < |chunks| && chunks[i].text != ""
    requires FirstStop(stops, st.run[Safe(stops, st.run)..] + chunks[i].text).None?
    ensures var p, got := st.run[Safe(stops, st.run)..] + chunks[i].text, st.run + chunks[i].text;
      var keep := Held(stops, p);
      && FirstStop(stops, got).None? && keep <= |p| && p[|p| - keep..] == got[Safe(stops, got)..]
      && Filtered(stops, st, chunks[i..])
         == Visible(chunks[i], p[..|p| - keep])
            + Filtered(stops, Note(st, chunks[i]).(run := got, emitted := st.emitted + [p[..|p| - keep]]),
              chunks[i + 1..])
  {
    hide FirstStop, Safe, RealStops, Held;
    TailSearch(stops, st.run, chunks[i].text);
    assert chunks[i..][0] == chunks[i] && chunks[i..][1..] == chunks[i + 1..];
  }

  lemma StepEnd(stops: seq<string>, st: Memory, chunks: seq<Chunk>, i: nat)
    requires RealStops(stops) && FirstStop(stops, st.run).None? && i < |chunks| && EndsRun(chunks[i])
    ensures FirstStop(stops, "").None? && Safe(stops, "") == 0
    ensures var ended := EndRun(stops, Note(st, chunks[i]));
      Filtered(stops, st, chunks[i..])
      == Flushed(st.run[Safe(stops, st.run)..]) + [Passed(ended, chunks[i])] + Filtered(stops, ended, chunks[i + 1..])
  {
    hide FirstStop, RealStops, Held;
    NoStopInNothing(stops);
    assert chunks[i..][0] == chunks[i] && chunks[i..][1..] == chunks[i + 1..];
  }

  lemma StepPass(stops: seq<string>, st: Memory, chunks: seq<Chunk>, i: nat)
    requires RealStops(stops) && FirstStop(stops, st.run).None? && i < |chunks|
    requires chunks[i].text == "" && !EndsRun(chunks[i])
    ensures Filtered(stops, st, chunks[i..])
            == [Passed(Note(st, chunks[i]), chunks[i])] + Filtered(stops, Note(st, chunks[i]), chunks[i + 1..])
  {
    hide FirstStop, RealStops;
    assert chunks[i..][0] == chunks[i] && chunks[i..][1..] == chunks[i + 1..];
  }
}
