/** What the callers of Strata's filtered stream are promised. */
module StrataStream {
  import opened Options
  import opened Text
  import opened StopStrings
  import opened Strata

  function TextOf(chunks: seq<Chunk>): string {
    if chunks == [] then "" else chunks[0].text + TextOf(chunks[1..])
  }

  function Texts(chunks: seq<Chunk>): seq<string> {
    if chunks == [] then [] else [chunks[0].text] + Texts(chunks[1..])
  }

  lemma {:induction false} TextOfSum(a: seq<Chunk>, b: seq<Chunk>)
    ensures TextOf(a + b) == TextOf(a) + TextOf(b)
  {
    if a == [] {
      assert a + b == b && "" + TextOf(b) == TextOf(b);
    } else {
      TextOfSum(a[1..], b);
      assert (a + b)[0] == a[0] && (a + b)[1..] == a[1..] + b;
      Assoc(a[0].text, TextOf(a[1..]), TextOf(b));
    }
  }

  lemma TextOfVisible(c: Chunk, text: string, more: seq<Chunk>)
    ensures TextOf(Visible(c, text) + more) == text + TextOf(more)
    ensures TextOf(Flushed(text) + more) == text + TextOf(more)
  {
    TextOfSum(Visible(c, text), more);
    TextOfSum(Flushed(text), more);
    assert [c.(text := text)][1..] == [] && [Chunk(text, "", [], "", false, None)][1..] == [];
  }

  predicate AllText(chunks: seq<Chunk>) {
    forall i :: 0 <= i < |chunks| ==> chunks[i].text != ""
  }

  /** The memory after one text frame that completes no stop. */
  function AfterText(stops: seq<string>, st: Memory, c: Chunk): Memory
  {
    SafeGrows(stops, st.run, c.text);
    var got := st.run + c.text;
    Note(st, c).(run := got, emitted := st.emitted + [got[Safe(stops, st.run)..Safe(stops, got)]])
  }

  function AfterTexts(stops: seq<string>, st: Memory, chunks: seq<Chunk>): Memory
    decreases |chunks|
  {
    if chunks == [] then st else AfterTexts(stops, AfterText(stops, st, chunks[0]), chunks[1..])
  }

  /** The last frame of a stream that a stop has ended. */
  ghost predicate EndsStopped(out: seq<Chunk>, stop: string, content: string) {
    && out != []
    && var last := out[|out| - 1];
       last.done && last.result.Some? && last.result.value.stopSequence == Some(stop)
         && last.result.value.content == content
  }

  /** A run of text frames, wherever it stands in the stream, comes out as the run alone would: its
      text, then either the end of the stream, saying which stop and all that was shown, or the rest. */
  ghost predicate RunComesOut(stops: seq<string>, st: Memory, run: seq<Chunk>, rest: seq<Chunk>)
    requires RealStops(stops) && FirstStop(stops, st.run).None?
  {
    var r, out, after := Receive(stops, st.run, Texts(run)), Filtered(stops, st, run + rest),
      AfterTexts(stops, st, run);
    if r.stop.Some? then
      TextOf(out) == r.shown && EndsStopped(out, r.stop.value, Joined(st.emitted) + r.shown)
    else
      && FirstStop(stops, after.run).None? && after.run == st.run + Joined(Texts(run))
      && Joined(after.emitted) == Joined(st.emitted) + r.shown
      && TextOf(out) == r.shown + TextOf(Filtered(stops, after, rest))
  }

  lemma {:induction false} EveryRunComesOut(stops: seq<string>, st: Memory, run: seq<Chunk>, rest: seq<Chunk>)
    requires RealStops(stops) && FirstStop(stops, st.run).None? && AllText(run)
    ensures RunComesOut(stops, st, run, rest)
    decreases |run|
  {
    hide FirstStop, Safe, RealStops;
    if run == [] {
      assert run + rest == rest && st.run + "" == st.run && Joined(st.emitted) + "" == Joined(st.emitted);
    } else {
      var c := run[0];
      assert (run + rest)[0] == c && (run + rest)[1..] == run[1..] + rest;
      assert Texts(run)[0] == c.text && Texts(run)[1..] == Texts(run[1..]);
      if FirstStop(stops, st.run + c.text).Some? {
        RunStopsHere(stops, st, run, rest);
      } else {
        EveryRunComesOut(stops, AfterText(stops, st, c), run[1..], rest);
        RunGoesOn(stops, st, run, rest);
      }
    }
  }

  lemma RunStopsHere(stops: seq<string>, st: Memory, run: seq<Chunk>, rest: seq<Chunk>)
    requires RealStops(stops) && FirstStop(stops, st.run).None? && AllText(run) && run != []
    requires FirstStop(stops, st.run + run[0].text).Some?
    ensures RunComesOut(stops, st, run, rest)
  {
    hide FirstStop, Safe, RealStops;
    var c, d, got := run[0], Safe(stops, st.run), st.run + run[0].text;
    var m := FirstStop(stops, got).value;
    StopStartsInTail(stops, st.run, c.text, m.stop, m.at);
    AtBounds(m.stop, got, m.at);
    var shown := got[d..m.at];
    var last := Stopped(Note(st, c).(emitted := st.emitted + [shown]), m.stop);
    assert (run + rest)[0] == c;
    assert Filtered(stops, st, run + rest) == Visible(c, shown) + [last];
    TextOfVisible(c, shown, [last]);
    assert TextOf([last]) == "" by { assert [last][1..] == []; }
    JoinedOne(st.emitted, shown);
    assert Texts(run)[0] == c.text;
    assert shown + "" == shown;
  }

  lemma RunGoesOn(stops: seq<string>, st: Memory, run: seq<Chunk>, rest: seq<Chunk>)
    requires RealStops(stops) && FirstStop(stops, st.run).None? && AllText(run) && run != []
    requires FirstStop(stops, st.run + run[0].text).None?
    requires RunComesOut(stops, AfterText(stops, st, run[0]), run[1..], rest)
    ensures RunComesOut(stops, st, run, rest)
  {
    hide FirstStop, Safe, RealStops, Receive, Filtered, TextOf, Joined, Visible;
    var c, d, got := run[0], Safe(stops, st.run), st.run + run[0].text;
    SafeGrows(stops, st.run, c.text);
    var shown := got[d..Safe(stops, got)];
    var next := AfterText(stops, st, c);
    assert Texts(run)[0] == c.text && Texts(run)[1..] == Texts(run[1..]);
    FilteredText(stops, st, run, rest);
    ReceiveText(stops, st.run, Texts(run));
    JoinedOne(st.emitted, shown);
    JoinedFirst(st.run, Texts(run));
    var r := Receive(stops, got, Texts(run[1..]));
    Assoc(Joined(st.emitted), shown, r.shown);
    if r.stop.None? {
      Assoc(shown, r.shown, TextOf(Filtered(stops, AfterTexts(stops, next, run[1..]), rest)));
    }
  }

  lemma ReceiveText(stops: seq<string>, seen: string, texts: seq<string>)
    requires texts != [] && FirstStop(stops, seen).None? && FirstStop(stops, seen + texts[0]).None?
    ensures Safe(stops, seen) <= Safe(stops, seen + texts[0])
    ensures var got := seen + texts[0]; var r := Receive(stops, got, texts[1..]);
      Receive(stops, seen, texts) == r.(shown := got[Safe(stops, seen)..Safe(stops, got)] + r.shown)
  {
    hide FirstStop, Safe;
    SafeGrows(stops, seen, texts[0]);
  }

  lemma FilteredText(stops: seq<string>, st: Memory, run: seq<Chunk>, rest: seq<Chunk>)
    requires RealStops(stops) && FirstStop(stops, st.run).None? && run != [] && run[0].text != ""
    requires FirstStop(stops, st.run + run[0].text).None?
    ensures var got, next, out := st.run + run[0].text, AfterText(stops, st, run[0]), Filtered(stops, st, run + rest);
      && Safe(stops, st.run) <= Safe(stops, got)
      && TextOf(out) == got[Safe(stops, st.run)..Safe(stops, got)] + TextOf(Filtered(stops, next, run[1..] + rest))
      && |out| >= |Filtered(stops, next, run[1..] + rest)|
      && out[|out| - |Filtered(stops, next, run[1..] + rest)|..] == Filtered(stops, next, run[1..] + rest)
      && Others(out) == Others(Filtered(stops, next, run[1..] + rest))
  {
    hide FirstStop, Safe, RealStops, TextOf, Others;
    var c, d, got, next := run[0], Safe(stops, st.run), st.run + run[0].text, AfterText(stops, st, run[0]);
    SafeGrows(stops, st.run, c.text);
    assert (run + rest)[0] == c && (run + rest)[1..] == run[1..] + rest;
    TextOfVisible(c, got[d..Safe(stops, got)], Filtered(stops, next, run[1..] + rest));
    OthersOfText(c, got[d..Safe(stops, got)], Filtered(stops, next, run[1..] + rest));
  }

  // ----- Streams in which no stop occurs -----

  /** No stop occurs in any run of text of the stream, `run` being what the first has received. */
  ghost predicate Clear(stops: seq<string>, run: string, chunks: seq<Chunk>)
    decreases |chunks|
  {
    && FirstStop(stops, run).None?
    && (chunks != [] ==>
          if chunks[0].text != "" then Clear(stops, run + chunks[0].text, chunks[1..])
          else if EndsRun(chunks[0]) then Clear(stops, "", chunks[1..])
          else Clear(stops, run, chunks[1..]))
  }

  /** The text still withheld when the stream ends. */
  function Withheld(stops: seq<string>, run: string, chunks: seq<Chunk>): string
    decreases |chunks|
  {
    if chunks == [] then run[Safe(stops, run)..]
    else if chunks[0].text != "" then Withheld(stops, run + chunks[0].text, chunks[1..])
    else if EndsRun(chunks[0]) then Withheld(stops, "", chunks[1..])
    else Withheld(stops, run, chunks[1..])
  }

  /** The frames that are not text, without the content of the answers they close. */
  function Others(chunks: seq<Chunk>): seq<Chunk> {
    if chunks == [] then []
    else Other(chunks[0]) + Others(chunks[1..])
  }

  function Bare(c: Chunk): Chunk {
    if c.result.Some? then c.(result := Some(c.result.value.(content := ""))) else c
  }

  function Other(c: Chunk): seq<Chunk> {
    if c.text != "" then [] else [Bare(c)]
  }

  lemma {:induction false} OthersSum(a: seq<Chunk>, b: seq<Chunk>)
    ensures Others(a + b) == Others(a) + Others(b)
  {
    hide Other;
    if a == [] {
      assert a + b == b && [] + Others(b) == Others(b);
    } else {
      OthersSum(a[1..], b);
      assert (a + b)[0] == a[0] && (a + b)[1..] == a[1..] + b;
      Assoc(Other(a[0]), Others(a[1..]), Others(b));
    }
  }

  lemma OthersOfText(c: Chunk, text: string, more: seq<Chunk>)
    ensures Others(Visible(c, text) + more) == Others(more)
    ensures Others(Flushed(text) + more) == Others(more)
  {
    hide Bare;
    OthersSum(Visible(c, text), more);
    OthersSum(Flushed(text), more);
  }

  lemma PassedFirst(st: Memory, c: Chunk, more: seq<Chunk>)
    requires c.text == ""
    ensures TextOf([Passed(st, c)] + more) == TextOf(more)
    ensures Others([Passed(st, c)] + more) == [Bare(c)] + Others(more)
  {
    assert ([Passed(st, c)] + more)[1..] == more;
  }

  /** With no stop, no text is lost or made up, and the other frames all pass, in order. */
  lemma {:induction false} NothingIsLost(stops: seq<string>, st: Memory, chunks: seq<Chunk>)
    requires RealStops(stops) && Clear(stops, st.run, chunks)
    ensures st.run[Safe(stops, st.run)..] + TextOf(chunks)
      == TextOf(Filtered(stops, st, chunks)) + Withheld(stops, st.run, chunks)
    ensures Others(Filtered(stops, st, chunks)) == Others(chunks)
    decreases |chunks|
  {
    hide FirstStop, Safe, RealStops, Bare, Passed, Visible, Flushed, EndRun, Note;
    if chunks == [] {
      var held := st.run[Safe(stops, st.run)..];
      assert held + "" == "" + held;
    } else if chunks[0].text != "" {
      NoTextIsLost(stops, st, chunks);
    } else if EndsRun(chunks[0]) {
      NoneIsLostAtEnd(stops, st, chunks);
    } else {
      var c, next := chunks[0], Note(st, chunks[0]);
      assert next.run == st.run by { NoteKeepsRun(st, c); }
      NothingIsLost(stops, next, chunks[1..]);
      PassedFirst(next, c, Filtered(stops, next, chunks[1..]));
      assert "" + TextOf(chunks[1..]) == TextOf(chunks[1..]);
    }
  }

  lemma NoteKeepsRun(st: Memory, c: Chunk)
    ensures Note(st, c).run == st.run
  {
  }

  lemma {:induction false} NoTextIsLost(stops: seq<string>, st: Memory, chunks: seq<Chunk>)
    requires RealStops(stops) && Clear(stops, st.run, chunks) && chunks != [] && chunks[0].text != ""
    ensures st.run[Safe(stops, st.run)..] + TextOf(chunks)
      == TextOf(Filtered(stops, st, chunks)) + Withheld(stops, st.run, chunks)
    ensures Others(Filtered(stops, st, chunks)) == Others(chunks)
    decreases |chunks|, 0
  {
    hide FirstStop, Safe, RealStops, Bare, Filtered;
    var c, rest, d := chunks[0], chunks[1..], Safe(stops, st.run);
    var next := AfterText(stops, st, c);
    var got, e := st.run + c.text, Safe(stops, st.run + c.text);
    ClearNow(stops, got, rest);
    SafeGrows(stops, st.run, c.text);
    NothingIsLost(stops, next, rest);
    FilteredText(stops, st, chunks, []);
    assert chunks + [] == chunks && rest + [] == rest;
    MoveText(st.run, c.text, d, e, TextOf(rest), TextOf(Filtered(stops, next, rest)), Withheld(stops, got, rest));
    assert [] + Others(rest) == Others(rest);
  }

  lemma {:induction false} NoneIsLostAtEnd(stops: seq<string>, st: Memory, chunks: seq<Chunk>)
    requires RealStops(stops) && Clear(stops, st.run, chunks) && chunks != [] && EndsRun(chunks[0])
    ensures st.run[Safe(stops, st.run)..] + TextOf(chunks)
      == TextOf(Filtered(stops, st, chunks)) + Withheld(stops, st.run, chunks)
    ensures Others(Filtered(stops, st, chunks)) == Others(chunks)
    decreases |chunks|, 0
  {
    hide FirstStop, Safe, RealStops, Bare, Passed, Flushed;
    var c, rest, p := chunks[0], chunks[1..], st.run[Safe(stops, st.run)..];
    NoStopInNothing(stops);
    NothingHeld(stops);
    var ended := EndRun(stops, Note(st, c));
    NothingIsLost(stops, ended, rest);
    var out := Filtered(stops, ended, rest);
    Assoc(Flushed(p), [Passed(ended, c)], out);
    TextOfVisible(c, p, [Passed(ended, c)] + out);
    OthersOfText(c, p, [Passed(ended, c)] + out);
    PassedFirst(ended, c, out);
    assert "" + TextOf(rest) == TextOf(rest) && "" + (TextOf(out) + Withheld(stops, "", rest)) == TextOf(rest);
    Assoc(p, TextOf(out), Withheld(stops, "", rest));
  }

  /** Text shown now and text held back are the text that came. */
  lemma MoveText(run: string, text: string, d: nat, e: nat, more: string, out: string, held: string)
    requires d <= |run| && d <= e <= |run + text| && (run + text)[e..] + more == out + held
    ensures run[d..] + (text + more) == (run + text)[d..e] + out + held
  {
    var got := run + text;
    assert run[d..] + (text + more) == got[d..] + more;
    assert got[d..] == got[d..e] + got[e..];
    Assoc(got[d..e], got[e..], more);
    Assoc(got[d..e], out, held);
  }

  lemma ClearNow(stops: seq<string>, run: string, chunks: seq<Chunk>)
    requires Clear(stops, run, chunks)
    ensures FirstStop(stops, run).None?
  {
  }

  lemma {:induction false} NothingWithheldAtTheEnd(stops: seq<string>, run: string, chunks: seq<Chunk>)
    requires chunks != [] && EndsRun(chunks[|chunks| - 1])
    ensures Withheld(stops, run, chunks) == ""
    decreases |chunks|
  {
    hide Safe;
    if |chunks| == 1 {
      NothingHeld(stops);
      assert chunks[1..] == [];
    } else {
      NothingWithheldAtTheEnd(stops, run + chunks[0].text, chunks[1..]);
      NothingWithheldAtTheEnd(stops, "", chunks[1..]);
      NothingWithheldAtTheEnd(stops, run, chunks[1..]);
    }
  }

  /** A stream without a stop that is closed by its last frame is sent with all its text and frames. */
  lemma WholeAnswerIsSent(requested: seq<string>, chunks: seq<Chunk>)
    requires Clear(Requested(requested), "", chunks) && chunks != [] && EndsRun(chunks[|chunks| - 1])
    ensures TextOf(Sent(requested, chunks)) == TextOf(chunks)
    ensures Others(Sent(requested, chunks)) == Others(chunks)
  {
    hide FirstStop, Clear, Safe, Filtered, Withheld, TextOf, Others, Requested, EndsRun;
    var stops := Requested(requested);
    if stops != [] {
      NoStopInNothing(stops);
      NothingIsLost(stops, NOTHING, chunks);
      NothingWithheldAtTheEnd(stops, "", chunks);
      NothingHeld(stops);
      assert ""[0..] + TextOf(chunks) == TextOf(chunks);
      assert TextOf(Sent(requested, chunks)) + "" == TextOf(Sent(requested, chunks));
    }
  }

  // ----- The whole answer is what was streamed -----

  /** The answer a textless frame closes says what has been emitted, unless nothing has. */
  ghost predicate SaysWhatWasSent(st: Memory, out: seq<Chunk>, j: nat)
    requires j < |out|
  {
    out[j].text == "" && out[j].done && out[j].result.Some? ==>
      || out[j].result.value.content == Joined(st.emitted) + TextOf(out[..j])
      || (st.emitted == [] && TextOf(out[..j]) == "")
  }

  lemma {:induction false} ContentIsWhatWasSent(stops: seq<string>, st: Memory, chunks: seq<Chunk>, j: nat)
    requires RealStops(stops) && FirstStop(stops, st.run).None? && j < |Filtered(stops, st, chunks)|
    ensures SaysWhatWasSent(st, Filtered(stops, st, chunks), j)
    decreases |chunks|
  {
    hide FirstStop, Safe, RealStops, SaysWhatWasSent, Visible, Passed, Stopped, TextOf, Joined;
    var c, rest, d := chunks[0], chunks[1..], Safe(stops, st.run);
    if c.text != "" {
      var got := st.run + c.text;
      if FirstStop(stops, got).Some? {
        var m := FirstStop(stops, got).value;
        StopStartsInTail(stops, st.run, c.text, m.stop, m.at);
        SentStop(st, c, got[d..m.at], m.stop, j);
      } else {
        SafeGrows(stops, st.run, c.text);
        var shown := got[d..Safe(stops, got)];
        var next := AfterText(stops, st, c);
        var n := |Visible(c, shown)|;
        if j >= n {
          ContentIsWhatWasSent(stops, next, rest, j - n);
          SentAfterText(st, next, c, shown, Filtered(stops, next, rest), j);
        } else {
          SentText(st, c, shown, Filtered(stops, next, rest), j);
        }
      }
    } else if EndsRun(c) {
      NoStopInNothing(stops);
      var ended := EndRun(stops, Note(st, c));
      var head := Flushed(st.run[d..]) + [Passed(ended, c)];
      if j >= |head| {
        ContentIsWhatWasSent(stops, ended, rest, j - |head|);
        PassedText(st, ended, c, st.run[d..]);
        SentEnd(stops, st, c, Filtered(stops, ended, rest), 0);
        SentLater(st, ended, head, Filtered(stops, ended, rest), st.run[d..], j);
      } else {
        SentEnd(stops, st, c, Filtered(stops, ended, rest), j);
      }
    } else if j > 0 {
      var next := Note(st, c);
      ContentIsWhatWasSent(stops, next, rest, j - 1);
      PassedText(st, next, c, "");
      assert Joined(st.emitted) + "" == Joined(st.emitted);
      SentLater(st, next, [Passed(next, c)], Filtered(stops, next, rest), "", j);
    } else {
      SentPass(st, c, Filtered(stops, Note(st, c), rest));
    }
  }

  lemma SentText(st: Memory, c: Chunk, shown: string, more: seq<Chunk>, j: nat)
    requires j < |Visible(c, shown)|
    ensures SaysWhatWasSent(st, Visible(c, shown) + more, j)
  {
  }

  lemma SentAfterText(st: Memory, next: Memory, c: Chunk, shown: string, more: seq<Chunk>, j: nat)
    requires next.emitted == st.emitted + [shown]
    requires |Visible(c, shown)| <= j < |Visible(c, shown)| + |more|
      && SaysWhatWasSent(next, more, j - |Visible(c, shown)|)
    ensures SaysWhatWasSent(st, Visible(c, shown) + more, j)
  {
    hide Visible, TextOf, Joined, SaysWhatWasSent;
    JoinedOne(st.emitted, shown);
    TextOfVisible(c, shown, []);
    TextOfNothing();
    assert Visible(c, shown) + [] == Visible(c, shown) && shown + "" == shown;
    SentLater(st, next, Visible(c, shown), more, shown, j);
  }

  lemma TextOfNothing()
    ensures TextOf([]) == ""
  {
  }

  lemma SentPass(st: Memory, c: Chunk, more: seq<Chunk>)
    requires c.text == ""
    ensures SaysWhatWasSent(st, [Passed(Note(st, c), c)] + more, 0)
  {
    var out := [Passed(Note(st, c), c)] + more;
    assert out[..0] == [];
    assert Joined(st.emitted) + "" == Joined(st.emitted);
  }

  lemma PassedText(st: Memory, next: Memory, c: Chunk, text: string)
    requires c.text == ""
    ensures TextOf(Flushed(text) + [Passed(next, c)]) == text
    ensures TextOf([Passed(next, c)]) == ""
  {
    TextOfVisible(c, text, [Passed(next, c)]);
    assert [Passed(next, c)][1..] == [];
    assert text + "" == text;
  }

  lemma SentLater(st: Memory, next: Memory, head: seq<Chunk>, out: seq<Chunk>, text: string, j: nat)
    requires |head| <= j < |head| + |out| && SaysWhatWasSent(next, out, j - |head|)
    requires TextOf(head) == text && Joined(next.emitted) == Joined(st.emitted) + text
    requires next.emitted == [] ==> st.emitted == []
    ensures SaysWhatWasSent(st, head + out, j)
  {
    var i := j - |head|;
    assert (head + out)[..j] == head + out[..i] && (head + out)[j] == out[i];
    TextOfSum(head, out[..i]);
    Assoc(Joined(st.emitted), text, TextOf(out[..i]));
  }

  lemma SentStop(st: Memory, c: Chunk, shown: string, stop: string, j: nat)
    requires c.text != "" && j <= |Visible(c, shown)|
    ensures SaysWhatWasSent(st, Visible(c, shown) + [Stopped(Note(st, c).(emitted := st.emitted + [shown]), stop)], j)
  {
    var out := Visible(c, shown) + [Stopped(Note(st, c).(emitted := st.emitted + [shown]), stop)];
    if j == |Visible(c, shown)| {
      assert out[..j] == Visible(c, shown) + [];
      TextOfVisible(c, shown, []);
      JoinedOne(st.emitted, shown);
      assert shown + "" == shown;
    }
  }

  lemma SentEnd(stops: seq<string>, st: Memory, c: Chunk, more: seq<Chunk>, j: nat)
    requires EndsRun(c) && j <= |Flushed(st.run[Safe(stops, st.run)..])|
    ensures var ended := EndRun(stops, Note(st, c));
      SaysWhatWasSent(st, Flushed(st.run[Safe(stops, st.run)..]) + [Passed(ended, c)] + more, j)
    ensures Joined(EndRun(stops, Note(st, c)).emitted) == Joined(st.emitted) + st.run[Safe(stops, st.run)..]
  {
    hide Safe;
    var p := st.run[Safe(stops, st.run)..];
    var ended := EndRun(stops, Note(st, c));
    var out := Flushed(p) + [Passed(ended, c)] + more;
    JoinedOne(st.emitted, p);
    assert st.emitted + [] == st.emitted && Joined(st.emitted) + "" == Joined(st.emitted);
    if j == |Flushed(p)| {
      assert out[..j] == Flushed(p) + [];
      TextOfVisible(c, p, []);
      assert p + "" == p;
    }
  }
}
