/** Stop strings in text that arrives in pieces: what must be withheld, and when a stop fires. */
module StopStrings {
  import opened Options
  import opened Text

  datatype Match = Match(at: nat, stop: string)

  /** The stops a request means: the empty string is none. */
  predicate RealStops(stops: seq<string>) {
    forall i :: 0 <= i < |stops| ==> stops[i] != ""
  }

  /** `min` over the stops found, by position and then by their order in the list. */
  function FirstStop(stops: seq<string>, s: string): (m: Option<Match>)
    ensures m.None? ==> forall x, i :: x in stops ==> !At(x, s, i)
    ensures m.Some? ==> m.value.stop in stops && At(m.value.stop, s, m.value.at)
    ensures m.Some? ==> forall x, i :: x in stops && At(x, s, i) ==> m.value.at <= i
  {
    if stops == [] then None
    else
      var rest := FirstStop(stops[..|stops| - 1], s);
      var x := stops[|stops| - 1];
      var i := Find(x, s);
      assert forall y :: y in stops <==> y in stops[..|stops| - 1] || y == x;
      if i >= 0 && (rest.None? || i < rest.value.at) then Some(Match(i, x)) else rest
  }

  /** The last `k` characters of `s` are the beginning, not the whole, of a stop. */
  predicate Partial(stops: seq<string>, s: string, k: int) {
    0 < k <= |s| && exists i :: 0 <= i < |stops| && k < |stops[i]| && s[|s| - k..] == stops[i][..k]
  }

  /** The length of the longest such tail of at most `k` characters, or 0. */
  function HeldUpTo(stops: seq<string>, s: string, k: nat): (h: nat)
    requires k <= |s|
    ensures h <= k && (h > 0 ==> Partial(stops, s, h))
    ensures forall j :: h < j <= k ==> !Partial(stops, s, j)
  {
    if k == 0 || Partial(stops, s, k) then k else HeldUpTo(stops, s, k - 1)
  }

  function Held(stops: seq<string>, s: string): nat {
    HeldUpTo(stops, s, |s|)
  }

  /** How much of `s` is safe to show. */
  function Safe(stops: seq<string>, s: string): (n: nat)
    ensures n <= |s|
  {
    |s| - Held(stops, s)
  }

  /** Only the withheld tail of what was received matters to what must be withheld next. */
  lemma HeldFromTail(stops: seq<string>, s: string, text: string)
    ensures var p := s[Safe(stops, s)..] + text; |p| <= |s + text| && Held(stops, s + text) == Held(stops, p)
  {
    hide Partial;
    var d := Safe(stops, s);
    var p := s[d..] + text;
    assert s + text == s[..d] + p;
    forall k
      ensures Partial(stops, s + text, k) <==> Partial(stops, p, k)
      ensures Partial(stops, p, k) ==> 0 < k <= |p|
    {
      if |p| < k && Partial(stops, s + text, k) {
        PartialBeforeText(stops, s, text, k);
      }
      PartialOfTail(stops, s[..d], p, k);
    }
  }

  /** A partial stop no longer than the tail is one of the tail, and there is none longer in it. */
  lemma PartialOfTail(stops: seq<string>, front: string, p: string, k: int)
    ensures k <= |p| ==> (Partial(stops, front + p, k) <==> Partial(stops, p, k))
    ensures Partial(stops, p, k) ==> 0 < k <= |p|
  {
    if 0 < k <= |p| {
      assert (front + p)[|front + p| - k..] == p[|p| - k..];
    }
  }

  /** A partial stop reaching back before `text` was a partial stop of what came before. */
  lemma PartialBeforeText(stops: seq<string>, s: string, text: string, k: int)
    requires Partial(stops, s + text, k) && |text| < k
    ensures Partial(stops, s, k - |text|)
  {
    var i :| 0 <= i < |stops| && k < |stops[i]| && (s + text)[|s + text| - k..] == stops[i][..k];
    var j := k - |text|;
    assert (s + text)[|s + text| - k..][..j] == s[|s| - j..];
    assert stops[i][..k][..j] == stops[i][..j];
  }

  /** A stop that begins in `s` and ends in `text` leaves a partial stop at the end of `s`. */
  lemma StopCut(stops: seq<string>, s: string, text: string, x: string, i: int)
    requires x in stops && At(x, s + text, i) && i < |s| < i + |x|
    ensures Partial(stops, s, |s| - i)
  {
    var k := |s| - i;
    assert (s + text)[i..i + |x|][..k] == s[|s| - k..];
    var j :| 0 <= j < |stops| && stops[j] == x;
    assert stops[j][..k] == s[|s| - k..];
  }

  /** A stop that occurs once `text` has come begins in the withheld tail or later. */
  lemma StopStartsInTail(stops: seq<string>, s: string, text: string, x: string, i: int)
    requires x in stops && At(x, s + text, i) && FirstStop(stops, s).None?
    ensures i >= Safe(stops, s)
  {
    hide FirstStop, Partial;
    AtAppend(x, s, text, i);
    AtBounds(x, s + text, i);
    if i < |s| {
      StopCut(stops, s, text, x, i);
    }
  }

  /** Searching the withheld tail and the new text finds what searching everything received would. */
  lemma FirstStopFromTail(stops: seq<string>, s: string, text: string)
    requires FirstStop(stops, s).None?
    ensures var d := Safe(stops, s);
      FirstStop(stops, s + text) == match FirstStop(stops, s[d..] + text)
        case None => None
        case Some(m) => Some(Match(m.at + d, m.stop))
  {
    hide FirstStop, Safe, At;
    var d := Safe(stops, s);
    assert (s + text)[d..] == s[d..] + text;
    assert d <= |s + text|;
    forall x, i | x in stops && At(x, s + text, i)
      ensures i >= d
    {
      StopStartsInTail(stops, s, text, x, i);
    }
    FirstStopDrop(stops, s + text, d);
  }

  lemma {:induction false} FirstStopDrop(stops: seq<string>, s: string, d: nat)
    requires d <= |s| && forall x, i :: x in stops && At(x, s, i) ==> i >= d
    ensures FirstStop(stops, s) == match FirstStop(stops, s[d..])
      case None => None
      case Some(m) => Some(Match(m.at + d, m.stop))
  {
    hide Find, At;
    if stops == [] {
    } else {
      var front, x := stops[..|stops| - 1], stops[|stops| - 1];
      FirstStopDrop(front, s, d);
      FindDrop(x, s, d);
    }
  }

  // ----- A run of text -----

  /** What a run of text has shown, the stop that ended it, and what it holds back if none did. */
  datatype Outcome = Outcome(shown: string, stop: Option<string>, held: string)

  /** Having received `seen` and shown all of it that was safe, receive `texts`, piece by piece. */
  function Receive(stops: seq<string>, seen: string, texts: seq<string>): Outcome
    requires FirstStop(stops, seen).None?
    decreases |texts|
  {
    if texts == [] then Outcome("", None, seen[Safe(stops, seen)..])
    else
      var all := seen + texts[0];
      match FirstStop(stops, all)
      case Some(m) =>
        StopStartsInTail(stops, seen, texts[0], m.stop, m.at);
        Outcome(all[Safe(stops, seen)..m.at], Some(m.stop), "")
      case None =>
        SafeGrows(stops, seen, texts[0]);
        var rest := Receive(stops, all, texts[1..]);
        rest.(shown := all[Safe(stops, seen)..Safe(stops, all)] + rest.shown)
  }

  lemma SafeGrows(stops: seq<string>, s: string, text: string)
    ensures Safe(stops, s) <= Safe(stops, s + text)
  {
    HeldFromTail(stops, s, text);
  }

  lemma JoinedFirst(seen: string, texts: seq<string>)
    requires texts != []
    ensures seen + Joined(texts) == seen + texts[0] + Joined(texts[1..])
  {
    assert seen + (texts[0] + Joined(texts[1..])) == seen + texts[0] + Joined(texts[1..]);
  }

  /** A stop fires exactly when one occurs in what was received; then everything before it was
      shown and it comes next; otherwise all is shown but the longest tail that may become a stop. */
  ghost predicate OutcomeOf(stops: seq<string>, shown: string, r: Outcome, all: string) {
    match r.stop
    case Some(x) => x in stops && |shown| <= |all| && shown == all[..|shown|] && At(x, all, |shown|)
    case None => FirstStop(stops, all).None? && shown + r.held == all && |r.held| == Held(stops, all)
  }

  lemma {:induction false} StopFiresExactly(stops: seq<string>, seen: string, texts: seq<string>)
    requires FirstStop(stops, seen).None?
    ensures var r := Receive(stops, seen, texts);
      OutcomeOf(stops, seen[..Safe(stops, seen)] + r.shown, r, seen + Joined(texts))
    decreases |texts|
  {
    hide FirstStop, Safe, At, OutcomeOf;
    var d := Safe(stops, seen);
    if texts == [] {
      assert seen + Joined(texts) == seen;
      NothingMore(stops, seen);
    } else {
      var got, more := seen + texts[0], Joined(texts[1..]);
      JoinedFirst(seen, texts);
      if FirstStop(stops, got).Some? {
        StopNow(stops, seen, texts[0], more);
      } else {
        SafeGrows(stops, seen, texts[0]);
        StopFiresExactly(stops, got, texts[1..]);
        var e := Safe(stops, got);
        ShownGrows(seen, texts[0], d, e, Receive(stops, got, texts[1..]).shown);
        SameOutcome(stops, got[..e] + Receive(stops, got, texts[1..]).shown, Receive(stops, got, texts[1..]),
          Receive(stops, seen, texts), got + more);
      }
    }
  }

  lemma SameOutcome(stops: seq<string>, shown: string, r: Outcome, r': Outcome, all: string)
    requires OutcomeOf(stops, shown, r, all) && r'.stop == r.stop && r'.held == r.held
    ensures OutcomeOf(stops, shown, r', all)
  {
    hide FirstStop, At, Held;
  }

  lemma NothingMore(stops: seq<string>, seen: string)
    requires FirstStop(stops, seen).None?
    ensures OutcomeOf(stops, seen[..Safe(stops, seen)] + "", Receive(stops, seen, []), seen)
  {
    hide FirstStop, At, Held;
    var d := Safe(stops, seen);
    assert seen[..d] + "" + seen[d..] == seen;
  }

  lemma StopNow(stops: seq<string>, seen: string, text: string, more: string)
    requires FirstStop(stops, seen).None? && FirstStop(stops, seen + text).Some?
    ensures var d, got, m := Safe(stops, seen), seen + text, FirstStop(stops, seen + text).value;
      && d <= m.at <= |got|
      && OutcomeOf(stops, seen[..d] + got[d..m.at], Outcome(got[d..m.at], Some(m.stop), ""), got + more)
  {
    hide FirstStop, Safe, At;
    var d, got, m := Safe(stops, seen), seen + text, FirstStop(stops, seen + text).value;
    StopStartsInTail(stops, seen, text, m.stop, m.at);
    AtBounds(m.stop, got, m.at);
    AtAppend(m.stop, got, more, m.at);
    assert seen[..d] + got[d..m.at] == (got + more)[..m.at];
  }

  lemma NoStopInNothing(stops: seq<string>)
    requires RealStops(stops)
    ensures FirstStop(stops, "").None?
  {
    hide FirstStop;
    assert forall x :: x in stops ==> x != "";
    forall x, i | x in stops
      ensures !At(x, "", i)
    {
      AtBounds(x, "", i);
    }
  }

  /** One run from its start, cut in any way. */
  function ReceiveRun(stops: seq<string>, texts: seq<string>): Outcome
    requires RealStops(stops)
  {
    NoStopInNothing(stops);
    Receive(stops, "", texts)
  }

  /** In one run, however it is cut, a stop fires exactly when one occurs in what came; what is
      shown then is followed by that stop, and if none fires nothing is lost. */
  lemma RunStopsExactly(stops: seq<string>, texts: seq<string>)
    requires RealStops(stops)
    ensures var r, all := ReceiveRun(stops, texts), Joined(texts);
      && (r.stop.Some? <==> exists x, i :: x in stops && At(x, all, i))
      && (r.stop.Some? ==> r.stop.value in stops && r.shown + r.stop.value <= all)
      && (r.stop.None? ==> r.shown + r.held == all && |r.held| == Held(stops, all))
  {
    hide FirstStop, At, Held;
    NoStopInNothing(stops);
    StopFiresExactly(stops, "", texts);
    var r, all := ReceiveRun(stops, texts), Joined(texts);
    assert "" + all == all && ""[..Safe(stops, "")] + r.shown == r.shown;
    if r.stop.Some? {
      StopFollows(r.stop.value, all, |r.shown|);
    }
  }

  lemma StopFollows(x: string, all: string, n: nat)
    requires At(x, all, n)
    ensures all[..n] + x <= all
  {
    assert all[..n] + x == all[..n + |x|];
  }

  /** No stop occurs in what a run has shown. */
  lemma {:induction false} ShownHoldsNoStop(stops: seq<string>, seen: string, texts: seq<string>, x: string)
    requires FirstStop(stops, seen).None? && x in stops && x != ""
    ensures !Occurs(x, seen[..Safe(stops, seen)] + Receive(stops, seen, texts).shown)
    decreases |texts|
  {
    hide FirstStop, Safe, Occurs;
    var d := Safe(stops, seen);
    if texts == [] {
      NoStopInFront(stops, seen, d, x);
      assert seen[..d] + "" == seen[..d];
    } else {
      var got := seen + texts[0];
      if FirstStop(stops, got).Some? {
        var m := FirstStop(stops, got).value;
        StopStartsInTail(stops, seen, texts[0], m.stop, m.at);
        AtBounds(m.stop, got, m.at);
        NoStopInFront(stops, got, m.at, x);
        assert seen[..d] + got[d..m.at] == got[..m.at];
      } else {
        SafeGrows(stops, seen, texts[0]);
        ShownHoldsNoStop(stops, got, texts[1..], x);
        ShownGrows(seen, texts[0], d, Safe(stops, got), Receive(stops, got, texts[1..]).shown);
      }
    }
  }

  /** No stop occurs before the first one. */
  lemma NoStopInFront(stops: seq<string>, s: string, n: nat, x: string)
    requires n <= |s| && x in stops && x != "" && (FirstStop(stops, s).None? || FirstStop(stops, s).value.at == n)
    ensures !Occurs(x, s[..n])
  {
    hide FirstStop, At;
    assert s[..n] + s[n..] == s;
    forall i | At(x, s[..n], i)
      ensures false
    {
      AtAppend(x, s[..n], s[n..], i);
      AtBounds(x, s[..n], i);
    }
  }

  // ----- When the outcome depends on how the text was cut -----

  /** Some stop begins `s`. */
  ghost predicate Announced(stops: seq<string>, s: string) {
    exists z :: z in stops && z <= s
  }

  /** `x` lies inside `y` from index `o`, away from both its ends. */
  ghost predicate StrictlyInside(x: string, y: string, o: int) {
    o > 0 && o + |x| < |y| && At(x, y, o)
  }

  /** A stop inside another hides it, unless by then some stop has begun where the outer one does. */
  ghost predicate NoHiddenStop(stops: seq<string>) {
    forall x, y, o :: x in stops && y in stops && StrictlyInside(x, y, o) ==> Announced(stops, y[..o + |x|])
  }

  /** A run ended by a stop shows the text before the first stop of everything that came. */
  ghost predicate ShowsUpToFirstStop(stops: seq<string>, texts: seq<string>)
    requires RealStops(stops)
  {
    var r, first := ReceiveRun(stops, texts), FirstStop(stops, Joined(texts));
    r.stop.Some? ==> first.Some? && r.shown == Joined(texts)[..first.value.at]
  }

  /** The stop a run names is the one the whole of what came would name. */
  ghost predicate NamesFirstStop(stops: seq<string>, texts: seq<string>)
    requires RealStops(stops)
  {
    var r, first := ReceiveRun(stops, texts), FirstStop(stops, Joined(texts));
    r.stop.Some? ==> first.Some? && r.stop.value == first.value.stop
  }

  /** What a run shows is independent of how its text was cut exactly when no stop hides another. */
  lemma CuttingMattersExactlyWhenHidden(stops: seq<string>)
    requires RealStops(stops)
    ensures NoHiddenStop(stops) <==> forall texts :: ShowsUpToFirstStop(stops, texts)
  {
    hide NoHiddenStop, ShowsUpToFirstStop;
    if NoHiddenStop(stops) {
      forall texts
        ensures ShowsUpToFirstStop(stops, texts)
      {
        NothingHiddenShowsAll(stops, texts);
      }
    } else {
      var texts := HiddenStopShows(stops);
    }
  }

  /** With no hidden stop, a stop found early is the first one of the whole text. */
  lemma FirstStopIsFinal(stops: seq<string>, got: string, more: string)
    requires NoHiddenStop(stops) && FirstStop(stops, got).Some?
    ensures FirstStop(stops, got + more).Some?
      && FirstStop(stops, got + more).value.at == FirstStop(stops, got).value.at
  {
    hide FirstStop, At, NoHiddenStop;
    var m := FirstStop(stops, got).value;
    AtAppend(m.stop, got, more, m.at);
    var f := FirstStop(stops, got + more).value;
    if f.at < m.at {
      AtAppend(f.stop, got, more, f.at);
      AtBounds(m.stop, got, m.at);
      AtBounds(f.stop, got + more, f.at);
      InsideOuter(got + more, f.stop, f.at, m.stop, m.at);
      var o := m.at - f.at;
      assert Announced(stops, f.stop[..o + |m.stop|]) by { HiddenMeans(stops, m.stop, f.stop, o); }
      var z :| z in stops && z <= f.stop[..o + |m.stop|];
      BeginsOuter(got, more, f.stop, f.at, z, o + |m.stop|);
    }
  }

  lemma HiddenMeans(stops: seq<string>, x: string, y: string, o: int)
    requires NoHiddenStop(stops) && x in stops && y in stops && StrictlyInside(x, y, o)
    ensures Announced(stops, y[..o + |x|])
  {
    hide Announced, StrictlyInside;
  }

  lemma InsideOuter(s: string, y: string, b: nat, x: string, a: nat)
    requires At(y, s, b) && At(x, s, a) && b < a && a + |x| < b + |y|
    ensures StrictlyInside(x, y, a - b)
  {
    SliceOfSlice(s, b, b + |y|, a - b, a - b + |x|);
  }

  lemma BeginsOuter(got: string, more: string, y: string, b: nat, z: string, n: nat)
    requires At(y, got + more, b) && n <= |y| && b + n <= |got| && z <= y[..n]
    ensures At(z, got, b)
  {
    assert (got + more)[b..b + |y|][..|z|] == got[b..b + |z|];
    assert y[..n][..|z|] == z;
  }

  lemma {:induction false} NothingHiddenShows(stops: seq<string>, seen: string, texts: seq<string>)
    requires NoHiddenStop(stops) && FirstStop(stops, seen).None?
    ensures var r, all := Receive(stops, seen, texts), seen + Joined(texts);
      r.stop.Some? ==>
        FirstStop(stops, all).Some? && seen[..Safe(stops, seen)] + r.shown == all[..FirstStop(stops, all).value.at]
    decreases |texts|
  {
    hide FirstStop, Safe, NoHiddenStop, At, Joined;
    if texts == [] {
    } else {
      var got := seen + texts[0];
      JoinedFirst(seen, texts);
      if FirstStop(stops, got).Some? {
        NothingHiddenNow(stops, seen, texts[0], Joined(texts[1..]));
      } else {
        SafeGrows(stops, seen, texts[0]);
        NothingHiddenShows(stops, got, texts[1..]);
        ShownGrows(seen, texts[0], Safe(stops, seen), Safe(stops, got), Receive(stops, got, texts[1..]).shown);
      }
    }
  }

  lemma NothingHiddenNow(stops: seq<string>, seen: string, text: string, more: string)
    requires NoHiddenStop(stops) && FirstStop(stops, seen).None? && FirstStop(stops, seen + text).Some?
    ensures var d, got, m := Safe(stops, seen), seen + text, FirstStop(stops, seen + text).value;
      && d <= m.at <= |got| && FirstStop(stops, got + more).Some?
      && seen[..d] + got[d..m.at] == (got + more)[..FirstStop(stops, got + more).value.at]
  {
    hide FirstStop, Safe, NoHiddenStop, At;
    var d, got, m := Safe(stops, seen), seen + text, FirstStop(stops, seen + text).value;
    FirstStopIsFinal(stops, got, more);
    StopStartsInTail(stops, seen, text, m.stop, m.at);
    AtBounds(m.stop, got, m.at);
    assert seen[..d] + got[d..m.at] == (got + more)[..m.at];
  }

  /** What was safe, what is safe now and what comes later, in one piece. */
  lemma ShownGrows(seen: string, text: string, d: nat, e: nat, later: string)
    requires d <= |seen| && d <= e <= |seen + text|
    ensures seen[..d] + ((seen + text)[d..e] + later) == (seen + text)[..e] + later
  {
    assert seen[..d] + (seen + text)[d..e] == (seen + text)[..e];
    Assoc(seen[..d], (seen + text)[d..e], later);
  }

  lemma NothingHiddenShowsAll(stops: seq<string>, texts: seq<string>)
    requires RealStops(stops) && NoHiddenStop(stops)
    ensures ShowsUpToFirstStop(stops, texts)
  {
    hide FirstStop, NoHiddenStop;
    NoStopInNothing(stops);
    NothingHiddenShows(stops, "", texts);
    var r := ReceiveRun(stops, texts);
    assert "" + Joined(texts) == Joined(texts) && ""[..Safe(stops, "")] + r.shown == r.shown;
  }

  /** A hidden stop: the outer one, cut where the inner one ends, is shown in part. */
  lemma HiddenStopShows(stops: seq<string>) returns (texts: seq<string>)
    requires RealStops(stops) && !NoHiddenStop(stops)
    ensures !ShowsUpToFirstStop(stops, texts) && !NamesFirstStop(stops, texts)
  {
    hide FirstStop, Safe, Receive, Joined, Announced, At;
    var x, y, o :| x in stops && y in stops && StrictlyInside(x, y, o) && !Announced(stops, y[..o + |x|]);
    var got, rest := y[..o + |x|], y[o + |x|..];
    texts := [got] + [rest];
    assert Joined(texts) == y by { JoinedTwo(got, rest); assert got + rest == y; }
    OuterOnly(stops, x, y, o);
    StopsAtOnce(stops, got, [rest], FirstStop(stops, got).value.at);
  }

  lemma JoinedTwo(a: string, b: string)
    ensures Joined([a] + [b]) == a + b
  {
    JoinedOne([a], b);
    assert [a][1..] == [] && a + "" == a;
  }

  /** Up to the end of a hidden stop only that and later stops show; in the whole of the outer one, it comes first. */
  lemma OuterOnly(stops: seq<string>, x: string, y: string, o: int)
    requires x in stops && y in stops && StrictlyInside(x, y, o) && !Announced(stops, y[..o + |x|])
    ensures var got := y[..o + |x|];
      && FirstStop(stops, got).Some? && 0 < FirstStop(stops, got).value.at <= |got|
      && FirstStop(stops, y).Some? && FirstStop(stops, y).value.at == 0
      && FirstStop(stops, y).value.stop != FirstStop(stops, got).value.stop
  {
    hide FirstStop;
    var got := y[..o + |x|];
    assert got[o..o + |x|] == y[o..o + |x|];
    assert At(x, got, o) && At(y, y, 0);
    var m, f := FirstStop(stops, got).value, FirstStop(stops, y).value;
    assert At(m.stop, got, 0) ==> m.stop <= got;
    AtBounds(m.stop, got, m.at);
    ShortBeginning(f.stop, y, |got|);
  }

  lemma ShortBeginning(z: string, y: string, n: nat)
    requires n <= |y|
    ensures z <= y && |z| <= n ==> z <= y[..n]
  {
    if z <= y && |z| <= n {
      assert y[..n][..|z|] == y[..|z|];
    }
  }

  // ----- When the stop named depends on it -----

  /** A stop that begins like another, longer by some, has one that it begins like ahead of it in the list. */
  ghost predicate ShorterFirst(stops: seq<string>) {
    forall i, x :: 0 <= i < |stops| && x in stops && x < stops[i] ==> Beginning(stops, i)
  }

  ghost predicate Beginning(stops: seq<string>, i: int) {
    exists j :: 0 <= j < i < |stops| && stops[j] < stops[i]
  }

  /** Of the stops found earliest it is the first in the list that is named. */
  lemma {:induction false} NamedIsFirst(stops: seq<string>, s: string) returns (k: nat)
    requires FirstStop(stops, s).Some?
    ensures var m := FirstStop(stops, s).value;
      && k < |stops| && stops[k] == m.stop && At(m.stop, s, m.at)
      && forall j :: 0 <= j < k ==> !At(stops[j], s, m.at)
    decreases |stops|
  {
    hide At, Find;
    var n := |stops| - 1;
    var front, m := stops[..n], FirstStop(stops, s).value;
    var rest := FirstStop(front, s);
    assert forall j :: 0 <= j < n ==> front[j] == stops[j] && front[j] in front;
    if rest.Some? && rest.value == m {
      k := NamedIsFirst(front, s);
    } else {
      k := n;
    }
  }

  /** With both conditions, a stop found early is named as the whole text would name it. */
  lemma NameIsFinal(stops: seq<string>, got: string, more: string)
    requires NoHiddenStop(stops) && ShorterFirst(stops) && FirstStop(stops, got).Some?
    ensures FirstStop(stops, got + more).Some?
    ensures FirstStop(stops, got + more).value.stop == FirstStop(stops, got).value.stop
  {
    hide FirstStop, NoHiddenStop, ShorterFirst, Beginning;
    FirstStopIsFinal(stops, got, more);
    var all, p := got + more, FirstStop(stops, got).value.at;
    var k := NamedIsFirst(stops, got);
    var l := NamedIsFirst(stops, all);
    AtAppend(stops[k], got, more, p);
    if l < k {
      assert !At(stops[l], got, p);
      BeginsLonger(got, more, stops[k], stops[l], p);
      BeginningAhead(stops, l, stops[k]);
      var j :| 0 <= j < l && stops[j] < stops[l];
      BeginningAt(stops[j], stops[l], all, p);
    }
  }

  lemma BeginningAhead(stops: seq<string>, i: nat, x: string)
    requires ShorterFirst(stops) && i < |stops| && x in stops && x < stops[i]
    ensures exists j :: 0 <= j < i && stops[j] < stops[i]
  {
    assert Beginning(stops, i);
  }

  lemma BeginningAt(z: string, y: string, s: string, p: nat)
    requires z <= y && At(y, s, p)
    ensures At(z, s, p)
  {
    assert s[p..p + |y|][..|z|] == s[p..p + |z|];
  }

  /** Of two stops at one place the one not there yet is the longer, and begins like the other. */
  lemma BeginsLonger(got: string, more: string, x: string, y: string, p: nat)
    requires At(x, got, p) && At(y, got + more, p) && !At(y, got, p)
    ensures x < y
  {
    AtAppend(y, got, more, p);
    AtAppend(x, got, more, p);
    AtBounds(x, got, p);
    AtBounds(y, got + more, p);
    var all := got + more;
    assert |got| < p + |y| && |x| < |y|;
    assert all[p..p + |y|][..|x|] == all[p..p + |x|];
  }

  lemma {:induction false} NamedAlike(stops: seq<string>, seen: string, texts: seq<string>)
    requires NoHiddenStop(stops) && ShorterFirst(stops) && FirstStop(stops, seen).None?
    ensures var r, all := Receive(stops, seen, texts), seen + Joined(texts);
      r.stop.Some? ==> FirstStop(stops, all).Some? && r.stop.value == FirstStop(stops, all).value.stop
    decreases |texts|
  {
    hide FirstStop, Safe, NoHiddenStop, ShorterFirst, At, Joined;
    if texts == [] {
    } else {
      var got := seen + texts[0];
      JoinedFirst(seen, texts);
      if FirstStop(stops, got).Some? {
        NameIsFinal(stops, got, Joined(texts[1..]));
      } else {
        NamedAlike(stops, got, texts[1..]);
      }
    }
  }

  lemma NamedAlikeFromStart(stops: seq<string>, texts: seq<string>)
    requires RealStops(stops) && NoHiddenStop(stops) && ShorterFirst(stops)
    ensures NamesFirstStop(stops, texts)
  {
    hide FirstStop, NoHiddenStop, ShorterFirst, Receive;
    NoStopInNothing(stops);
    NamedAlike(stops, "", texts);
    assert "" + Joined(texts) == Joined(texts);
  }

  /** A stop listed ahead of all that it begins like: cut where one of those ends, another name is given. */
  lemma LongerNamed(stops: seq<string>) returns (texts: seq<string>)
    requires RealStops(stops) && !ShorterFirst(stops)
    ensures !NamesFirstStop(stops, texts)
  {
    hide FirstStop, Receive, Joined, Beginning;
    var i, x :| 0 <= i < |stops| && x in stops && x < stops[i] && !Beginning(stops, i);
    var y := stops[i];
    var rest := y[|x|..];
    texts := [x] + [rest];
    assert Joined(texts) == y by { JoinedTwo(x, rest); assert x + rest == y; }
    WholeNamesLonger(stops, i);
    assert At(x, x, 0);
    var m := FirstStop(stops, x).value;
    AtBounds(m.stop, x, m.at);
    StopsAtOnce(stops, x, [rest], m.at);
  }

  lemma WholeNamesLonger(stops: seq<string>, i: nat)
    requires i < |stops| && !Beginning(stops, i)
    ensures FirstStop(stops, stops[i]).Some? && FirstStop(stops, stops[i]).value.stop == stops[i]
  {
    hide FirstStop, At, Beginning;
    var y := stops[i];
    AtStart(y, y);
    var k := NamedIsFirst(stops, y);
    assert k <= i;
    AtStart(stops[k], y);
    NoBeginning(stops, i, k);
  }

  lemma NoBeginning(stops: seq<string>, i: nat, k: nat)
    requires k <= i < |stops| && !Beginning(stops, i) && stops[k] <= stops[i]
    ensures stops[k] == stops[i]
  {
  }

  lemma AtStart(z: string, y: string)
    ensures At(z, y, 0) <==> z <= y
  {
  }

  /** The stop a run names is independent of how its text was cut exactly when no stop hides another
      and none is listed ahead of all that it begins like. */
  lemma NameDependsOnCutExactly(stops: seq<string>)
    requires RealStops(stops)
    ensures NoHiddenStop(stops) && ShorterFirst(stops) <==> forall texts :: NamesFirstStop(stops, texts)
  {
    hide NoHiddenStop, ShorterFirst, NamesFirstStop, ShowsUpToFirstStop;
    if !NoHiddenStop(stops) {
      var texts := HiddenStopShows(stops);
    } else if !ShorterFirst(stops) {
      var texts := LongerNamed(stops);
    } else {
      forall texts
        ensures NamesFirstStop(stops, texts)
      {
        NamedAlikeFromStart(stops, texts);
      }
    }
  }

  /** A list with no hidden stop where it does depend: `ab`, `c` names `ab`; the whole, `abc`. */
  lemma LongerStopNamedOnlyWhole()
    ensures RealStops(["abc", "ab"]) && NoHiddenStop(["abc", "ab"])
    ensures ReceiveRun(["abc", "ab"], ["abc"]).stop == Some("abc")
    ensures ReceiveRun(["abc", "ab"], ["ab", "c"]).stop == Some("ab")
  {
    hide FirstStop, NoHiddenStop, Receive;
    var stops := ["abc", "ab"];
    NothingInside(stops);
    assert !Beginning(stops, 0);
    WholeNamesLonger(stops, 0);
    StopsAtOnce(stops, "abc", [], FirstStop(stops, "abc").value.at);
    OnlyShorterYet(stops);
    StopsAtOnce(stops, "ab", ["c"], FirstStop(stops, "ab").value.at);
    assert ["abc"] + [] == ["abc"] && ["ab"] + ["c"] == ["ab", "c"];
  }

  lemma NothingInside(stops: seq<string>)
    requires stops == ["abc", "ab"]
    ensures NoHiddenStop(stops)
  {
    forall x, y, o | x in stops && y in stops
      ensures !StrictlyInside(x, y, o)
    {
      assert |x| >= 2 && |y| <= 3;
    }
  }

  lemma OnlyShorterYet(stops: seq<string>)
    requires stops == ["abc", "ab"]
    ensures FirstStop(stops, "ab").Some? && FirstStop(stops, "ab").value.stop == "ab"
  {
    hide FirstStop;
    assert "ab" in stops by { assert stops[1] == "ab"; }
    assert At("ab", "ab", 0);
    var m := FirstStop(stops, "ab").value;
    AtBounds(m.stop, "ab", m.at);
    assert m.stop == stops[0] || m.stop == stops[1];
  }

  // ----- Lists for which it does -----

  /** Such a list: cut between `abc` and `d` the run shows `a`, whole it shows nothing. */
  lemma HiddenStopShowsDifferently()
    ensures RealStops(["abcd", "bc"]) && !NoHiddenStop(["abcd", "bc"])
    ensures ReceiveRun(["abcd", "bc"], ["abcd"]).shown == ""
    ensures ReceiveRun(["abcd", "bc"], ["abc", "d"]).shown == "a"
  {
    hide FirstStop, NoHiddenStop, Receive, Safe;
    var stops := ["abcd", "bc"];
    InnerStop(stops);
    FirstIs(stops, "abcd", "abcd", 0);
    FirstIs(stops, "abc", "bc", 1);
    StopsAtOnce(stops, "abcd", [], 0);
    StopsAtOnce(stops, "abc", ["d"], 1);
    assert ["abcd"] + [] == ["abcd"] && ["abc"] + ["d"] == ["abc", "d"];
    assert "abcd"[..0] == "" && "abc"[..1] == "a";
  }

  lemma StopsAtOnce(stops: seq<string>, text: string, more: seq<string>, at: nat)
    requires RealStops(stops) && FirstStop(stops, text).Some? && FirstStop(stops, text).value.at == at
    ensures ReceiveRun(stops, [text] + more).stop == Some(FirstStop(stops, text).value.stop)
    ensures at <= |text| && ReceiveRun(stops, [text] + more).shown == text[..at]
  {
    hide FirstStop;
    NoStopInNothing(stops);
    AtBounds(FirstStop(stops, text).value.stop, text, at);
    assert "" + text == text;
  }

  lemma InnerStop(stops: seq<string>)
    requires stops == ["abcd", "bc"]
    ensures !NoHiddenStop(stops)
  {
    assert "bc" in stops by { assert stops[1] == "bc"; }
    assert "abcd" in stops by { assert stops[0] == "abcd"; }
    assert "abcd"[1..3] == "bc";
    assert StrictlyInside("bc", "abcd", 1);
    var begun := "abcd"[..1 + |"bc"|];
    forall z | z in stops
      ensures !(z <= begun)
    {
      assert begun[0] == 'a' && |begun| == 3;
    }
  }

  lemma FirstIs(stops: seq<string>, s: string, x: string, at: nat)
    requires stops == ["abcd", "bc"]
      && ((s == "abcd" && x == "abcd" && at == 0) || (s == "abc" && x == "bc" && at == 1))
    ensures FirstStop(stops, s).Some? && FirstStop(stops, s).value.at == at
  {
    hide FirstStop;
    assert x in stops by { assert stops[0] == "abcd" && stops[1] == "bc"; }
    assert s[at..at + |x|] == x;
    assert At(x, s, at);
    forall y | y in stops && s == "abc"
      ensures !At(y, s, 0)
    {
      assert s == "abc" ==> s[0..2][0] != "bc"[0];
    }
  }
}
