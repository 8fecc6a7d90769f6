/** The shape of `contents`: who speaks when, and that nothing said is lost, made up or moved. */
module GeminiTurns {
  import opened Options
  import opened Signatures
  import opened Gemini

  datatype Tagged = Tagged(role: Role, part: Part)

  function Tags(role: Role, parts: seq<Part>): (r: seq<Tagged>)
    ensures |r| == |parts| && forall i :: 0 <= i < |parts| ==> r[i] == Tagged(role, parts[i])
  {
    seq(|parts|, i requires 0 <= i < |parts| => Tagged(role, parts[i]))
  }

  /** Every part in order, with its speaker. */
  function Flat(turns: seq<Turn>): seq<Tagged> {
    if turns == [] then []
    else
      var n := |turns| - 1;
      Flat(turns[..n]) + Tags(turns[n].role, turns[n].parts)
  }

  /** Speakers alternate, and nobody takes an empty turn. */
  ghost predicate Alternating(turns: seq<Turn>) {
    && (forall i :: 0 <= i < |turns| ==> turns[i].parts != [])
    && (forall i :: 0 < i < |turns| ==> turns[i - 1].role != turns[i].role)
  }

  lemma FlatSnoc(turns: seq<Turn>, t: Turn)
    ensures Flat(turns + [t]) == Flat(turns) + Tags(t.role, t.parts)
  {
    assert (turns + [t])[..|turns|] == turns;
  }

  lemma TagsSum(role: Role, a: seq<Part>, b: seq<Part>)
    ensures Tags(role, a + b) == Tags(role, a) + Tags(role, b)
  {
  }

  lemma AddedFlat(turns: seq<Turn>, role: Role, parts: seq<Part>)
    requires Alternating(turns)
    ensures Alternating(Added(turns, role, parts))
    ensures Flat(Added(turns, role, parts)) == Flat(turns) + Tags(role, parts)
  {
    hide Tags, Flat;
    if parts == [] {
      assert Tags(role, parts) == [];
    } else {
      var n := |turns| - 1;
      if turns != [] && turns[n].role == role {
        FlatSnoc(turns[..n], turns[n]);
        assert turns == turns[..n] + [turns[n]];
        FlatSnoc(turns[..n], Turn(role, turns[n].parts + parts));
        TagsSum(role, turns[n].parts, parts);
        assert Flat(turns[..n]) + (Tags(role, turns[n].parts) + Tags(role, parts))
            == Flat(turns[..n]) + Tags(role, turns[n].parts) + Tags(role, parts);
      } else {
        FlatSnoc(turns, Turn(role, parts));
      }
    }
  }

  /** What the first `n` messages say, in order. */
  function SaidSoFar(codec: Codec, items: seq<Item>, clock: Clock, messages: seq<Message>, n: nat): seq<Tagged>
    requires n <= |messages|
  {
    if n == 0 then []
    else
      var said := Says(codec, items, clock, messages, n - 1);
      SaidSoFar(codec, items, clock, messages, n - 1) + if said.Ok? then Tags(said.value.role, said.value.parts) else []
  }

  /** The system texts among the first `n` messages, in order, empty ones left out. */
  function SystemTexts(codec: Codec, items: seq<Item>, clock: Clock, messages: seq<Message>, n: nat): seq<string>
    requires n <= |messages|
  {
    if n == 0 then []
    else
      var said := Says(codec, items, clock, messages, n - 1);
      SystemTexts(codec, items, clock, messages, n - 1)
      + if said.Ok? && said.value.system != "" then [said.value.system] else []
  }

  /** Some message among the first `n` replays a call without a signature. */
  ghost predicate SomeUnsigned(codec: Codec, items: seq<Item>, clock: Clock, messages: seq<Message>, n: nat)
    requires n <= |messages|
  {
    exists i :: 0 <= i < n && Says(codec, items, clock, messages, i).Ok?
      && Says(codec, items, clock, messages, i).value.unsigned
  }

  lemma {:induction false} DraftIsInOrder(codec: Codec, items: seq<Item>, clock: Clock, messages: seq<Message>, n: nat)
    requires n <= |messages| && Drafted(codec, items, clock, messages, n).Ok?
    ensures var d := Drafted(codec, items, clock, messages, n).value;
      && Alternating(d.turns) && Flat(d.turns) == SaidSoFar(codec, items, clock, messages, n)
      && d.system == SystemTexts(codec, items, clock, messages, n)
      && (d.unsigned <==> SomeUnsigned(codec, items, clock, messages, n))
  {
    hide Says, Tags, Alternating, Flat, SaidSoFar, SystemTexts, SomeUnsigned, Drafted, Added;
    if n == 0 {
      NothingAlternates();
      NothingDrafted(codec, items, clock, messages);
    } else {
      DraftedBefore(codec, items, clock, messages, n);
      DraftIsInOrder(codec, items, clock, messages, n - 1);
      var said := Says(codec, items, clock, messages, n - 1).value;
      AddedFlat(Drafted(codec, items, clock, messages, n - 1).value.turns, said.role, said.parts);
      OneMoreSaid(codec, items, clock, messages, n);
    }
  }

  lemma NothingDrafted(codec: Codec, items: seq<Item>, clock: Clock, messages: seq<Message>)
    ensures Drafted(codec, items, clock, messages, 0) == Ok(Draft([], [], false)) && Flat([]) == []
    ensures SaidSoFar(codec, items, clock, messages, 0) == [] && SystemTexts(codec, items, clock, messages, 0) == []
    ensures !SomeUnsigned(codec, items, clock, messages, 0)
  {
    hide Says;
  }

  lemma DraftedBefore(codec: Codec, items: seq<Item>, clock: Clock, messages: seq<Message>, n: nat)
    requires 0 < n <= |messages| && Drafted(codec, items, clock, messages, n).Ok?
    ensures Drafted(codec, items, clock, messages, n - 1).Ok? && Says(codec, items, clock, messages, n - 1).Ok?
    ensures Drafted(codec, items, clock, messages, n).value
         == WithSaid(Drafted(codec, items, clock, messages, n - 1).value,
           Says(codec, items, clock, messages, n - 1).value)
  {
    hide Says, WithSaid;
  }

  lemma OneMoreSaid(codec: Codec, items: seq<Item>, clock: Clock, messages: seq<Message>, n: nat)
    requires 0 < n <= |messages| && Says(codec, items, clock, messages, n - 1).Ok?
    ensures var said := Says(codec, items, clock, messages, n - 1).value;
      && SaidSoFar(codec, items, clock, messages, n)
        == SaidSoFar(codec, items, clock, messages, n - 1) + Tags(said.role, said.parts)
      && SystemTexts(codec, items, clock, messages, n)
         == SystemTexts(codec, items, clock, messages, n - 1) + (if said.system == "" then [] else [said.system])
      && (SomeUnsigned(codec, items, clock, messages, n) <==>
        SomeUnsigned(codec, items, clock, messages, n - 1) || said.unsigned)
  {
    hide Says, Tags;
  }

  lemma NothingAlternates()
    ensures Alternating([])
  {
  }

  lemma {:induction false} FlatFirst(t: Turn, turns: seq<Turn>)
    ensures Flat([t] + turns) == Tags(t.role, t.parts) + Flat(turns)
    decreases |turns|
  {
    hide Tags;
    if turns == [] {
      assert [t] + turns == [] + [t];
      FlatSnoc([], t);
    } else {
      var n := |turns| - 1;
      FlatFirst(t, turns[..n]);
      assert [t] + turns == ([t] + turns[..n]) + [turns[n]];
      FlatSnoc([t] + turns[..n], turns[n]);
      assert Tags(t.role, t.parts) + Flat(turns[..n]) + Tags(turns[n].role, turns[n].parts)
          == Tags(t.role, t.parts) + (Flat(turns[..n]) + Tags(turns[n].role, turns[n].parts));
    }
  }

  /** The system text in front, where it is folded in. */
  function Lead(system: seq<string>, foldSystem: bool): seq<Tagged> {
    if foldSystem && system != [] then [Tagged(User, Text(JoinedBy("\n\n", system) + "\n\n"))] else []
  }

  /** The contents sent are, in order, all that the messages say, with the system texts in front
      where they are folded in and as the instruction where not; speakers alternate, no turn is
      empty, and the caller is told whether some call is replayed unsigned. */
  lemma ContentsAreInOrder(codec: Codec, items: seq<Item>, clock: Clock, messages: seq<Message>, foldSystem: bool)
    requires Translated(codec, items, clock, messages, foldSystem).Ok?
    ensures var c, system := Translated(codec, items, clock, messages, foldSystem).value,
      SystemTexts(codec, items, clock, messages, |messages|);
      && Alternating(c.turns)
      && Flat(c.turns) == Lead(system, foldSystem) + SaidSoFar(codec, items, clock, messages, |messages|)
      && (c.unsigned <==> SomeUnsigned(codec, items, clock, messages, |messages|))
      && c.instruction == if system != [] && !foldSystem then Some(JoinedBy("\n\n", system)) else None
  {
    hide Drafted, JoinedBy, Tags, SystemTexts, SomeUnsigned, SaidSoFar, Flat;
    var d := Drafted(codec, items, clock, messages, |messages|).value;
    DraftIsInOrder(codec, items, clock, messages, |messages|);
    LedFlat(d, foldSystem);
  }

  lemma LedFlat(d: Draft, foldSystem: bool)
    requires Alternating(d.turns)
    ensures Alternating(Finished(d, foldSystem).turns)
    ensures Flat(Finished(d, foldSystem).turns) == Lead(d.system, foldSystem) + Flat(d.turns)
  {
    hide JoinedBy, Tags, Flat, Alternating;
    if foldSystem && d.system != [] {
      LeadInFront(d.turns, Text(JoinedBy("\n\n", d.system) + "\n\n"));
    } else {
      assert [] + Flat(d.turns) == Flat(d.turns);
    }
  }

  /** Putting a part in front of the first user turn, or in a turn of its own. */
  lemma LeadInFront(turns: seq<Turn>, lead: Part)
    requires Alternating(turns)
    ensures var led := if turns != [] && turns[0].role == User then [Turn(User, [lead] + turns[0].parts)] + turns[1..]
      else [Turn(User, [lead])] + turns;
      Alternating(led) && Flat(led) == [Tagged(User, lead)] + Flat(turns)
  {
    hide Tags, Flat;
    TagsOne(lead);
    if turns != [] && turns[0].role == User {
      var first, rest := turns[0], turns[1..];
      assert turns == [first] + rest;
      FlatFirst(first, rest);
      FlatFirst(Turn(User, [lead] + first.parts), rest);
      TagsSum(User, [lead], first.parts);
      assert [Tagged(User, lead)] + Tags(User, first.parts) + Flat(rest)
        == [Tagged(User, lead)] + (Tags(User, first.parts) + Flat(rest));
    } else {
      FlatFirst(Turn(User, [lead]), turns);
    }
  }

  lemma TagsOne(p: Part)
    ensures Tags(User, [p]) == [Tagged(User, p)]
  {
  }

  // ----- That says all there is to say of the turns -----

  lemma LastTag(turns: seq<Turn>, k: nat)
    requires Alternating(turns) && turns != [] && k <= |turns[|turns| - 1].parts|
    ensures |Flat(turns)| >= |turns[|turns| - 1].parts|
    ensures var n, f := |turns| - 1, Flat(turns);
      && (0 < k ==> f[|f| - k] == Tagged(turns[n].role, turns[n].parts[|turns[n].parts| - k]))
      && (|f| > |turns[n].parts| ==> f[|f| - |turns[n].parts| - 1].role != turns[n].role)
  {
    hide Tags;
    var n := |turns| - 1;
    var back := turns[..n];
    if n > 0 {
      var m := n - 1;
      assert Flat(back) == Flat(back[..m]) + Tags(back[m].role, back[m].parts);
      var last := Tags(back[m].role, back[m].parts);
      assert Flat(back)[|Flat(back)| - 1] == last[|last| - 1];
    }
  }

  /** Turns that alternate and say the same are the same: consecutive turns of one speaker, tool
      results among them, can only be one. */
  lemma {:induction false} TurnsAreDetermined(a: seq<Turn>, b: seq<Turn>)
    requires Alternating(a) && Alternating(b) && Flat(a) == Flat(b)
    ensures a == b
    decreases |a|
  {
    hide Tags, Flat;
    FlatOfNothing(a);
    FlatOfNothing(b);
    if a == [] {
    } else {
      var x, y := a[|a| - 1], b[|b| - 1];
      var n := if |x.parts| <= |y.parts| then |x.parts| else |y.parts|;
      SameLastRole(a, b);
      SameLastLength(a, b);
      SameLastLength(b, a);
      forall i | 0 <= i < |x.parts|
        ensures x.parts[i] == y.parts[i]
      {
        LastTag(a, |x.parts| - i);
        LastTag(b, |x.parts| - i);
      }
      assert x == y;
      FlatFront(a);
      FlatFront(b);
      TurnsAreDetermined(a[..|a| - 1], b[..|b| - 1]);
      assert a == a[..|a| - 1] + [x] && b == b[..|b| - 1] + [y];
    }
  }

  lemma FlatOfNothing(turns: seq<Turn>)
    requires Alternating(turns)
    ensures turns == [] <==> Flat(turns) == []
  {
  }

  lemma FlatFront(turns: seq<Turn>)
    requires turns != [] && Alternating(turns)
    ensures Alternating(turns[..|turns| - 1])
    ensures var t := turns[|turns| - 1];
      |Flat(turns)| >= |t.parts| && Flat(turns[..|turns| - 1]) == Flat(turns)[..|Flat(turns)| - |t.parts|]
  {
    hide Tags;
  }

  lemma {:induction false} SameLastRole(a: seq<Turn>, b: seq<Turn>)
    requires a != [] && b != [] && Alternating(a) && Alternating(b) && Flat(a) == Flat(b)
    ensures a[|a| - 1].role == b[|b| - 1].role
  {
    hide Flat;
    LastTag(a, 1);
    LastTag(b, 1);
  }

  lemma {:induction false} SameLastLength(a: seq<Turn>, b: seq<Turn>)
    requires a != [] && b != [] && Alternating(a) && Alternating(b) && Flat(a) == Flat(b)
    requires a[|a| - 1].role == b[|b| - 1].role
    ensures |a[|a| - 1].parts| >= |b[|b| - 1].parts|
  {
    hide Flat;
    var k, l := |a[|a| - 1].parts|, |b[|b| - 1].parts|;
    LastTag(b, if k < l then k + 1 else l);
    LastTag(a, k);
  }
}
