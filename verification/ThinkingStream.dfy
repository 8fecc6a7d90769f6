/**
  `ThinkingFilter`: the one-pass reader of module Thinking over text that arrives
  in pieces. What is withheld is kept as (mode, name, buffer); `Rest` says what
  that state still owes, and every call keeps it.
 */
module ThinkingStream {
  import opened Text
  import opened Thinking

  const OPEN := "<think"

  datatype Mode = Outside | Name | Opening | InBlock

  /** What the filter carries from one piece of text to the next. */
  datatype State = State(mode: Mode, name: string, buf: string)

  /** What a reader in state `st` still shows when `c` is all the text to come. */
  function Rest(alnum: set<char>, st: State, c: string): string {
    match st.mode
    case Outside => Shown(alnum, st.buf + c)
    case Name => Shown(alnum, st.buf + c)
    case Opening => AfterName(alnum, st.name, st.buf + c)
    case InBlock => Inside(alnum, st.name, st.buf + c)
  }

  /** Going from `a` to `b` by emitting `out` changes nothing on any text to come. */
  ghost predicate Emits(alnum: set<char>, a: State, out: string, b: State) {
    forall c :: Rest(alnum, a, c) == out + Rest(alnum, b, c)
  }

  lemma EmitsNothing(alnum: set<char>, a: State)
    ensures Emits(alnum, a, "", a)
  {
    hide Rest;
  }

  lemma EmitsThen(alnum: set<char>, a: State, out: string, b: State, more: string, d: State)
    requires Emits(alnum, a, out, b) && Emits(alnum, b, more, d)
    ensures Emits(alnum, a, out + more, d)
  {
    hide Rest;
    forall c
      ensures Rest(alnum, a, c) == out + more + Rest(alnum, d, c)
    {
      assert out + (more + Rest(alnum, d, c)) == out + more + Rest(alnum, d, c);
    }
  }

  /** `t` is the beginning of `<think`, whatever its case. */
  predicate IsOpenPrefix(t: string) {
    |t| <= |OPEN| && LowerAll(t) == OPEN[..|t|]
  }

  /** The last `k` characters could still become an opening tag. */
  predicate ViableTail(s: string, k: int) {
    0 <= k < |OPEN| && k <= |s| && IsOpenPrefix(s[|s| - k..])
  }

  predicate AllWord(alnum: set<char>, s: string) {
    forall i :: 0 <= i < |s| ==> IsWord(alnum, s[i])
  }

  /** What may be withheld between two calls: only text whose reading is not decided yet. */
  ghost predicate Settled(alnum: set<char>, st: State) {
    match st.mode
    case Outside => st.name == "" && |st.buf| < |OPEN| && IsOpenPrefix(st.buf)
    case Name => st.name == "" && HasOpen(st.buf) && AllWord(alnum, st.buf[1..])
    case Opening => IsName(st.name) && '>' !in st.buf
    case InBlock => IsName(st.name) && |st.buf| < |Close(st.name)|
  }

  predicate HasOpen(s: string) {
    |OPEN| <= |s| && IsOpenPrefix(s[..|OPEN|])
  }

  // ----- Facts about `Shown` -----

  lemma {:induction false} PlainPrefix(alnum: set<char>, s: string, k: nat)
    requires k <= |s| && forall i :: 0 <= i < k ==> TagName(alnum, s[i..]) == ""
    ensures Shown(alnum, s) == s[..k] + Shown(alnum, s[k..])
    decreases k
  {
    hide TagName;
    if k == 0 {
      assert s[0..] == s;
    } else {
      assert s[0..] == s;
      forall i | 0 <= i < k - 1
        ensures TagName(alnum, s[1..][i..]) == ""
      {
        assert s[1..][i..] == s[i + 1..];
      }
      PlainPrefix(alnum, s[1..], k - 1);
      assert s[1..][k - 1..] == s[k..];
      assert s[..k] == [s[0]] + s[1..][..k - 1];
    }
  }

  /** A tag begins where `<think` begins. */
  lemma TagIsOpen(alnum: set<char>, s: string, i: nat)
    requires i < |s| && TagName(alnum, s[i..]) != ""
    ensures At(OPEN, LowerAll(s), i)
  {
    hide LowerAll;
    var n := TagName(alnum, s[i..]);
    TagNameUnique(alnum, s[i..], n);
    TagBegins(alnum, s, i, n);
  }

  lemma TagBegins(alnum: set<char>, s: string, i: nat, n: string)
    requires i < |s| && IsName(n) && TagIs(alnum, s[i..], n)
    ensures At(OPEN, LowerAll(s), i)
  {
    hide LowerAll;
    var m := 1 + |n|;
    LowerSlice(s, i, i + m);
    assert s[i..][..m] == s[i..i + m];
    assert ("<" + n)[..6] == OPEN;
    assert LowerAll(s)[i..i + 6] == LowerAll(s)[i..i + m][..6];
  }

  /** No tag begins ahead of a withheld tail that is all that could still become one. */
  lemma NoTagAhead(alnum: set<char>, s: string, keep: nat, c: string, i: nat)
    requires keep <= |s| && Find(OPEN, LowerAll(s)) < 0
    requires forall k :: keep < k ==> !ViableTail(s, k)
    requires i < |s| - keep
    ensures TagName(alnum, (s + c)[i..]) == ""
  {
    hide TagName, Find, LowerAll;
    if At(OPEN, LowerAll(s + c), i) {
      LowerAppend(s, c);
      FindAppend(OPEN, LowerAll(s), LowerAll(c));
      OpenCut(s, c, i);
    }
    if TagName(alnum, (s + c)[i..]) != "" {
      TagIsOpen(alnum, s + c, i);
    }
  }

  /** A `<think` that runs past the end of `s` leaves a prefix of itself there. */
  lemma OpenCut(s: string, c: string, i: nat)
    requires At(OPEN, LowerAll(s + c), i) && i < |s| < i + |OPEN|
    ensures ViableTail(s, |s| - i)
  {
    var k := |s| - i;
    LowerSlice(s + c, i, i + |OPEN|);
    LowerSlice((s + c)[i..i + |OPEN|], 0, k);
    assert (s + c)[i..i + |OPEN|][0..k] == (s + c)[i..|s|];
    assert (s + c)[i..|s|] == s[i..];
    assert s[|s| - k..] == s[i..];
  }

  /** No tag begins before the first `<think`. */
  lemma NoTagBeforeOpen(alnum: set<char>, s: string, c: string, i: nat)
    requires i < Find(OPEN, LowerAll(s))
    ensures TagName(alnum, (s + c)[i..]) == ""
  {
    hide TagName, Find;
    if TagName(alnum, (s + c)[i..]) != "" {
      TagIsOpen(alnum, s + c, i);
      LowerAppend(s, c);
      FindAppend(OPEN, LowerAll(s), LowerAll(c));
    }
  }

  /** A name that has ended is decided, whatever text comes next. */
  lemma NameDecided(alnum: set<char>, s: string, e: nat, c: string)
    requires 1 <= e < |s| && s[0] == '<' && AllWord(alnum, s[1..e]) && !IsWord(alnum, s[e])
    ensures TagName(alnum, s + c) == if IsName(LowerAll(s[1..e])) then LowerAll(s[1..e]) else ""
  {
    hide TagName;
    NameRead(alnum, s, e, c, "thinking");
    NameRead(alnum, s, e, c, "think");
    TagNameUnique(alnum, s + c, "thinking");
    TagNameUnique(alnum, s + c, "think");
  }

  lemma NameRead(alnum: set<char>, s: string, e: nat, c: string, n: string)
    requires 1 <= e < |s| && s[0] == '<' && AllWord(alnum, s[1..e]) && !IsWord(alnum, s[e]) && IsName(n)
    ensures TagIs(alnum, s + c, n) <==> LowerAll(s[1..e]) == n
  {
    hide TagIs, AllWord, LowerAll;
    if e < 1 + |n| {
      NameTooShort(alnum, s, e, c, n);
    } else {
      NameInPlace(alnum, s, e, c, n);
    }
  }

  lemma NameTooShort(alnum: set<char>, s: string, e: nat, c: string, n: string)
    requires 1 <= e < |s| && e < 1 + |n| && !IsWord(alnum, s[e]) && IsName(n)
    ensures !TagIs(alnum, s + c, n) && LowerAll(s[1..e]) != n
  {
    assert Lower(s[e]) != ("<" + n)[e];
    assert 1 + |n| <= |s + c| ==> LowerAll((s + c)[..1 + |n|])[e] == Lower(s[e]);
  }

  lemma NameInPlace(alnum: set<char>, s: string, e: nat, c: string, n: string)
    requires 1 + |n| <= e < |s| && s[0] == '<' && AllWord(alnum, s[1..e]) && !IsWord(alnum, s[e]) && n != ""
    ensures TagIs(alnum, s + c, n) <==> LowerAll(s[1..e]) == n
  {
    hide LowerAll;
    var m := 1 + |n|;
    assert (s + c)[..m] == s[..m];
    assert m < e ==> s[m] == s[1..e][m - 1];
    LowerWithAngle(s, m);
    LowerSlice(s[1..e], 0, m - 1);
    assert s[1..e][0..m - 1] == s[1..m];
    assert ("<" + n)[1..] == n && ("<" + LowerAll(s[1..m]))[1..] == LowerAll(s[1..m]);
    assert m == e ==> LowerAll(s[1..e]) == LowerAll(s[1..m]);
  }

  lemma LowerWithAngle(s: string, m: nat)
    requires 1 <= m <= |s| && s[0] == '<'
    ensures LowerAll(s[..m]) == "<" + LowerAll(s[1..m])
  {
  }

  /** Text with no second `<` in it holds no second tag. */
  lemma {:induction false} ShownWithoutAngle(alnum: set<char>, s: string)
    requires '<' !in s
    ensures Shown(alnum, s) == s
  {
    hide TagName;
    if s == "" {
    } else {
      ShownWithoutAngle(alnum, s[1..]);
    }
  }

  lemma WordsHaveNoAngle(alnum: set<char>, s: string)
    requires AllWord(alnum, s)
    ensures '<' !in s && '>' !in s
  {
  }

  /** The opening tag ends at its first `>`, whatever text comes next. */
  lemma OpeningEnds(alnum: set<char>, n: string, s: string, c: string)
    requires Find(">", s) >= 0
    ensures AfterName(alnum, n, s + c) == Inside(alnum, n, s[Find(">", s) + 1..] + c)
  {
    hide Find;
    FindAppend(">", s, c);
    FindOne('>', s);
    var g := Find(">", s);
    assert (s + c)[g + 1..] == s[g + 1..] + c;
  }

  /** The block ends at its first close tag, whatever text comes next. */
  lemma BlockCloses(alnum: set<char>, n: string, s: string, c: string)
    requires Find(Close(n), LowerAll(s)) >= 0
    ensures var z := Find(Close(n), LowerAll(s)) + |Close(n)|;
      z <= |s| && Inside(alnum, n, s + c) == Shown(alnum, s[z..] + c)
  {
    hide Find, Shown;
    LowerAppend(s, c);
    FindAppend(Close(n), LowerAll(s), LowerAll(c));
    var z := Find(Close(n), LowerAll(s)) + |Close(n)|;
    AtBounds(Close(n), LowerAll(s), z - |Close(n)|);
    assert (s + c)[z..] == s[z..] + c;
  }

  /** Inside a block all but a possible partial close tag may be dropped. */
  lemma BlockTail(alnum: set<char>, n: string, s: string, drop: nat, c: string)
    requires Find(Close(n), LowerAll(s)) < 0 && drop <= |s| && (drop == 0 || |s| - drop == |Close(n)| - 1)
    ensures Inside(alnum, n, s + c) == Inside(alnum, n, s[drop..] + c)
  {
    hide Find, At, Shown;
    var p := Close(n);
    var low := LowerAll(s + c);
    LowerAppend(s, c);
    FindAppend(p, LowerAll(s), LowerAll(c));
    FindDrop(p, low, drop);
    LowerSlice(s + c, drop, |s + c|);
    assert (s + c)[drop..|s + c|] == s[drop..] + c && low[drop..|s + c|] == low[drop..];
    var e := Find(p, low);
    if e >= 0 {
      AtBounds(p, low, e);
      assert (s + c)[e + |p|..] == (s[drop..] + c)[e - drop + |p|..];
    }
  }

  // ----- One turn of the filter's loop -----

  lemma EmitPlain(alnum: set<char>, s: string, keep: nat)
    requires keep <= |s| && Find(OPEN, LowerAll(s)) < 0
    requires forall k :: keep < k ==> !ViableTail(s, k)
    ensures Emits(alnum, State(Outside, "", s), s[..|s| - keep], State(Outside, "", s[|s| - keep..]))
  {
    hide Find, TagName, Shown;
    var d := |s| - keep;
    forall c
      ensures Shown(alnum, s + c) == s[..d] + Shown(alnum, s[d..] + c)
    {
      forall i: nat | i < d
        ensures TagName(alnum, (s + c)[i..]) == ""
      {
        NoTagAhead(alnum, s, keep, c, i);
      }
      PlainPrefix(alnum, s + c, d);
      assert (s + c)[..d] == s[..d] && (s + c)[d..] == s[d..] + c;
    }
  }

  lemma FoundOpen(alnum: set<char>, s: string)
    requires Find(OPEN, LowerAll(s)) >= 0
    ensures var k := Find(OPEN, LowerAll(s));
      HasOpen(s[k..]) && Emits(alnum, State(Outside, "", s), s[..k], State(Name, "", s[k..]))
  {
    hide Find, TagName, Shown;
    var k := Find(OPEN, LowerAll(s));
    LowerSlice(s, k, k + |OPEN|);
    assert s[k..][..|OPEN|] == s[k..k + |OPEN|];
    forall c
      ensures Shown(alnum, s + c) == s[..k] + Shown(alnum, s[k..] + c)
    {
      forall i: nat | i < k
        ensures TagName(alnum, (s + c)[i..]) == ""
      {
        NoTagBeforeOpen(alnum, s, c, i);
      }
      PlainPrefix(alnum, s + c, k);
      assert (s + c)[..k] == s[..k] && (s + c)[k..] == s[k..] + c;
    }
  }

  lemma HasOpenStartsWithAngle(s: string)
    requires HasOpen(s)
    ensures s[0] == '<'
  {
    assert LowerAll(s[..|OPEN|])[0] == '<';
  }

  lemma NameEnds(alnum: set<char>, s: string, read: string)
    requires HasOpen(s) && 1 + |read| < |s| && read == s[1..1 + |read|]
    requires AllWord(alnum, read) && !IsWord(alnum, s[1 + |read|])
    ensures IsName(LowerAll(read)) ==> Emits(alnum, State(Name, "", s), "", State(Opening, LowerAll(read), s))
    ensures !IsName(LowerAll(read)) ==> Emits(alnum, State(Name, "", s), [s[0]], State(Outside, "", s[1..]))
  {
    hide TagName, AfterName;
    HasOpenStartsWithAngle(s);
    forall c
      ensures TagName(alnum, s + c) == if IsName(LowerAll(read)) then LowerAll(read) else ""
      ensures (s + c)[1..] == s[1..] + c
    {
      NameDecided(alnum, s, 1 + |read|, c);
    }
  }

  lemma OpeningTurn(alnum: set<char>, n: string, s: string)
    requires Find(">", s) >= 0
    ensures Find(">", s) < |s|
    ensures Emits(alnum, State(Opening, n, s), "", State(InBlock, n, s[Find(">", s) + 1..]))
  {
    hide Find, AfterName, Inside;
    FindOne('>', s);
    forall c
      ensures AfterName(alnum, n, s + c) == Inside(alnum, n, s[Find(">", s) + 1..] + c)
    {
      OpeningEnds(alnum, n, s, c);
    }
  }

  lemma BlockTurn(alnum: set<char>, n: string, s: string)
    requires Find(Close(n), LowerAll(s)) >= 0
    ensures var z := Find(Close(n), LowerAll(s)) + |Close(n)|;
      z <= |s| && Emits(alnum, State(InBlock, n, s), "", State(Outside, "", s[z..]))
  {
    hide Find, Shown, Inside, Close;
    var z := Find(Close(n), LowerAll(s)) + |Close(n)|;
    BlockCloses(alnum, n, s, "");
    forall c
      ensures Inside(alnum, n, s + c) == Shown(alnum, s[z..] + c)
    {
      BlockCloses(alnum, n, s, c);
    }
  }

  lemma BlockWaits(alnum: set<char>, n: string, s: string, drop: nat)
    requires Find(Close(n), LowerAll(s)) < 0 && drop <= |s| && (drop == 0 || |s| - drop == |Close(n)| - 1)
    ensures Emits(alnum, State(InBlock, n, s), "", State(InBlock, n, s[drop..]))
  {
    hide Find, Inside, Close;
    forall c
      ensures Inside(alnum, n, s + c) == Inside(alnum, n, s[drop..] + c)
    {
      BlockTail(alnum, n, s, drop, c);
    }
  }

  /** At the end of the stream a withheld buffer outside a block is shown, unless it is a whole tag name. */
  lemma FlushOwes(alnum: set<char>, st: State)
    requires Settled(alnum, st)
    ensures st.mode == Opening || st.mode == InBlock ==> Rest(alnum, st, "") == ""
    ensures st.mode == Outside ==> Rest(alnum, st, "") == st.buf
    ensures st.mode == Name ==> Rest(alnum, st, "") == if IsName(LowerAll(st.buf[1..])) then "" else st.buf
  {
    var s := st.buf;
    assert s + "" == s;
    match st.mode {
      case Outside =>
        ShortIsPlain(alnum, s);
      case Name =>
        WholeName(alnum, s);
      case Opening =>
        FindOne('>', s);
      case InBlock =>
        assert forall i :: !At(Close(st.name), LowerAll(s), i);
    }
  }

  lemma ShortIsPlain(alnum: set<char>, s: string)
    requires |s| < |OPEN|
    ensures Shown(alnum, s) == s
  {
    hide TagName, Shown;
    forall i: nat | i < |s|
      ensures TagName(alnum, s[i..]) == ""
    {
      if TagName(alnum, s[i..]) != "" {
        TagIsOpen(alnum, s, i);
      }
    }
    PlainPrefix(alnum, s, |s|);
    ShownOfNothing(alnum);
    assert s[|s|..] == "" && s[..|s|] == s;
  }

  lemma ShownOfNothing(alnum: set<char>)
    ensures Shown(alnum, "") == ""
  {
  }

  lemma WholeName(alnum: set<char>, s: string)
    requires HasOpen(s) && AllWord(alnum, s[1..])
    ensures Shown(alnum, s) == if IsName(LowerAll(s[1..])) then "" else s
  {
    hide Find;
    HasOpenStartsWithAngle(s);
    WordsHaveNoAngle(alnum, s[1..]);
    WholeNameRead(alnum, s, "thinking");
    WholeNameRead(alnum, s, "think");
    TagNameUnique(alnum, s, "thinking");
    TagNameUnique(alnum, s, "think");
    FindOne('>', s);
    assert s == [s[0]] + s[1..];
    ShownWithoutAngle(alnum, s[1..]);
  }

  lemma WholeNameRead(alnum: set<char>, s: string, n: string)
    requires s != "" && s[0] == '<' && AllWord(alnum, s[1..]) && IsName(n)
    ensures TagIs(alnum, s, n) <==> LowerAll(s[1..]) == n
  {
    var m := 1 + |n|;
    if m <= |s| {
      LowerWithAngle(s, m);
      assert m < |s| ==> s[1..][m - 1] == s[m];
      assert ("<" + n)[1..] == n;
      assert m == |s| ==> s[1..m] == s[1..];
    }
  }

  lemma EmptyIsViable(s: string)
    ensures ViableTail(s, 0)
  {
  }

  /** What holds of the filter's state at every turn of its loop. */
  ghost predicate Turning(st: State) {
    match st.mode
    case Outside => st.name == ""
    case Name => st.name == "" && HasOpen(st.buf)
    case Opening => IsName(st.name)
    case InBlock => IsName(st.name)
  }

  lemma SettledStartsTurning(alnum: set<char>, st: State, text: string)
    requires Settled(alnum, st)
    ensures Turning(st.(buf := st.buf + text))
  {
    if st.mode == Name {
      assert (st.buf + text)[..|OPEN|] == st.buf[..|OPEN|];
    }
  }

  lemma TurningEmptyIsSettled(alnum: set<char>, st: State)
    requires Turning(st) && st.buf == ""
    ensures Settled(alnum, st)
  {
  }

  lemma PlainIsSettled(alnum: set<char>, s: string, keep: nat)
    requires ViableTail(s, keep)
    ensures Settled(alnum, State(Outside, "", s[|s| - keep..]))
  {
  }

  // ----- Each turn, as the loop takes it: from `start` with `out` emitted, in state `st` -----

  lemma OutsideWaits(alnum: set<char>, start: State, out: string, st: State, keep: nat)
    requires Turning(st) && st.mode == Outside && Emits(alnum, start, out, st)
    requires Find(OPEN, LowerAll(st.buf)) < 0
    requires keep <= |st.buf| && ViableTail(st.buf, keep) && forall k :: keep < k ==> !ViableTail(st.buf, k)
    ensures var next := st.(buf := st.buf[|st.buf| - keep..]);
      Settled(alnum, next) && Emits(alnum, start, out + st.buf[..|st.buf| - keep], next)
  {
    hide Emits, Find, ViableTail, LowerAll, Settled;
    var s := st.buf;
    EmitPlain(alnum, s, keep);
    PlainIsSettled(alnum, s, keep);
    EmitsThen(alnum, start, out, st, s[..|s| - keep], State(Outside, "", s[|s| - keep..]));
  }

  lemma OutsideFinds(alnum: set<char>, start: State, out: string, st: State)
    requires Turning(st) && st.mode == Outside && Emits(alnum, start, out, st)
    requires Find(OPEN, LowerAll(st.buf)) >= 0
    ensures var k := Find(OPEN, LowerAll(st.buf));
      var next := st.(mode := Name, buf := st.buf[k..]);
      Turning(next) && Emits(alnum, start, out + st.buf[..k], next)
  {
    hide Emits, Find, HasOpen;
    var k := Find(OPEN, LowerAll(st.buf));
    FoundOpen(alnum, st.buf);
    EmitsThen(alnum, start, out, st, st.buf[..k], State(Name, "", st.buf[k..]));
  }

  lemma NameWaits(alnum: set<char>, st: State)
    requires Turning(st) && st.mode == Name && AllWord(alnum, st.buf[1..])
    ensures Settled(alnum, st)
  {
  }

  lemma NameTurn(alnum: set<char>, start: State, out: string, st: State, read: string)
    requires Turning(st) && st.mode == Name && Emits(alnum, start, out, st)
    requires 1 + |read| < |st.buf| && read == st.buf[1..1 + |read|] && AllWord(alnum, read)
      && !IsWord(alnum, st.buf[1 + |read|])
    ensures IsName(LowerAll(read)) ==>
      var next := st.(mode := Opening, name := LowerAll(read)); Turning(next) && Emits(alnum, start, out, next)
    ensures !IsName(LowerAll(read)) ==>
      var next := st.(mode := Outside, buf := st.buf[1..]);
        Turning(next) && Emits(alnum, start, out + [st.buf[0]], next)
  {
    hide Emits, LowerAll, HasOpen, AllWord, IsWord;
    NameEnds(alnum, st.buf, read);
    if IsName(LowerAll(read)) {
      EmitsThen(alnum, start, out, st, "", State(Opening, LowerAll(read), st.buf));
      assert out + "" == out;
    } else {
      EmitsThen(alnum, start, out, st, [st.buf[0]], State(Outside, "", st.buf[1..]));
    }
  }

  lemma OpeningWaits(alnum: set<char>, st: State)
    requires Turning(st) && st.mode == Opening && Find(">", st.buf) < 0
    ensures Settled(alnum, st)
  {
    hide Find, IsName;
    FindOne('>', st.buf);
  }

  lemma OpeningGoes(alnum: set<char>, start: State, out: string, st: State)
    requires Turning(st) && st.mode == Opening && Emits(alnum, start, out, st) && Find(">", st.buf) >= 0
    ensures var e := Find(">", st.buf) + 1;
      e <= |st.buf| && var next := st.(mode := InBlock, buf := st.buf[e..]);
        Turning(next) && Emits(alnum, start, out, next)
  {
    hide Emits, Find, IsName;
    OpeningTurn(alnum, st.name, st.buf);
    EmitsThen(alnum, start, out, st, "", State(InBlock, st.name, st.buf[Find(">", st.buf) + 1..]));
    assert out + "" == out;
  }

  lemma CloseIsLong(n: string)
    ensures |Close(n)| >= 3
  {
  }

  lemma InBlockWaits(alnum: set<char>, start: State, out: string, st: State, keep: nat)
    requires Turning(st) && st.mode == InBlock && Emits(alnum, start, out, st)
    requires Find(Close(st.name), LowerAll(st.buf)) < 0
    requires keep == if |st.buf| < |Close(st.name)| - 1 then |st.buf| else |Close(st.name)| - 1
    ensures var next := st.(buf := st.buf[|st.buf| - keep..]); Settled(alnum, next) && Emits(alnum, start, out, next)
  {
    hide Emits, Find, LowerAll;
    BlockWaits(alnum, st.name, st.buf, |st.buf| - keep);
    EmitsThen(alnum, start, out, st, "", State(InBlock, st.name, st.buf[|st.buf| - keep..]));
    assert out + "" == out;
  }

  lemma InBlockGoes(alnum: set<char>, start: State, out: string, st: State)
    requires Turning(st) && st.mode == InBlock && Emits(alnum, start, out, st)
      && Find(Close(st.name), LowerAll(st.buf)) >= 0
    ensures var z := Find(Close(st.name), LowerAll(st.buf)) + |Close(st.name)|;
      0 < z <= |st.buf| && var next := State(Outside, "", st.buf[z..]); Turning(next) && Emits(alnum, start, out, next)
  {
    hide Emits, Find, LowerAll;
    BlockTurn(alnum, st.name, st.buf);
    var z := Find(Close(st.name), LowerAll(st.buf)) + |Close(st.name)|;
    EmitsThen(alnum, start, out, st, "", State(Outside, "", st.buf[z..]));
    assert out + "" == out;
  }

  // ----- The filter -----

  class ThinkingFilter {
    const alnum: set<char>
    var buf: string
    var mode: Mode
    var name: string

    ghost function Held(): State
      reads this
    {
      State(mode, name, buf)
    }

    ghost predicate Valid()
      reads this
    {
      Settled(alnum, Held())
    }

    constructor (alnum: set<char>)
      ensures Valid() && this.alnum == alnum && Held() == State(Outside, "", "")
    {
      this.alnum := alnum;
      buf, mode, name := "", Outside, "";
    }

    /** The tag name after a leading `<`, and whether it ended. */
    static method ReadName(alnum: set<char>, text: string) returns (read: string, complete: bool)
      requires text != ""
      ensures 1 + |read| <= |text| && read == text[1..1 + |read|] && AllWord(alnum, read)
      ensures complete <==> 1 + |read| < |text|
      ensures !complete ==> read == text[1..]
      ensures complete ==> !IsWord(alnum, text[1 + |read|])
    {
      var i := 1;
      while i < |text| && IsWord(alnum, text[i])
        invariant 1 <= i <= |text|
        invariant forall j :: 1 <= j < i ==> IsWord(alnum, text[j])
      {
        i := i + 1;
      }
      read, complete := text[1..i], i < |text|;
    }

    /** How many trailing characters could still become an opening tag. */
    static method ViablePrefixLen(text: string) returns (keep: nat)
      ensures ViableTail(text, keep) && keep <= |text|
      ensures forall k :: keep < k ==> !ViableTail(text, k)
    {
      hide IsOpenPrefix;
      keep := if |text| < |OPEN| - 1 then |text| else |OPEN| - 1;
      while keep > 0 && !IsOpenPrefix(text[|text| - keep..])
        invariant keep < |OPEN| && keep <= |text|
        invariant forall k :: keep < k ==> !ViableTail(text, k)
      {
        keep := keep - 1;
      }
      EmptyIsViable(text);
    }

    /** The text safe to emit now: what was owed on any text to come is what is emitted
        plus what is owed afterwards, and only undecided text is withheld. */
    method Feed(text: string) returns (out: string)
      requires Valid()
      modifies this
      ensures Valid()
      ensures Emits(alnum, State(old(mode), old(name), old(buf) + text), out, Held())
    {
      hide Emits, Turning, Settled, Find, At, LowerAll, Lower, ViableTail, HasOpen, IsOpenPrefix, AllWord, IsWord,
        IsName, Close, Rest;
      SettledStartsTurning(alnum, Held(), text);
      buf := buf + text;
      out := "";
      ghost var start := Held();
      EmitsNothing(alnum, start);
      while buf != ""
        invariant Turning(Held()) && Emits(alnum, start, out, Held())
        decreases |buf|, if mode == Outside then 2 else if mode == Name then 1 else 0
      {
        ghost var before := Held();
        match mode {
          case Outside =>
            var index := Find(OPEN, LowerAll(buf));
            if index < 0 {
              var keep := ViablePrefixLen(buf);
              OutsideWaits(alnum, start, out, before, keep);
              out := out + buf[..|buf| - keep];
              buf := buf[|buf| - keep..];
              return;
            }
            OutsideFinds(alnum, start, out, before);
            out := out + buf[..index];
            buf := buf[index..];
            mode := Name;
          case Name =>
            var read, complete := ReadName(alnum, buf);
            if !complete {
              NameWaits(alnum, before);
              return;
            }
            NameTurn(alnum, start, out, before, read);
            if IsName(LowerAll(read)) {
              name := LowerAll(read);
              mode := Opening;
            } else {
              out := out + [buf[0]];
              buf := buf[1..];
              mode := Outside;
            }
          case Opening =>
            var end := Find(">", buf);
            if end < 0 {
              OpeningWaits(alnum, before);
              return;
            }
            OpeningGoes(alnum, start, out, before);
            buf := buf[end + 1..];
            mode := InBlock;
          case InBlock =>
            var close := Close(name);
            CloseIsLong(name);
            var end := Find(close, LowerAll(buf));
            if end < 0 {
              var keep := if |buf| < |close| - 1 then |buf| else |close| - 1;
              InBlockWaits(alnum, start, out, before, keep);
              buf := buf[|buf| - keep..];
              return;
            }
            InBlockGoes(alnum, start, out, before);
            buf := buf[end + |close|..];
            mode := Outside;
            name := "";
        }
      }
      TurningEmptyIsSettled(alnum, Held());
    }

    /** Whatever is still withheld, decided as it must be now that no text comes. */
    method Flush() returns (out: string)
      requires Valid()
      modifies this
      ensures Valid() && Held() == State(Outside, "", "")
      ensures out == Rest(alnum, old(Held()), "")
    {
      var held, was := buf, mode;
      FlushOwes(alnum, Held());
      buf, mode, name := "", Outside, "";
      if was == Opening || was == InBlock {
        return "";
      }
      if was == Name {
        var read, _ := ReadName(alnum, held);
        assert AllWord(alnum, held[1..]);
        return if IsName(LowerAll(read)) then "" else held;
      }
      return held;
    }
  }
}
