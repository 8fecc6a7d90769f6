/** Inputs on which the batch stripper and the one-pass reader disagree, and the filter over whole streams. */
module ThinkingSeams {
  import opened Text
  import opened Thinking
  import opened ThinkingCase
  import opened ThinkingStream

  // ----- The two ways a seam does harm -----

  function Block(n: string, x: string): string {
    "<" + n + ">" + x + Close(n)
  }

  /** A block with no `<` inside ends at its own close tag. */
  lemma BlockEndOf(alnum: set<char>, n: string, x: string, y: string)
    requires IsName(n) && '<' !in x && '>' !in x
    ensures TagName(alnum, Block(n, x) + y) == n
    ensures BlockEnd(alnum, Block(n, x) + y) == |Block(n, x)|
  {
    hide TagName, Find, TagIs, LowerAll;
    var s := Block(n, x) + y;
    BlockOpens(alnum, n, x, y);
    var rest := x + Close(n) + y;
    assert s[2 + |n|..] == rest;
    FirstClose(n, x, y);
  }

  lemma BlockOpens(alnum: set<char>, n: string, x: string, y: string)
    requires IsName(n)
    ensures TagName(alnum, Block(n, x) + y) == n && Find(">", Block(n, x) + y) == 1 + |n|
  {
    hide TagName, Find;
    var s := Block(n, x) + y;
    var m := 1 + |n|;
    assert s[..m] == "<" + n == LowerAll(s[..m]) && s[m] == '>';
    TagNameUnique(alnum, s, n);
    FirstGreaterThan(alnum, s, n);
    FindOne('>', s);
  }

  lemma FirstClose(n: string, x: string, y: string)
    requires IsName(n) && '<' !in x
    ensures Find(Close(n), LowerAll(x + Close(n) + y)) == |x|
  {
    hide Find;
    var p := Close(n);
    var low := LowerAll(x + p + y);
    assert low[|x|..|x| + |p|] == p;
    assert At(p, low, |x|);
    assert forall j :: 0 <= j < |x| ==> low[j] == Lower(x[j]) != '<';
    forall e | At(p, low, e)
      ensures |x| <= e
    {
      assert low[e] == low[e..e + |p|][0];
    }
  }

  lemma {:induction false} RemoveBlocksSkips(alnum: set<char>, s: string, k: nat)
    requires k <= |s| && forall i :: 0 <= i < k ==> BlockEnd(alnum, s[i..]) < 0
    ensures RemoveBlocks(alnum, s) == s[..k] + RemoveBlocks(alnum, s[k..])
    decreases k
  {
    hide BlockEnd;
    assert s[0..] == s;
    if k == 0 {
    } else {
      forall i | 0 <= i < k - 1
        ensures BlockEnd(alnum, s[1..][i..]) < 0
      {
        assert s[1..][i..] == s[i + 1..];
      }
      RemoveBlocksSkips(alnum, s[1..], k - 1);
      assert s[1..][k - 1..] == s[k..];
      assert s[..k] == [s[0]] + s[1..][..k - 1];
    }
  }

  lemma NoAngleNoBlocks(alnum: set<char>, s: string)
    requires '<' !in s
    ensures RemoveBlocks(alnum, s) == s
  {
    hide RemoveBlocks, TagName, Find;
    RemoveBlocksSkips(alnum, s, |s|);
    assert s[..|s|] == s && s[|s|..] == "";
    assert RemoveBlocks(alnum, "") == "" by { RemoveBlocksKeepsNothing(alnum); }
  }

  /** Batch takes `<think>` for a tag when removing a block has spelled it; the stream has shown it already. */
  lemma SeamCompletesATag(alnum: set<char>)
    ensures var s := "<thi" + Block("think", "x") + "nk>a";
      StripBlocks(alnum, s) == "" && Shown(alnum, s) == "<think>a"
  {
    hide RemoveBlocks, CutTail, Shown, TagName, BlockEnd, Block;
    var b := Block("think", "x") + "nk>a";
    var s := "<thi" + Block("think", "x") + "nk>a";
    assert s == "<thi" + b;
    BlockEndOf(alnum, "think", "x", "nk>a");
    assert b[|Block("think", "x")|..] == "nk>a";
    BlockShown(alnum, b);
    NoAngleNoBlocks(alnum, "nk>a");
    ShownWithoutAngle(alnum, "nk>a");
    forall i: nat | i < 4
      ensures TagName(alnum, s[i..]) == "" && BlockEnd(alnum, s[i..]) < 0
    {
      PartialName(alnum, b, i);
      NoTagNoBlock(alnum, s[i..]);
    }
    PlainPrefix(alnum, s, 4);
    RemoveBlocksSkips(alnum, s, 4);
    assert s[4..] == b && s[..4] == "<thi";
    assert "<thi" + "nk>a" == "<think>a";
    WholeTag(alnum, "<think>a", "think");
    TailGone(alnum, "<think>a");
  }

  lemma BlockShown(alnum: set<char>, b: string)
    requires b != "" && BlockEnd(alnum, b) >= 0
    ensures Shown(alnum, b) == Shown(alnum, b[BlockEnd(alnum, b)..])
    ensures RemoveBlocks(alnum, b) == RemoveBlocks(alnum, b[BlockEnd(alnum, b)..])
  {
    hide BlockEnd;
    ShownStep(alnum, b);
  }

  lemma PartialName(alnum: set<char>, b: string, i: nat)
    requires i < 4 && b != "" && b[0] == '<'
    ensures TagName(alnum, ("<thi" + b)[i..]) == ""
  {
    assert ("<thi" + b)[i..] == "<thi"[i..] + b;
    TagBeforeAngle(alnum, "<thi"[i..], b);
  }

  lemma NoTagNoBlock(alnum: set<char>, s: string)
    ensures TagName(alnum, s) == "" ==> BlockEnd(alnum, s) < 0
  {
  }

  lemma WholeTag(alnum: set<char>, s: string, n: string)
    requires IsName(n) && 1 + |n| < |s| && s[..1 + |n|] == "<" + n && s[1 + |n|] == '>'
    ensures TagName(alnum, s) == n
  {
    assert LowerAll("<" + n) == "<" + n;
    TagNameUnique(alnum, s, n);
  }

  lemma TailGone(alnum: set<char>, s: string)
    requires TagName(alnum, s) != ""
    ensures CutTail(alnum, s) == ""
  {
  }

  /** Batch loses a dangling tag when removing a block has run its name on; the stream hides what follows it. */
  lemma SeamBreaksATag(alnum: set<char>)
    ensures var s := "<thinking" + Block("think", "a") + "b";
      StripBlocks(alnum, s) == "<thinkingb" && Shown(alnum, s) == ""
  {
    hide RemoveBlocks, CutTail, Shown, TagName, BlockEnd;
    var b := Block("think", "a") + "b";
    var s := "<thinking" + Block("think", "a") + "b";
    assert s == "<thinking" + b && s[0..] == s;
    BlockEndOf(alnum, "think", "a", "b");
    assert b[|Block("think", "a")|..] == "b";
    BlockShown(alnum, b);
    NoAngleNoBlocks(alnum, "b");
    UnclosedThinking(alnum, b);
    forall i | 0 <= i < 9
      ensures BlockEnd(alnum, s[i..]) < 0
    {
      if i > 0 {
        assert s[i..][0] == s[i] == "<thinking"[i];
        NoTagNoBlock(alnum, s[i..]);
      }
    }
    RemoveBlocksSkips(alnum, s, 9);
    assert s[9..] == b && s[..9] == "<thinking";
    var r := "<thinkingb";
    assert "<thinking" + "b" == r;
    RunOnName(alnum);
    NoTagNoCut(alnum, r, 10);
    ShownStep(alnum, s);
  }

  lemma UnclosedThinking(alnum: set<char>, b: string)
    requires b == Block("think", "a") + "b"
    ensures TagName(alnum, "<thinking" + b) == "thinking" && BlockEnd(alnum, "<thinking" + b) < 0
  {
    hide Find, TagName, LowerAll, BlockEnd;
    var s := "<thinking" + b;
    assert s == "<thinking<think>a</think>b";
    TagThenAngle(alnum, s);
    NeverCloses(alnum, s);
  }

  lemma TagThenAngle(alnum: set<char>, s: string)
    requires s == "<thinking<think>a</think>b"
    ensures TagName(alnum, s) == "thinking" && Find(">", s) == 15
  {
    hide Find, TagName, LowerAll;
    assert s[..9] == "<thinking";
    ThinkingBegins(alnum, s);
    FindOne('>', s);
    assert s[15] == '>' && forall i :: 0 <= i < 15 ==> s[i] != '>';
  }

  lemma NeverCloses(alnum: set<char>, s: string)
    requires TagName(alnum, s) == "thinking" && 0 <= Find(">", s) < |s| && |s[Find(">", s) + 1..]| < |Close("thinking")|
    ensures BlockEnd(alnum, s) < 0
  {
    hide Find, TagName, LowerAll;
    TooShortToClose(s[Find(">", s) + 1..]);
  }

  lemma ThinkingBegins(alnum: set<char>, s: string)
    requires |s| > 9 && s[..9] == "<thinking" && s[9] == '<'
    ensures TagName(alnum, s) == "thinking"
  {
    assert LowerAll("<thinking") == "<thinking";
    TagNameUnique(alnum, s, "thinking");
  }

  lemma TooShortToClose(rest: string)
    requires |rest| < |Close("thinking")|
    ensures Find(Close("thinking"), LowerAll(rest)) < 0
  {
    hide Find, LowerAll;
    var low := LowerAll(rest);
    AtBounds(Close("thinking"), low, Find(Close("thinking"), low));
  }

  lemma RunOnName(alnum: set<char>)
    ensures TagName(alnum, "<thinkingb") == ""
  {
    var s := "<thinkingb";
    assert s[9] == 'b' && s[6] == 'i';
  }

  lemma {:induction false} NoTagNoCut(alnum: set<char>, s: string, k: nat)
    requires k == |s| && (s == "" || (TagName(alnum, s) == "" && '<' !in s[1..]))
    ensures CutTail(alnum, s) == s
    decreases k
  {
    hide TagName;
    if s == "" {
    } else {
      assert s[1..] != "" ==> s[1..][0] != '<';
      NoTagNoCut(alnum, s[1..], k - 1);
    }
  }

  // ----- Whole streams -----

  /** A fresh filter fed `fed` has shown `shown` and is left in state `st`. */
  ghost predicate Fed(alnum: set<char>, fed: string, shown: string, st: State) {
    forall c :: Shown(alnum, fed + c) == shown + Rest(alnum, st, c)
  }

  lemma FedNothing(alnum: set<char>)
    ensures Fed(alnum, "", "", State(Outside, "", ""))
  {
    hide Shown;
  }

  lemma FedMore(alnum: set<char>, fed: string, shown: string, st: State, text: string, out: string, st': State)
    requires Fed(alnum, fed, shown, st) && Emits(alnum, st.(buf := st.buf + text), out, st')
    ensures Fed(alnum, fed + text, shown + out, st')
  {
    hide Rest, Shown;
    forall c
      ensures Shown(alnum, fed + text + c) == shown + out + Rest(alnum, st', c)
    {
      HeldWithText(alnum, st, text, c);
      assert fed + text + c == fed + (text + c);
      assert shown + (out + Rest(alnum, st', c)) == shown + out + Rest(alnum, st', c);
    }
  }

  /** Every chunking of a text shows the same, whatever the case of its tags: what one pass over the whole
      shows, which is what the batch stripper keeps exactly when the seams are harmless. */
  method FilterStream(alnum: set<char>, chunks: seq<string>) returns (shown: string)
    ensures shown == Shown(alnum, Joined(chunks))
    ensures shown == StripBlocks(alnum, Joined(chunks)) <==> SeamsHarmless(alnum, Joined(chunks))
    ensures forall other :: SameButCase(other, Joined(chunks)) ==> SameButCase(Shown(alnum, other), shown)
  {
    hide Emits, Rest, SeamsHarmless, Fed, Settled, SameButCase;
    var filter := new ThinkingFilter(alnum);
    shown := "";
    FedNothing(alnum);
    for i := 0 to |chunks|
      invariant filter.Valid() && filter.alnum == alnum && fresh(filter)
      invariant Fed(alnum, Joined(chunks[..i]), shown, filter.Held())
    {
      ghost var before := filter.Held();
      var out := filter.Feed(chunks[i]);
      FedMore(alnum, Joined(chunks[..i]), shown, before, chunks[i], out, filter.Held());
      JoinedOne(chunks[..i], chunks[i]);
      assert chunks[..i + 1] == chunks[..i] + [chunks[i]];
      shown := shown + out;
    }
    assert chunks[..|chunks|] == chunks;
    FedAll(alnum, Joined(chunks), shown, filter.Held());
    var last := filter.Flush();
    shown := shown + last;
    BatchAgreesExactlyWhenSeamsHarmless(alnum, Joined(chunks));
    forall other | SameButCase(other, Joined(chunks))
      ensures SameButCase(Shown(alnum, other), shown)
    {
      CaseNeverMatters(alnum, other, Joined(chunks));
    }
  }

  lemma FedAll(alnum: set<char>, s: string, shown: string, st: State)
    requires Fed(alnum, s, shown, st)
    ensures Shown(alnum, s) == shown + Rest(alnum, st, "")
  {
    assert s + "" == s;
  }

  lemma HeldWithText(alnum: set<char>, st: State, text: string, c: string)
    ensures Rest(alnum, st, text + c) == Rest(alnum, st.(buf := st.buf + text), c)
  {
    assert st.buf + (text + c) == st.buf + text + c;
  }
}
