/**
  The two ways of hiding a model's reasoning: the batch stripper, two regular
  expressions over a finished answer, and `ThinkingFilter`, a state machine over
  an answer arriving in pieces.

  `alnum` stands for the non-ASCII characters Python counts as alphanumeric; the
  results hold for every such set.
 */
module Thinking {
  import opened Text

  // ----- Characters -----

  const KELVIN: char := '\U{212A}'

  /** Per-character `.lower()`, as far as it can reach a letter of `<thinking>`. */
  function Lower(c: char): char {
    if 'A' <= c <= 'Z' then c + 32 as char
    else if c == KELVIN then 'k'
    else c
  }

  function LowerAll(s: string): (r: string)
    ensures |r| == |s|
    ensures forall i :: 0 <= i < |s| ==> r[i] == Lower(s[i])
  {
    seq(|s|, i requires 0 <= i < |s| => Lower(s[i]))
  }

  /** `\w`, which is also `isalnum() or "_"`. */
  predicate IsWord(alnum: set<char>, c: char) {
    'a' <= c <= 'z' || 'A' <= c <= 'Z' || '0' <= c <= '9' || c == '_' || c == KELVIN || (c > '\U{7F}' && c in alnum)
  }

  lemma LowerSlice(s: string, i: nat, j: nat)
    requires i <= j <= |s|
    ensures LowerAll(s[i..j]) == LowerAll(s)[i..j]
  {
  }

  lemma LowerAppend(s: string, c: string)
    ensures LowerAll(s + c) == LowerAll(s) + LowerAll(c)
  {
  }

  // ----- The opening tag: `<(think(?:ing)?)\b` -----

  predicate IsName(n: string) {
    n == "thinking" || n == "think"
  }

  /** `<` and the name `n`, whatever its case, then a word boundary. */
  predicate TagIs(alnum: set<char>, s: string, n: string) {
    && 1 + |n| <= |s|
    && LowerAll(s[..1 + |n|]) == "<" + n
    && (1 + |n| == |s| || !IsWord(alnum, s[1 + |n|]))
  }

  /** The thinking tag `s` begins with, or "" for none. */
  function TagName(alnum: set<char>, s: string): (n: string)
    ensures n != "" ==> IsName(n) && s != "" && s[0] == '<'
  {
    if TagIs(alnum, s, "thinking") then
      assert LowerAll(s[..9])[0] == '<';
      "thinking"
    else if TagIs(alnum, s, "think") then
      assert LowerAll(s[..6])[0] == '<';
      "think"
    else ""
  }

  /** A text begins with at most one thinking tag: the boundary keeps `<thinking` from being a `<think`. */
  lemma TagNameUnique(alnum: set<char>, s: string, n: string)
    requires IsName(n)
    ensures TagIs(alnum, s, n) <==> TagName(alnum, s) == n
  {
    if TagIs(alnum, s, "thinking") {
      assert LowerAll(s[..9])[6] == 'i' == Lower(s[6]);
    }
  }

  function Close(n: string): string {
    "</" + n + ">"
  }

  // ----- The batch stripper -----

  /** `s[..z]` is in the language of the block pattern: a tag name at a word boundary,
      anything but `>`, then `>`, anything at all, and the matching close tag. */
  ghost predicate MatchesBlock(alnum: set<char>, s: string, z: int) {
    exists n, g, e :: BlockSplit(alnum, s, z, n, g, e)
  }

  ghost predicate BlockSplit(alnum: set<char>, s: string, z: int, n: string, g: int, e: int) {
    && IsName(n) && TagIs(alnum, s, n)
    && 1 + |n| <= g < e <= |s| && s[g] == '>' && '>' !in s[1 + |n|..g]
    && At(Close(n), LowerAll(s), e) && z == e + |Close(n)|
  }

  /** Where the block at the front of `s` ends, or -1. */
  function BlockEnd(alnum: set<char>, s: string): (z: int)
    ensures -1 <= z <= |s| && z != 0
  {
    var n := TagName(alnum, s);
    if n == "" then -1
    else
      var g := Find(">", s);
      if g < 0 then -1
      else
        var e := Find(Close(n), LowerAll(s[g + 1..]));
        if e < 0 then -1 else g + 1 + e + |Close(n)|
  }

  /** `BlockEnd` is the block pattern's match: it finds one if there is one, and the lazy
      `.*?` makes it the shortest. */
  lemma BlockEndIsShortestMatch(alnum: set<char>, s: string)
    ensures BlockEnd(alnum, s) < 0 ==> forall y :: !MatchesBlock(alnum, s, y)
    ensures BlockEnd(alnum, s) >= 0 ==> MatchesBlock(alnum, s, BlockEnd(alnum, s))
    ensures BlockEnd(alnum, s) >= 0 ==> forall y :: MatchesBlock(alnum, s, y) ==> BlockEnd(alnum, s) <= y
  {
    hide TagName, TagIs, Find, At, LowerAll;
    forall y | MatchesBlock(alnum, s, y)
      ensures 0 <= BlockEnd(alnum, s) <= y
    {
      var n, g, e :| BlockSplit(alnum, s, y, n, g, e);
      BlockGreaterThan(alnum, s, y, n, g, e);
      BlockClose(n, s, g);
    }
    if BlockEnd(alnum, s) >= 0 {
      BlockEndMatches(alnum, s);
    }
  }

  lemma BlockEndMatches(alnum: set<char>, s: string)
    requires BlockEnd(alnum, s) >= 0
    ensures MatchesBlock(alnum, s, BlockEnd(alnum, s))
  {
    hide TagName, TagIs, Find, At, LowerAll;
    var n, g := TagName(alnum, s), Find(">", s);
    TagNameUnique(alnum, s, n);
    FirstGreaterThan(alnum, s, n);
    BlockClose(n, s, g);
    var e := Find(Close(n), LowerAll(s[g + 1..]));
    AtBounds(Close(n), LowerAll(s[g + 1..]), e);
    assert BlockSplit(alnum, s, BlockEnd(alnum, s), n, g, g + 1 + e);
  }

  lemma NameHasNoAngle(alnum: set<char>, s: string, n: string)
    requires IsName(n) && TagIs(alnum, s, n)
    ensures forall i :: 0 <= i <= |n| ==> s[i] != '>'
  {
    forall i | 0 <= i <= |n|
      ensures s[i] != '>'
    {
      assert LowerAll(s[..1 + |n|])[i] == Lower(s[i]);
    }
  }

  /** The first `>` comes after the name. */
  lemma FirstGreaterThan(alnum: set<char>, s: string, n: string)
    requires IsName(n) && TagIs(alnum, s, n)
    ensures var f := Find(">", s); f >= 0 ==> 1 + |n| <= f < |s| && s[f] == '>' && '>' !in s[1 + |n|..f]
  {
    FindOne('>', s);
    NameHasNoAngle(alnum, s, n);
  }

  /** In any match the name is the one `TagName` reads and the `>` is the first one in the text. */
  lemma BlockGreaterThan(alnum: set<char>, s: string, y: int, m: string, g: int, e: int)
    requires BlockSplit(alnum, s, y, m, g, e)
    ensures m == TagName(alnum, s) && g == Find(">", s)
  {
    hide TagIs, At, Find;
    TagNameUnique(alnum, s, m);
    FirstGreaterThan(alnum, s, m);
    FindOne('>', s);
    var f := Find(">", s);
    assert forall i :: 1 + |m| <= i < g ==> s[i] in s[1 + |m|..g];
  }

  /** Close tags after the `>` are the ones found in the text after it. */
  lemma BlockClose(n: string, s: string, g: nat)
    requires g < |s|
    ensures forall e :: g < e ==> (At(Close(n), LowerAll(s), e) <==> At(Close(n), LowerAll(s[g + 1..]), e - g - 1))
  {
    LowerSlice(s, g + 1, |s|);
    assert s[g + 1..|s|] == s[g + 1..] && LowerAll(s)[g + 1..|s|] == LowerAll(s)[g + 1..];
    forall e | g < e
      ensures At(Close(n), LowerAll(s), e) <==> At(Close(n), LowerAll(s[g + 1..]), e - g - 1)
    {
      AtDrop(Close(n), LowerAll(s), g + 1, e);
    }
  }

  /** `_THINK_BLOCK_RE.sub("", s)`: leftmost, non-overlapping. */
  function RemoveBlocks(alnum: set<char>, s: string): string
    decreases |s|
  {
    if s == "" then ""
    else
      var z := BlockEnd(alnum, s);
      if z >= 0 then RemoveBlocks(alnum, s[z..])
      else [s[0]] + RemoveBlocks(alnum, s[1..])
  }

  /** `_THINK_TAIL_RE.sub("", s)`: everything from the first opening tag on. */
  function CutTail(alnum: set<char>, s: string): string
    decreases |s|
  {
    if s == "" || TagName(alnum, s) != "" then ""
    else [s[0]] + CutTail(alnum, s[1..])
  }

  /** `strip_thinking_blocks`, before its outer `.strip()`. */
  function StripBlocks(alnum: set<char>, s: string): string {
    CutTail(alnum, RemoveBlocks(alnum, s))
  }

  // ----- What a one-pass reader shows -----

  /** The text outside every thinking block, read left to right once. */
  function Shown(alnum: set<char>, s: string): string
    decreases |s|, 1
  {
    if s == "" then ""
    else
      var n := TagName(alnum, s);
      if n == "" then [s[0]] + Shown(alnum, s[1..])
      else AfterName(alnum, n, s)
  }

  function AfterName(alnum: set<char>, n: string, s: string): string
    decreases |s|, 0
  {
    var g := Find(">", s);
    if g < 0 then "" else Inside(alnum, n, s[g + 1..])
  }

  function Inside(alnum: set<char>, n: string, s: string): string
    decreases |s|
  {
    var e := Find(Close(n), LowerAll(s));
    if e < 0 then "" else Shown(alnum, s[e + |Close(n)|..])
  }

  /** The text from the first opening tag whose block never closes, or "". */
  function Dangling(alnum: set<char>, s: string): (d: string)
    ensures d != "" ==> TagName(alnum, d) != "" && BlockEnd(alnum, d) < 0
    decreases |s|
  {
    if s == "" then ""
    else
      var z := BlockEnd(alnum, s);
      if z >= 0 then Dangling(alnum, s[z..])
      else if TagName(alnum, s) != "" then s
      else Dangling(alnum, s[1..])
  }

  /** Some opening tag, complete or not, begins in `s`. */
  ghost predicate HasTag(alnum: set<char>, s: string) {
    exists i :: 0 <= i < |s| && TagName(alnum, s[i..]) != ""
  }

  /** One step of `Shown` in the batch stripper's terms. */
  lemma ShownStep(alnum: set<char>, s: string)
    requires s != ""
    ensures BlockEnd(alnum, s) >= 0 ==> Shown(alnum, s) == Shown(alnum, s[BlockEnd(alnum, s)..])
    ensures BlockEnd(alnum, s) < 0 && TagName(alnum, s) != "" ==> Shown(alnum, s) == ""
  {
    hide TagName, LowerAll, Find;
    var n := TagName(alnum, s);
    if n != "" {
      var g := Find(">", s);
      if g >= 0 {
        var e := Find(Close(n), LowerAll(s[g + 1..]));
        assert Shown(alnum, s) == Inside(alnum, n, s[g + 1..]);
        if e >= 0 {
          assert s[g + 1..][e + |Close(n)|..] == s[BlockEnd(alnum, s)..];
        }
      }
    }
  }

  lemma ShownPlain(alnum: set<char>, s: string)
    ensures s == "" ==> Shown(alnum, s) == ""
    ensures s != "" && TagName(alnum, s) == "" ==> Shown(alnum, s) == [s[0]] + Shown(alnum, s[1..])
  {
    hide TagName;
  }

  /** Block removal shows what one pass shows, then whatever it leaves of the dangling block. */
  lemma {:induction false} RemoveBlocksSplits(alnum: set<char>, s: string)
    ensures RemoveBlocks(alnum, s) == Shown(alnum, s) + RemoveBlocks(alnum, Dangling(alnum, s))
    decreases |s|
  {
    hide TagName, BlockEnd, Shown;
    if s == "" {
      ShownPlain(alnum, s);
    } else {
      ShownStep(alnum, s);
      var z := BlockEnd(alnum, s);
      if z >= 0 {
        RemoveBlocksSplits(alnum, s[z..]);
      } else if TagName(alnum, s) == "" {
        ShownPlain(alnum, s);
        RemoveBlocksSplits(alnum, s[1..]);
        Assoc([s[0]], Shown(alnum, s[1..]), RemoveBlocks(alnum, Dangling(alnum, s)));
      }
    }
  }

  lemma TagIsBeforeAngle(alnum: set<char>, p: string, u: string, n: string)
    requires p != "" && (u == "" || u[0] == '<') && IsName(n)
    ensures TagIs(alnum, p + u, n) <==> TagIs(alnum, p, n)
  {
    var m := 1 + |n|;
    if m <= |p| {
      assert (p + u)[..m] == p[..m];
    } else if m <= |p + u| {
      assert LowerAll((p + u)[..m])[|p|] == Lower(u[0]) == '<';
      assert ("<" + n)[|p|] != '<';
    }
  }

  /** Text ahead of a `<` decides its own tags. */
  lemma TagBeforeAngle(alnum: set<char>, p: string, u: string)
    requires p != "" && (u == "" || u[0] == '<')
    ensures TagName(alnum, p + u) == TagName(alnum, p)
  {
    TagIsBeforeAngle(alnum, p, u, "thinking");
    TagIsBeforeAngle(alnum, p, u, "think");
  }

  lemma HasTagStep(alnum: set<char>, p: string)
    requires p != ""
    ensures HasTag(alnum, p) <==> TagName(alnum, p) != "" || HasTag(alnum, p[1..])
  {
    assert p[0..] == p;
    if HasTag(alnum, p[1..]) {
      var i :| 0 <= i < |p[1..]| && TagName(alnum, p[1..][i..]) != "";
      assert p[1..][i..] == p[i + 1..];
    }
    if HasTag(alnum, p) && TagName(alnum, p) == "" {
      var i :| 0 <= i < |p| && TagName(alnum, p[i..]) != "";
      assert p[1..][i - 1..] == p[i..];
    }
  }

  /** What the tail cut keeps of visible text `p` followed by a dangling remainder `u`. */
  lemma {:induction false} CutTailOfJoin(alnum: set<char>, p: string, u: string)
    requires u == "" || u[0] == '<'
    ensures CutTail(alnum, p + u) == p <==> !HasTag(alnum, p) && (u == "" || TagName(alnum, u) != "")
    decreases |p|
  {
    hide TagName;
    if p == "" {
      assert p + u == u;
    } else {
      TagBeforeAngle(alnum, p, u);
      HasTagStep(alnum, p);
      CutTailOfJoin(alnum, p[1..], u);
      assert (p + u)[1..] == p[1..] + u;
      if TagName(alnum, p) == "" {
        var kept := CutTail(alnum, p[1..] + u);
        assert CutTail(alnum, p + u) == [p[0]] + kept;
        assert p == [p[0]] + p[1..];
        assert ([p[0]] + kept)[1..] == kept;
      }
    }
  }

  lemma RemoveBlocksKeepsFirst(alnum: set<char>, s: string)
    requires s != "" && BlockEnd(alnum, s) < 0
    ensures RemoveBlocks(alnum, s) == [s[0]] + RemoveBlocks(alnum, s[1..])
  {
  }

  /** Said of the input alone, place by place outside the blocks: removing the blocks further on
      makes no tag where the text has none, and leaves the tag whose block never closes a tag. */
  ghost predicate SeamsHarmless(alnum: set<char>, s: string)
    decreases |s|
  {
    if s == "" then true
    else
      var z := BlockEnd(alnum, s);
      if z >= 0 then SeamsHarmless(alnum, s[z..])
      else if TagName(alnum, s) != "" then TagName(alnum, RemoveBlocks(alnum, s)) != ""
      else TagName(alnum, RemoveBlocks(alnum, s)) == "" && SeamsHarmless(alnum, s[1..])
  }

  /** What the tail cut must meet to leave the visible text as it is. */
  ghost predicate NothingToCut(alnum: set<char>, s: string) {
    var d := Dangling(alnum, s);
    && !HasTag(alnum, Shown(alnum, s))
    && (d != "" ==> TagName(alnum, RemoveBlocks(alnum, d)) != "")
  }

  lemma {:induction false} HarmlessMeansNothingToCut(alnum: set<char>, s: string)
    ensures SeamsHarmless(alnum, s) <==> NothingToCut(alnum, s)
    decreases |s|
  {
    hide TagName, BlockEnd, Shown, HasTag, RemoveBlocks;
    if s == "" {
      ShownPlain(alnum, s);
      NoTagInNothing(alnum);
    } else {
      ShownStep(alnum, s);
      var z := BlockEnd(alnum, s);
      if z >= 0 {
        HarmlessMeansNothingToCut(alnum, s[z..]);
      } else if TagName(alnum, s) != "" {
        NoTagInNothing(alnum);
      } else {
        HarmlessMeansNothingToCut(alnum, s[1..]);
        ShownPlain(alnum, s);
        HasTagStep(alnum, Shown(alnum, s));
        TagOfResidue(alnum, s);
      }
    }
  }

  lemma NoTagInNothing(alnum: set<char>)
    ensures !HasTag(alnum, "")
  {
  }

  /** The tag at the front of visible text is the one at the front of what block removal leaves. */
  lemma TagOfResidue(alnum: set<char>, s: string)
    requires Shown(alnum, s) != ""
    ensures TagName(alnum, RemoveBlocks(alnum, s)) == TagName(alnum, Shown(alnum, s))
  {
    hide TagName, BlockEnd, Shown, RemoveBlocks;
    var d := Dangling(alnum, s);
    RemoveBlocksSplits(alnum, s);
    if d == "" {
      assert RemoveBlocks(alnum, d) == "" by { RemoveBlocksKeepsNothing(alnum); }
    } else {
      RemoveBlocksKeepsFirst(alnum, d);
    }
    TagBeforeAngle(alnum, Shown(alnum, s), RemoveBlocks(alnum, d));
  }

  lemma RemoveBlocksKeepsNothing(alnum: set<char>)
    ensures RemoveBlocks(alnum, "") == ""
  {
  }

  /** The batch stripper and the one-pass reader agree exactly when the seams are harmless. */
  lemma BatchAgreesExactlyWhenSeamsHarmless(alnum: set<char>, s: string)
    ensures StripBlocks(alnum, s) == Shown(alnum, s) <==> SeamsHarmless(alnum, s)
  {
    hide SeamsHarmless;
    var d := Dangling(alnum, s);
    var u := RemoveBlocks(alnum, d);
    RemoveBlocksSplits(alnum, s);
    if d != "" {
      RemoveBlocksKeepsFirst(alnum, d);
    }
    CutTailOfJoin(alnum, Shown(alnum, s), u);
    HarmlessMeansNothingToCut(alnum, s);
  }

  // ----- A condition on the input alone -----

  /** `r` ends with a nonempty prefix of `<thinking`, whatever its case. */
  ghost predicate EndsMidTag(r: string) {
    exists k :: 0 <= k < |r| && MidTag(r[k..])
  }

  ghost predicate MidTag(t: string) {
    1 <= |t| <= 9 && LowerAll(t) == "<thinking"[..|t|]
  }

  /** With `r` the text kept so far, no block removed from `s` follows the middle of a tag. */
  ghost predicate SeamFree(alnum: set<char>, r: string, s: string)
    decreases |s|
  {
    if s == "" then true
    else
      var z := BlockEnd(alnum, s);
      if z >= 0 then !EndsMidTag(r) && SeamFree(alnum, r, s[z..])
      else SeamFree(alnum, r + [s[0]], s[1..])
  }

  /** Text that does not end mid-tag decides its tags whatever follows it. */
  lemma TagDecided(alnum: set<char>, t: string, x: string, y: string)
    requires t != "" && !MidTag(t)
    ensures TagName(alnum, t + x) == TagName(alnum, t + y)
  {
    forall n | IsName(n)
      ensures TagIs(alnum, t + x, n) <==> TagIs(alnum, t + y, n)
    {
      TagNeedsPrefix(alnum, t, x, n);
      TagNeedsPrefix(alnum, t, y, n);
    }
  }

  lemma TagNeedsPrefix(alnum: set<char>, t: string, x: string, n: string)
    requires t != "" && !MidTag(t) && IsName(n)
    ensures TagIs(alnum, t + x, n) <==> 1 + |n| < |t| && TagIs(alnum, t, n)
  {
    var m := 1 + |n|;
    assert "<think" == "<thinking"[..6];
    if m < |t| {
      assert (t + x)[..m] == t[..m];
    } else if m <= |t + x| {
      assert (t + x)[..m][..|t|] == t;
      LowerSlice((t + x)[..m], 0, |t|);
    }
  }

  lemma TagAfterSeam(alnum: set<char>, r: string, x: string, y: string, i: nat)
    requires !EndsMidTag(r) && i < |r|
    ensures TagName(alnum, (r + x)[i..]) == TagName(alnum, (r + y)[i..])
  {
    hide TagName;
    assert !MidTag(r[i..]);
    TagDecided(alnum, r[i..], x, y);
    assert (r + x)[i..] == r[i..] + x;
    assert (r + y)[i..] == r[i..] + y;
  }

  /** Removing blocks at harmless seams changes no tag in the text before them. */
  lemma {:induction false} SeamFreeKeepsTags(alnum: set<char>, r: string, s: string, i: nat)
    requires SeamFree(alnum, r, s) && i < |r|
    ensures TagName(alnum, (r + RemoveBlocks(alnum, s))[i..]) == TagName(alnum, (r + s)[i..])
    decreases |s|
  {
    hide TagName, BlockEnd, EndsMidTag;
    if s == "" {
    } else {
      var z := BlockEnd(alnum, s);
      if z >= 0 {
        SeamFreeKeepsTags(alnum, r, s[z..], i);
        TagAfterSeam(alnum, r, s[z..], s, i);
      } else {
        SeamFreeKeepsTags(alnum, r + [s[0]], s[1..], i);
        MoveFirst(r, s);
        Reassociate(r, s[0], RemoveBlocks(alnum, s[1..]));
      }
    }
  }

  lemma Reassociate(r: string, c: char, t: string)
    ensures r + [c] + t == r + ([c] + t)
  {
  }

  lemma DropFront(r: string, t: string)
    ensures (r + t)[|r|..] == t
  {
  }

  lemma MoveFirst(r: string, s: string)
    requires s != ""
    ensures r + [s[0]] + s[1..] == r + s
  {
  }

  /** `r` holds no tag, read together with what follows it. */
  ghost predicate NoTagYet(alnum: set<char>, r: string, s: string) {
    forall i :: 0 <= i < |r| ==> TagName(alnum, (r + s)[i..]) == ""
  }

  lemma {:induction false} SeamFreeIsHarmlessFrom(alnum: set<char>, r: string, s: string)
    requires SeamFree(alnum, r, s) && NoTagYet(alnum, r, s)
    ensures !HasTag(alnum, r + Shown(alnum, s))
    ensures var d := Dangling(alnum, s); d != "" ==> TagName(alnum, RemoveBlocks(alnum, d)) != ""
    decreases |s|
  {
    hide TagName, BlockEnd;
    if s == "" {
      assert r + s == r;
    } else {
      var z := BlockEnd(alnum, s);
      ShownStep(alnum, s);
      if z >= 0 {
        forall i | 0 <= i < |r|
          ensures TagName(alnum, (r + s[z..])[i..]) == ""
        {
          TagAfterSeam(alnum, r, s[z..], s, i);
        }
        SeamFreeIsHarmlessFrom(alnum, r, s[z..]);
      } else if TagName(alnum, s) == "" {
        NoTagYetStep(alnum, r, s);
        SeamFreeIsHarmlessFrom(alnum, r + [s[0]], s[1..]);
        Reassociate(r, s[0], Shown(alnum, s[1..]));
      } else {
        DanglingTagIsKept(alnum, r, s);
        NoTagBeforeAngle(alnum, r, s);
        assert r + Shown(alnum, s) == r;
      }
    }
  }

  lemma NoTagYetStep(alnum: set<char>, r: string, s: string)
    requires s != "" && NoTagYet(alnum, r, s) && TagName(alnum, s) == ""
    ensures NoTagYet(alnum, r + [s[0]], s[1..])
  {
    hide TagName;
    MoveFirst(r, s);
    assert (r + s)[|r|..] == s;
  }

  lemma NoTagBeforeAngle(alnum: set<char>, r: string, s: string)
    requires s != "" && s[0] == '<' && NoTagYet(alnum, r, s)
    ensures !HasTag(alnum, r)
  {
    hide TagName;
    forall i | 0 <= i < |r|
      ensures TagName(alnum, r[i..]) == ""
    {
      TagBeforeAngle(alnum, r[i..], s);
      assert (r + s)[i..] == r[i..] + s;
    }
  }

  lemma DanglingTagIsKept(alnum: set<char>, r: string, s: string)
    requires s != "" && SeamFree(alnum, r, s) && BlockEnd(alnum, s) < 0 && TagName(alnum, s) != ""
    ensures TagName(alnum, RemoveBlocks(alnum, s)) != ""
  {
    hide TagName, BlockEnd, EndsMidTag;
    var r' := r + [s[0]];
    var kept := RemoveBlocks(alnum, s[1..]);
    SeamFreeKeepsTags(alnum, r', s[1..], |r|);
    MoveFirst(r, s);
    Reassociate(r, s[0], kept);
    DropFront(r, s);
    DropFront(r, [s[0]] + kept);
  }

  /** Where no removed block follows the middle of a tag, batch and one-pass reading agree. */
  lemma SeamFreeMeansAgreement(alnum: set<char>, s: string)
    requires SeamFree(alnum, "", s)
    ensures StripBlocks(alnum, s) == Shown(alnum, s)
  {
    SeamFreeIsHarmlessFrom(alnum, "", s);
    assert "" + Shown(alnum, s) == Shown(alnum, s);
    HarmlessMeansNothingToCut(alnum, s);
    BatchAgreesExactlyWhenSeamsHarmless(alnum, s);
  }
}
