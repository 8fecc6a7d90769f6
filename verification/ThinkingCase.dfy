/** Thinking tags whatever their case, and the blocks they open and close. */
module ThinkingCase {
  import opened Text
  import opened Thinking

  // ----- Case -----

  /** One letter in either case, as `re.IGNORECASE` and `.lower()` have it: to both the Kelvin sign is a k. */
  ghost predicate SameLetter(x: char, y: char) {
    || x == y
    || ('A' <= x <= 'Z' && y as int == x as int + 32)
    || ('A' <= y <= 'Z' && x as int == y as int + 32)
    || (x in "kK\U{212A}" && y in "kK\U{212A}")
  }

  ghost predicate SameButCase(a: string, b: string) {
    |a| == |b| && forall i :: 0 <= i < |a| ==> SameLetter(a[i], b[i])
  }

  lemma LowerExactly(x: char, y: char)
    ensures Lower(x) == Lower(y) <==> SameLetter(x, y)
  {
    var k := "kK\U{212A}";
    assert forall c :: c in k <==> c == k[0] || c == k[1] || c == k[2];
  }

  lemma LowerAllExactly(a: string, b: string)
    ensures LowerAll(a) == LowerAll(b) <==> SameButCase(a, b)
  {
    hide Lower, SameLetter;
    forall i | 0 <= i < |a| && i < |b|
      ensures Lower(a[i]) == Lower(b[i]) <==> SameLetter(a[i], b[i])
    {
      LowerExactly(a[i], b[i]);
    }
    if LowerAll(a) == LowerAll(b) {
      assert forall i :: 0 <= i < |a| ==> LowerAll(a)[i] == Lower(a[i]) && LowerAll(b)[i] == Lower(b[i]);
    }
    if SameButCase(a, b) {
      assert LowerAll(a) == LowerAll(b);
    }
  }

  lemma LowerFrom(a: string, b: string, i: nat)
    requires LowerAll(a) == LowerAll(b) && i <= |a|
    ensures |a| == |b| && LowerAll(a[i..]) == LowerAll(b[i..]) && LowerAll(a[..i]) == LowerAll(b[..i])
  {
    assert |LowerAll(a)| == |LowerAll(b)|;
    LowerSlice(a, i, |a|);
    LowerSlice(b, i, |b|);
    LowerSlice(a, 0, i);
    LowerSlice(b, 0, i);
    assert a[i..|a|] == a[i..] && b[i..|b|] == b[i..] && a[0..i] == a[..i] && b[0..i] == b[..i];
  }

  // ----- Where a tag ends -----

  /** A letter, digit or underscore: the Kelvin sign and those of `alnum` are among them. */
  ghost predicate InAWord(alnum: set<char>, c: char) {
    || c in "_0123456789" || 'a' <= c <= 'z' || 'A' <= c <= 'Z' || c == '\U{212A}'
    || (c in alnum && c > '\U{7F}')
  }

  lemma WordExactly(alnum: set<char>, c: char)
    ensures IsWord(alnum, c) <==> InAWord(alnum, c)
  {
    var d := "_0123456789";
    if '0' <= c <= '9' {
      assert d[1 + (c - '0') as int] == c;
    } else if c == '_' {
      assert d[0] == c;
    } else {
      assert forall i :: 0 <= i < |d| ==> d[i] != c;
    }
  }

  /** A tag is `<` and the name, in any case, where no word goes on after it. */
  lemma TagExactly(alnum: set<char>, s: string, n: string)
    requires n in {"think", "thinking"}
    ensures TagName(alnum, s) == n <==>
      && 1 + |n| <= |s| && SameButCase(s[..1 + |n|], "<" + n)
      && (1 + |n| == |s| || !InAWord(alnum, s[1 + |n|]))
  {
    hide IsWord, InAWord, TagName, SameButCase;
    TagNameUnique(alnum, s, n);
    if 1 + |n| <= |s| {
      assert LowerAll("<" + n) == "<" + n by { NameIsLower(n); }
      LowerAllExactly(s[..1 + |n|], "<" + n);
      if 1 + |n| < |s| {
        WordExactly(alnum, s[1 + |n|]);
      }
    }
  }

  lemma NameIsLower(n: string)
    requires IsName(n)
    ensures LowerAll("<" + n) == "<" + n && LowerAll(Close(n)) == Close(n)
  {
  }

  // ----- Blocks -----

  /** `s` reads `p`, in any case, from `i` on. */
  ghost predicate ReadsAt(p: string, s: string, i: int) {
    0 <= i && i + |p| <= |s| && SameButCase(s[i..i + |p|], p)
  }

  lemma ReadsExactly(p: string, s: string, i: int)
    requires LowerAll(p) == p
    ensures ReadsAt(p, s, i) <==> At(p, LowerAll(s), i)
  {
    hide LowerAll, SameButCase;
    if 0 <= i && i + |p| <= |s| {
      LowerSlice(s, i, i + |p|);
      LowerAllExactly(s[i..i + |p|], p);
    }
  }

  /** No close tag of `n`, in any case, begins in the first `k` characters. */
  ghost predicate NoCloseIn(n: string, s: string, k: int) {
    forall i :: 0 <= i < k ==> !ReadsAt("</" + n + ">", s, i)
  }

  /** A block, its tags in any case, is hidden whole: up to the first close tag of its own name. */
  lemma BlockIsHidden(alnum: set<char>, n: string, open: string, attributes: string, x: string, close: string,
                      rest: string)
    requires n in {"think", "thinking"} && SameButCase(open, "<" + n) && SameButCase(close, "</" + n + ">")
    requires '>' !in attributes && (attributes == "" || !InAWord(alnum, attributes[0]))
    requires NoCloseIn(n, x + (close + rest), |x|)
    ensures var s := open + (attributes + (">" + (x + (close + rest))));
      Shown(alnum, s) == Shown(alnum, rest) && RemoveBlocks(alnum, s) == RemoveBlocks(alnum, rest)
  {
    hide TagName, Find, LowerAll, SameButCase, InAWord, NoCloseIn, Shown, RemoveBlocks, BlockEnd;
    var body := x + (close + rest);
    var tail := attributes + (">" + body);
    var s := open + tail;
    var g := |open| + |attributes|;
    OpensAt(alnum, n, open, attributes, body);
    ClosesAt(n, x, close, rest);
    assert |open| == 1 + |n| && |close| == |Close(n)| by { SameLength(open, "<" + n); SameLength(close, Close(n)); }
    assert s[g + 1..] == body;
    var z := g + 1 + |x| + |close|;
    assert s[z..] == rest;
    assert BlockEnd(alnum, s) == z by { EndIs(alnum, s, n, g, |x|); }
    ShownStep(alnum, s);
    RemovesStep(alnum, s);
  }

  lemma SameLength(a: string, b: string)
    requires SameButCase(a, b)
    ensures |a| == |b|
  {
  }

  lemma EndIs(alnum: set<char>, s: string, n: string, g: nat, e: nat)
    requires n != "" && TagName(alnum, s) == n && Find(">", s) == g < |s| && Find(Close(n), LowerAll(s[g + 1..])) == e
    ensures BlockEnd(alnum, s) == g + 1 + e + |Close(n)|
  {
    hide TagName, Find, LowerAll;
  }

  lemma RemovesStep(alnum: set<char>, s: string)
    requires s != "" && BlockEnd(alnum, s) >= 0
    ensures RemoveBlocks(alnum, s) == RemoveBlocks(alnum, s[BlockEnd(alnum, s)..])
  {
    hide BlockEnd;
  }

  lemma OpensAt(alnum: set<char>, n: string, open: string, attributes: string, body: string)
    requires n in {"think", "thinking"} && SameButCase(open, "<" + n)
    requires '>' !in attributes && (attributes == "" || !InAWord(alnum, attributes[0]))
    ensures var s := open + (attributes + (">" + body));
      TagName(alnum, s) == n && Find(">", s) == |open| + |attributes|
  {
    hide TagName, Find;
    var s := open + (attributes + (">" + body));
    var m, g := 1 + |n|, |open| + |attributes|;
    assert s[..m] == open && s[m] == if attributes == "" then '>' else attributes[0];
    assert !InAWord(alnum, '>');
    TagExactly(alnum, s, n);
    TagNameUnique(alnum, s, n);
    FirstGreaterThan(alnum, s, n);
    FindOne('>', s);
    assert s[g] == '>';
    forall i | m <= i < g
      ensures s[i] != '>'
    {
      assert s[i] == attributes[i - m];
    }
  }

  /** A block whose close tag, or whose opening tag's `>`, never comes hides all that follows. */
  lemma UnclosedIsHidden(alnum: set<char>, n: string, open: string, attributes: string, body: string)
    requires n in {"think", "thinking"} && SameButCase(open, "<" + n)
    requires '>' !in attributes && (attributes == "" || !InAWord(alnum, attributes[0]))
    requires NoCloseIn(n, body, |body|)
    ensures Shown(alnum, open + (attributes + (">" + body))) == ""
    ensures Shown(alnum, open + attributes) == ""
  {
    hide TagName, Find, LowerAll, SameButCase, InAWord, Shown, At;
    var s, p := open + (attributes + (">" + body)), Close(n);
    OpensAt(alnum, n, open, attributes, body);
    SameLength(open, "<" + n);
    NameIsLower(n);
    var e := Find(p, LowerAll(body));
    ReadsExactly(p, body, e);
    AtBounds(p, LowerAll(body), e);
    assert s[|open| + |attributes| + 1..] == body;
    NeverEnds(alnum, s);
    ShownStep(alnum, s);
    OpensOnly(alnum, n, open, attributes);
    NeverEnds(alnum, open + attributes);
    ShownStep(alnum, open + attributes);
  }

  lemma NeverEnds(alnum: set<char>, s: string)
    requires var g := Find(">", s);
      g >= 0 ==> g < |s| && Find(Close(TagName(alnum, s)), LowerAll(s[g + 1..])) < 0
    ensures BlockEnd(alnum, s) < 0
  {
    hide TagName, Find, LowerAll;
  }

  lemma OpensOnly(alnum: set<char>, n: string, open: string, attributes: string)
    requires n in {"think", "thinking"} && SameButCase(open, "<" + n)
    requires '>' !in attributes && (attributes == "" || !InAWord(alnum, attributes[0]))
    ensures TagName(alnum, open + attributes) == n && Find(">", open + attributes) < 0
  {
    hide TagName, Find;
    var s, m := open + attributes, 1 + |n|;
    assert s[..m] == open && (attributes != "" ==> s[m] == attributes[0]);
    TagExactly(alnum, s, n);
    TagNameUnique(alnum, s, n);
    FirstGreaterThan(alnum, s, n);
    FindOne('>', s);
    forall i | m <= i < |s|
      ensures s[i] != '>'
    {
      assert s[i] == attributes[i - m];
    }
  }

  lemma ClosesAt(n: string, x: string, close: string, rest: string)
    requires n in {"think", "thinking"} && SameButCase(close, "</" + n + ">") && NoCloseIn(n, x + (close + rest), |x|)
    ensures Find(Close(n), LowerAll(x + (close + rest))) == |x|
  {
    hide Find, SameButCase, LowerAll, At;
    var s, p := x + (close + rest), Close(n);
    NameIsLower(n);
    SameLength(close, p);
    assert s[|x|..|x| + |p|] == close;
    forall i
      ensures At(p, LowerAll(s), i) <==> ReadsAt(p, s, i)
    {
      ReadsExactly(p, s, i);
    }
    assert ReadsAt(p, s, |x|);
    var e := Find(p, LowerAll(s));
    assert At(p, LowerAll(s), |x|) && At(p, LowerAll(s), e);
    AtBounds(p, LowerAll(s), e);
  }

  // ----- Case never matters -----

  lemma SameTag(alnum: set<char>, s: string, t: string)
    requires LowerAll(s) == LowerAll(t)
    ensures TagName(alnum, s) == TagName(alnum, t)
  {
    hide TagName, LowerAll, IsWord;
    forall n | IsName(n)
      ensures TagIs(alnum, s, n) <==> TagIs(alnum, t, n)
    {
      SameTagIs(alnum, s, t, n);
    }
    TagNameUnique(alnum, s, "think");
    TagNameUnique(alnum, t, "think");
    TagNameUnique(alnum, s, "thinking");
    TagNameUnique(alnum, t, "thinking");
  }

  lemma SameTagIs(alnum: set<char>, s: string, t: string, n: string)
    requires LowerAll(s) == LowerAll(t) && IsName(n)
    ensures TagIs(alnum, s, n) <==> TagIs(alnum, t, n)
  {
    hide IsWord, LowerAll;
    LowerFrom(s, t, 0);
    var m := 1 + |n|;
    if m <= |s| {
      LowerFrom(s, t, m);
      if m < |s| {
        SameWord(alnum, s, t, m);
      }
    }
  }

  lemma SameWord(alnum: set<char>, s: string, t: string, i: nat)
    requires LowerAll(s) == LowerAll(t) && i < |s| == |t|
    ensures IsWord(alnum, s[i]) <==> IsWord(alnum, t[i])
    ensures s[i] == '>' <==> t[i] == '>'
  {
    assert LowerAll(s)[i] == Lower(s[i]) && LowerAll(t)[i] == Lower(t[i]);
  }

  lemma SameBlockEnd(alnum: set<char>, s: string, t: string)
    requires LowerAll(s) == LowerAll(t)
    ensures BlockEnd(alnum, s) == BlockEnd(alnum, t)
  {
    hide TagName, LowerAll, Find, IsWord;
    LowerFrom(s, t, 0);
    SameTag(alnum, s, t);
    forall i: nat | i < |s|
      ensures s[i] == '>' <==> t[i] == '>'
    {
      SameWord(alnum, s, t, i);
    }
    FindOne('>', s);
    FindOne('>', t);
    var f, g := Find(">", s), Find(">", t);
    assert f >= 0 ==> t[f] == '>';
    assert g >= 0 ==> s[g] == '>';
    assert f >= 0 && g >= 0 ==> f == g by {
      assert forall i :: 0 <= i < f ==> s[i] in s[..f];
      assert forall i :: 0 <= i < g ==> t[i] in t[..g];
    }
    if f >= 0 {
      LowerFrom(s, t, f + 1);
    }
  }

  lemma {:induction false} SameShown(alnum: set<char>, s: string, t: string)
    requires LowerAll(s) == LowerAll(t)
    ensures LowerAll(Shown(alnum, s)) == LowerAll(Shown(alnum, t))
    decreases |s|
  {
    hide TagName, LowerAll, BlockEnd, Shown;
    LowerFrom(s, t, 0);
    if s == "" {
    } else {
      SameTag(alnum, s, t);
      SameBlockEnd(alnum, s, t);
      ShownStep(alnum, s);
      ShownStep(alnum, t);
      var z := BlockEnd(alnum, s);
      if z >= 0 {
        LowerFrom(s, t, z);
        SameShown(alnum, s[z..], t[z..]);
      } else if TagName(alnum, s) == "" {
        ShownPlain(alnum, s);
        ShownPlain(alnum, t);
        LowerFrom(s, t, 1);
        SameShown(alnum, s[1..], t[1..]);
        SameFirst(s, t, Shown(alnum, s[1..]), Shown(alnum, t[1..]));
      }
    }
  }

  lemma SameFirst(s: string, t: string, a: string, b: string)
    requires s != "" && t != "" && LowerAll(s) == LowerAll(t) && LowerAll(a) == LowerAll(b)
    ensures LowerAll([s[0]] + a) == LowerAll([t[0]] + b)
  {
    LowerAppend([s[0]], a);
    LowerAppend([t[0]], b);
    assert LowerAll([s[0]]) == [Lower(s[0])] == [LowerAll(s)[0]];
    assert LowerAll([t[0]]) == [Lower(t[0])] == [LowerAll(t)[0]];
  }

  lemma {:induction false} SameRemoved(alnum: set<char>, s: string, t: string)
    requires LowerAll(s) == LowerAll(t)
    ensures LowerAll(RemoveBlocks(alnum, s)) == LowerAll(RemoveBlocks(alnum, t))
    decreases |s|
  {
    hide TagName, LowerAll, BlockEnd;
    LowerFrom(s, t, 0);
    if s == "" {
    } else {
      SameBlockEnd(alnum, s, t);
      var z := BlockEnd(alnum, s);
      if z >= 0 {
        LowerFrom(s, t, z);
        SameRemoved(alnum, s[z..], t[z..]);
      } else {
        LowerFrom(s, t, 1);
        SameRemoved(alnum, s[1..], t[1..]);
        SameFirst(s, t, RemoveBlocks(alnum, s[1..]), RemoveBlocks(alnum, t[1..]));
      }
    }
  }

  lemma {:induction false} SameCut(alnum: set<char>, s: string, t: string)
    requires LowerAll(s) == LowerAll(t)
    ensures LowerAll(CutTail(alnum, s)) == LowerAll(CutTail(alnum, t))
    decreases |s|
  {
    hide TagName, LowerAll;
    LowerFrom(s, t, 0);
    if s == "" {
    } else {
      SameTag(alnum, s, t);
      if TagName(alnum, s) == "" {
        LowerFrom(s, t, 1);
        SameCut(alnum, s[1..], t[1..]);
        SameFirst(s, t, CutTail(alnum, s[1..]), CutTail(alnum, t[1..]));
      }
    }
  }

  /** Texts that differ only in case are shown, and stripped, alike but for case. */
  lemma CaseNeverMatters(alnum: set<char>, s: string, t: string)
    requires SameButCase(s, t)
    ensures SameButCase(Shown(alnum, s), Shown(alnum, t))
    ensures SameButCase(StripBlocks(alnum, s), StripBlocks(alnum, t))
  {
    hide Shown, RemoveBlocks, CutTail, SameButCase, LowerAll;
    LowerAllExactly(s, t);
    SameShown(alnum, s, t);
    SameRemoved(alnum, s, t);
    SameCut(alnum, RemoveBlocks(alnum, s), RemoveBlocks(alnum, t));
    LowerAllExactly(Shown(alnum, s), Shown(alnum, t));
    LowerAllExactly(StripBlocks(alnum, s), StripBlocks(alnum, t));
  }
}
