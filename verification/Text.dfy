/** Strings as Python has them: `find`, `in` and `endswith`, `strip` and `join`. */
module Text {

  /** `p` occurs in `s` at index `i`. */
  predicate At<T(==)>(p: seq<T>, s: seq<T>, i: int) {
    0 <= i && i + |p| <= |s| && s[i..i + |p|] == p
  }

  /** `p` occurs somewhere in `s`. */
  ghost predicate Occurs<T>(p: seq<T>, s: seq<T>) {
    exists i :: At(p, s, i)
  }

  /** `s.find(p)`: the first index at which `p` occurs, or -1. */
  function Find<T(==)>(p: seq<T>, s: seq<T>): (i: int)
    ensures -1 <= i <= |s|
    ensures i >= 0 ==> At(p, s, i)
    ensures forall j :: At(p, s, j) ==> 0 <= i <= j
    decreases |s|
  {
    if At(p, s, 0) then 0
    else if s == [] then -1
    else
      AtTail(p, s);
      var rest := Find(p, s[1..]);
      if rest < 0 then -1 else rest + 1
  }

  lemma AtTail<T>(p: seq<T>, s: seq<T>)
    requires s != []
    ensures forall j {:trigger At(p, s, j)} :: j > 0 && At(p, s, j) ==> At(p, s[1..], j - 1)
    ensures forall j {:trigger At(p, s[1..], j)} :: At(p, s[1..], j) ==> At(p, s, j + 1)
  {
    forall j | j > 0
      ensures At(p, s, j) <==> At(p, s[1..], j - 1)
    {
      AtDrop(p, s, 1, j);
    }
    forall j | At(p, s[1..], j)
      ensures At(p, s, j + 1)
    {
      AtDrop(p, s, 1, j + 1);
    }
  }

  /** `find` of a single element. */
  lemma FindOne<T>(c: T, s: seq<T>)
    ensures var f := Find([c], s); if f < 0 then c !in s else f < |s| && s[f] == c && c !in s[..f]
  {
    hide Find;
    var f := Find([c], s);
    forall i | 0 <= i < |s| && s[i] == c
      ensures 0 <= f <= i
    {
      assert At([c], s, i);
    }
    if f >= 0 {
      assert s[f..f + 1][0] == s[f];
    }
  }

  /** Appending text moves no occurrence and, within the old text, makes none. */
  lemma AtAppend<T>(p: seq<T>, s: seq<T>, c: seq<T>, i: int)
    ensures At(p, s, i) ==> At(p, s + c, i)
    ensures At(p, s + c, i) && i + |p| <= |s| ==> At(p, s, i)
  {
    if 0 <= i && i + |p| <= |s| {
      assert (s + c)[i..i + |p|] == s[i..i + |p|];
    }
  }

  /** Dropping a prefix shifts the occurrences that start after it. */
  lemma AtDrop<T>(p: seq<T>, s: seq<T>, k: nat, i: int)
    requires k <= |s| && k <= i
    ensures At(p, s, i) <==> At(p, s[k..], i - k)
  {
    if i + |p| <= |s| {
      assert s[k..][i - k..i - k + |p|] == s[i..i + |p|];
    }
  }

  /** Text before which nothing occurs may be dropped without losing the first occurrence. */
  lemma FindDrop<T>(p: seq<T>, s: seq<T>, k: nat)
    requires k <= |s| && forall i :: 0 <= i < k ==> !At(p, s, i)
    ensures var f := Find(p, s[k..]); Find(p, s) == if f < 0 then -1 else f + k
  {
    hide Find, At;
    var f, g := Find(p, s[k..]), Find(p, s);
    if f >= 0 {
      AtDrop(p, s, k, f + k);
    }
    if g >= 0 {
      AtDrop(p, s, k, g);
    }
  }

  /** Text that arrives later does not move a first occurrence already there. */
  lemma FindAppend<T>(p: seq<T>, s: seq<T>, c: seq<T>)
    ensures Find(p, s) >= 0 ==> Find(p, s + c) == Find(p, s)
    ensures Find(p, s) < 0 ==> forall i :: At(p, s + c, i) ==> i + |p| > |s|
  {
    hide Find, At;
    forall i
      ensures At(p, s, i) ==> At(p, s + c, i)
      ensures At(p, s + c, i) && i + |p| <= |s| ==> At(p, s, i)
    {
      AtAppend(p, s, c, i);
    }
    assert Find(p, s) >= 0 ==> Find(p, s) + |p| <= |s| by { AtBounds(p, s, Find(p, s)); }
  }

  lemma Assoc<T>(a: seq<T>, b: seq<T>, c: seq<T>)
    ensures a + b + c == a + (b + c)
  {
  }

  lemma SliceOfSlice<T>(s: seq<T>, b: nat, e: nat, o: nat, p: nat)
    requires b <= e <= |s| && o <= p <= e - b
    ensures s[b..e][o..p] == s[b + o..b + p]
  {
    var l, r := s[b..e][o..p], s[b + o..b + p];
    assert |l| == p - o == |r|;
    forall i | 0 <= i < |l|
      ensures l[i] == r[i]
    {
      assert l[i] == s[b..e][o + i] == s[b + (o + i)];
      assert r[i] == s[(b + o) + i];
    }
  }

  lemma InAppend<T>(s: seq<T>, x: T)
    ensures forall y :: y in s + [x] <==> y in s || y == x
  {
    var all := s + [x];
    forall y
      ensures y in all <==> y in s || y == x
    {
      if y in s {
        var i :| 0 <= i < |s| && s[i] == y;
        assert all[i] == y;
      }
      if y in all {
        var i :| 0 <= i < |all| && all[i] == y;
        assert i == |s| || y == s[i];
      }
      assert all[|s|] == x;
    }
  }

  lemma InTake<T>(s: seq<T>, n: nat)
    requires n < |s|
    ensures forall y :: y in s[..n + 1] <==> y in s[..n] || y == s[n]
  {
    assert s[..n + 1] == s[..n] + [s[n]];
    InAppend(s[..n], s[n]);
  }

  lemma AtBounds<T>(p: seq<T>, s: seq<T>, i: int)
    ensures At(p, s, i) ==> 0 <= i && i + |p| <= |s|
  {
  }

  // ----- Strings -----

  /** `str.isspace` of one character. */
  predicate IsSpace(c: char) {
    || '\t' <= c <= '\r' || '\U{1C}' <= c <= ' ' || c == '\U{85}' || c == '\U{A0}' || c == '\U{1680}'
    || '\U{2000}' <= c <= '\U{200A}' || c == '\U{2028}' || c == '\U{2029}' || c == '\U{202F}' || c == '\U{205F}'
      || c == '\U{3000}'
  }

  /** The characters Unicode counts as white space and those that separate fields, by number. */
  lemma SpacesAre(c: char)
    ensures IsSpace(c) <==>
      c as int in {9, 10, 11, 12, 13, 28, 29, 30, 31, 32, 133, 160, 5760, 8192, 8193, 8194, 8195, 8196, 8197, 8198,
                   8199, 8200, 8201, 8202, 8232, 8233, 8239, 8287, 12288}
  {
    var n := c as int;
    assert IsSpace(c) <==> 9 <= n <= 13 || 28 <= n <= 32 || n in {133, 160, 5760, 8232, 8233, 8239, 8287, 12288}
                           || 8192 <= n <= 8202;
  }

  /** `not s.strip()`. */
  predicate Blank(s: string) {
    forall i :: 0 <= i < |s| ==> IsSpace(s[i])
  }

  /** `"".join(texts)`. */
  function Joined(texts: seq<string>): string {
    if texts == [] then "" else texts[0] + Joined(texts[1..])
  }

  lemma {:induction false} JoinedSum(a: seq<string>, b: seq<string>)
    ensures Joined(a + b) == Joined(a) + Joined(b)
  {
    if a == [] {
      assert a + b == b && "" + Joined(b) == Joined(b);
    } else {
      JoinedSum(a[1..], b);
      assert (a + b)[0] == a[0] && (a + b)[1..] == a[1..] + b;
      Assoc(a[0], Joined(a[1..]), Joined(b));
    }
  }

  lemma JoinedOne(a: seq<string>, x: string)
    ensures Joined(a + [x]) == Joined(a) + x
  {
    JoinedSum(a, [x]);
    assert [x][1..] == [] && x + "" == x;
  }
}
