/** `*` matches any run of characters and nothing else is special: the rule, and the pattern it is run as. */
module Globs {

  /** The rule an operator holds in their head. */
  predicate Glob(p: string, v: string)
    decreases |p| + |v|
  {
    if p == "" then v == ""
    else if p[0] == '*' then Glob(p[1..], v) || (v != "" && Glob(p, v[1..]))
    else v != "" && v[0] == p[0] && Glob(p[1..], v[1..])
  }

  /** `pattern.split("*")`. */
  function Split(p: string): (parts: seq<string>)
    ensures parts != []
  {
    if p == "" then [""]
    else if p[0] == '*' then [""] + Split(p[1..])
    else
      var rest := Split(p[1..]);
      [[p[0]] + rest[0]] + rest[1..]
  }

  /** `re.fullmatch(".*".join(escaped parts), v)`: the parts in order, anything at all between them. */
  ghost predicate FullMatch(parts: seq<string>, v: string)
    requires parts != []
    decreases |parts|
  {
    if |parts| == 1 then v == parts[0]
    else parts[0] <= v && exists k :: |parts[0]| <= k <= |v| && FullMatch(parts[1..], v[k..])
  }

  /** `matches`. */
  ghost predicate Matches(pattern: string, value: string) {
    if '*' !in pattern then pattern == value else FullMatch(Split(pattern), value)
  }

  lemma {:induction false} SplitOne(p: string)
    ensures |Split(p)| == 1 <==> '*' !in p
    ensures '*' !in p ==> Split(p) == [p]
  {
    if p == "" {
    } else {
      SplitOne(p[1..]);
      assert p == [p[0]] + p[1..];
    }
  }

  /** A leading character of the first part is the first character of the text. */
  lemma FullMatchChar(c: char, parts: seq<string>, v: string)
    requires parts != []
    ensures FullMatch([[c] + parts[0]] + parts[1..], v) <==> v != "" && v[0] == c && FullMatch(parts, v[1..])
  {
    hide FullMatch;
    var more := [[c] + parts[0]] + parts[1..];
    FullMatchUnfolds(parts, if v == "" then v else v[1..]);
    FullMatchUnfolds(more, v);
    PrefixChar(c, parts[0], v);
    if |parts| > 1 {
      assert more[1..] == parts[1..];
      if FullMatch(more, v) {
        var k :| |more[0]| <= k <= |v| && FullMatch(more[1..], v[k..]);
        assert v[1..][k - 1..] == v[k..];
      }
      if v != "" && FullMatch(parts, v[1..]) {
        var k :| |parts[0]| <= k <= |v[1..]| && FullMatch(parts[1..], v[1..][k..]);
        assert v[1..][k..] == v[k + 1..];
      }
    }
  }

  lemma FullMatchUnfolds(parts: seq<string>, v: string)
    requires parts != []
    ensures FullMatch(parts, v) <==>
      if |parts| == 1 then v == parts[0]
      else parts[0] <= v && exists k :: |parts[0]| <= k <= |v| && FullMatch(parts[1..], v[k..])
  {
  }

  lemma PrefixChar(c: char, p: string, v: string)
    ensures [c] + p <= v <==> v != "" && v[0] == c && p <= v[1..]
    ensures [c] + p == v <==> v != "" && v[0] == c && p == v[1..]
  {
    assert v != "" ==> v == [v[0]] + v[1..];
    if [c] + p <= v {
      assert v[..|p| + 1] == [c] + p;
      assert v[1..][..|p|] == v[..|p| + 1][1..];
    }
  }

  /** An empty first part and a star skip any run of characters. */
  lemma {:induction false} FullMatchStar(parts: seq<string>, v: string)
    requires parts != []
    ensures FullMatch([""] + parts, v) <==> FullMatch(parts, v) || (v != "" && FullMatch([""] + parts, v[1..]))
  {
    var more := [""] + parts;
    assert more[1..] == parts && v[0..] == v;
    if FullMatch(more, v) {
      var k :| 0 <= k <= |v| && FullMatch(parts, v[k..]);
      if k > 0 {
        assert v[1..][k - 1..] == v[k..];
      }
    }
    if v != "" && FullMatch(more, v[1..]) {
      var k :| 0 <= k <= |v[1..]| && FullMatch(parts, v[1..][k..]);
      assert v[1..][k..] == v[k + 1..];
    }
  }

  /** The pattern `matches` runs is the rule. */
  lemma {:induction false} MatchesIsGlob(p: string, v: string)
    ensures Matches(p, v) <==> Glob(p, v)
    ensures FullMatch(Split(p), v) <==> Glob(p, v)
    decreases |p| + |v|
  {
    SplitOne(p);
    if p == "" {
    } else {
      if p[0] == '*' {
        FullMatchStar(Split(p[1..]), v);
        MatchesIsGlob(p[1..], v);
        if v != "" {
          MatchesIsGlob(p, v[1..]);
        }
      } else {
        FullMatchChar(p[0], Split(p[1..]), v);
        if v != "" {
          MatchesIsGlob(p[1..], v[1..]);
        }
      }
    }
  }
}
