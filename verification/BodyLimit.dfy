/** A request body bounded before it is parsed, declared or chunked, and handed on once, whole. */
module BodyLimit {
  import opened Options

  type Bytes = seq<int>

  // ----- The declared length -----

  predicate IsDigit(c: char) {
    '0' <= c <= '9'
  }

  /** `value.isdigit()`. */
  predicate IsNumber(s: string) {
    s != "" && forall i :: 0 <= i < |s| ==> IsDigit(s[i])
  }

  /** `int(value)`: the length a digit string declares, section 8.6 of RFC 9110. */
  function Declared(s: string): nat
    requires forall i :: 0 <= i < |s| ==> IsDigit(s[i])
  {
    if s == "" then 0 else
      assert IsDigit(s[|s| - 1]);
      10 * Declared(s[..|s| - 1]) + (s[|s| - 1] as int - '0' as int)
  }

  lemma DigitAt(d: nat)
    requires d < 10
    ensures "0123456789"[d] == '0' + d as char
  {
  }

  lemma DeclaredMore(s: string, c: char)
    requires IsDigit(c) && forall i :: 0 <= i < |s| ==> IsDigit(s[i])
    ensures Declared(s + [c]) == 10 * Declared(s) + (c as int - '0' as int)
  {
    var all := s + [c];
    assert all[..|all| - 1] == s;
  }

  /** It is decimal: the digit at place `d` of the ten is worth `d`. */
  lemma DeclaredExactly(s: string, d: nat)
    requires d < 10 && forall i :: 0 <= i < |s| ==> IsDigit(s[i])
    ensures IsDigit("0123456789"[d]) && Declared(s + ["0123456789"[d]]) == 10 * Declared(s) + d && Declared("") == 0
  {
    hide Declared;
    DigitAt(d);
    DeclaredMore(s, '0' + d as char);
    NothingDeclared();
  }

  lemma NothingDeclared()
    ensures Declared("") == 0
  {
  }

  lemma DigitExactly(c: char)
    ensures IsDigit(c) <==> c in "0123456789"
  {
    var digits := "0123456789";
    assert forall i :: 0 <= i < |digits| ==> IsDigit(digits[i]);
    assert IsDigit(c) ==> digits[if IsDigit(c) then (c - '0') as int else 0] == c;
  }

  /** A nonempty run of ASCII digits. */
  lemma NumberExactly(s: string)
    ensures IsNumber(s) <==> s != "" && forall c :: c in s ==> c in "0123456789"
  {
    hide IsDigit;
    forall i | 0 <= i < |s|
      ensures IsDigit(s[i]) <==> s[i] in "0123456789"
    {
      DigitExactly(s[i]);
    }
    assert forall i :: 0 <= i < |s| ==> s[i] in s;
  }

  /** `value.lstrip(b"0")`. */
  function Significant(s: string): (r: string)
    ensures |r| <= |s|
    ensures r == s[|s| - |r|..]
    ensures r != "" ==> r[0] != '0'
  {
    if s != "" && s[0] == '0' then Significant(s[1..]) else s
  }

  lemma SignificantDigits(s: string)
    requires forall i :: 0 <= i < |s| ==> IsDigit(s[i])
    ensures forall i :: 0 <= i < |Significant(s)| ==> IsDigit(Significant(s)[i])
  {
    hide Significant, IsDigit;
    var r := Significant(s);
    assert forall i :: 0 <= i < |r| ==> r[i] == s[|s| - |r| + i];
  }

  /** The test made of a declared length, without reading a number longer than ten digits. */
  predicate DeclaredFits(s: string, limit: nat)
    requires IsNumber(s)
  {
    SignificantDigits(s);
    |Significant(s)| <= 10 && Declared(Significant(s)) <= limit
  }

  function Pow10(n: nat): nat {
    if n == 0 then 1 else 10 * Pow10(n - 1)
  }

  lemma {:induction false} DeclaredBounds(s: string)
    requires forall i :: 0 <= i < |s| ==> IsDigit(s[i])
    ensures Declared(s) < Pow10(|s|)
    ensures s != "" && s[0] != '0' ==> Declared(s) >= Pow10(|s| - 1)
  {
    if s == "" {
    } else {
      var front := s[..|s| - 1];
      DeclaredBounds(front);
      if front == "" {
        assert Declared(front) == 0;
      } else {
        assert front[0] == s[0];
      }
    }
  }

  lemma {:induction false} LeadingZeroIsNothing(s: string)
    requires s != "" && s[0] == '0' && forall i :: 0 <= i < |s| ==> IsDigit(s[i])
    ensures Declared(s) == Declared(s[1..])
  {
    if |s| == 1 {
      assert s[..0] == "" == s[1..];
    } else {
      var front := s[..|s| - 1];
      LeadingZeroIsNothing(front);
      assert front[1..] == s[1..][..|s| - 2];
    }
  }

  lemma {:induction false} SignificantIsEnough(s: string)
    requires forall i :: 0 <= i < |s| ==> IsDigit(s[i])
    ensures forall i :: 0 <= i < |Significant(s)| ==> IsDigit(Significant(s)[i])
    ensures Declared(Significant(s)) == Declared(s)
  {
    if s == "" || s[0] != '0' {
    } else {
      LeadingZeroIsNothing(s);
      SignificantIsEnough(s[1..]);
    }
  }

  lemma {:induction false} Pow10Grows(m: nat, n: nat)
    requires m <= n
    ensures Pow10(m) <= Pow10(n)
    decreases n
  {
    if m == n {
    } else {
      Pow10Grows(m, n - 1);
    }
  }

  const TEN_DIGITS := 10000000000

  lemma TenDigits()
    ensures Pow10(10) == TEN_DIGITS
  {
    assert Pow10(5) == 100000;
    assert Pow10(8) == 100000000;
  }

  lemma TenDigitsBound(r: string)
    requires forall i :: 0 <= i < |r| ==> IsDigit(r[i])
    requires r != "" ==> r[0] != '0'
    ensures |r| <= 10 <==> Declared(r) < TEN_DIGITS
  {
    hide Declared, Pow10;
    DeclaredBounds(r);
    TenDigits();
    var ten := 10;
    if |r| <= ten {
      Pow10Grows(|r|, ten);
    } else {
      Pow10Grows(ten, |r| - 1);
    }
  }

  /** The test asks whether the declared length is within the limit and has at most ten digits. */
  lemma FitsExactly(s: string, limit: nat)
    requires IsNumber(s)
    ensures DeclaredFits(s, limit) <==> Declared(s) <= limit && Declared(s) < 10000000000
  {
    hide Declared, Significant;
    SignificantIsEnough(s);
    TenDigitsBound(Significant(s));
  }

  /** It is exactly "declared length <= limit" just when the limit is below ten billion. */
  lemma TestIsTheLimitExactlyBelowTenBillion(limit: nat)
    ensures limit < 10000000000 <==> forall s :: IsNumber(s) ==> (DeclaredFits(s, limit) <==> Declared(s) <= limit)
  {
    hide DeclaredFits;
    if limit < TEN_DIGITS {
      forall s | IsNumber(s)
        ensures DeclaredFits(s, limit) <==> Declared(s) <= limit
      {
        FitsExactly(s, limit);
      }
    } else {
      var s := "10000000000";
      TenBillion();
      FitsExactly(s, limit);
    }
  }

  lemma TenBillion()
    ensures IsNumber("10000000000") && Declared("10000000000") == TEN_DIGITS
  {
    DeclaredOneZeros("10000000000");
    TenDigits();
  }

  lemma {:induction false} DeclaredOneZeros(s: string)
    requires s != "" && s[0] == '1' && forall i :: 1 <= i < |s| ==> s[i] == '0'
    ensures forall i :: 0 <= i < |s| ==> IsDigit(s[i])
    ensures Declared(s) == Pow10(|s| - 1)
  {
    if |s| > 1 {
      DeclaredOneZeros(s[..|s| - 1]);
    } else {
      assert s[..0] == "" && Declared("") == 0;
    }
  }

  // ----- The body -----

  datatype Event = Disconnect | Chunk(body: Bytes, more: bool)

  /** The bytes the client sends, and how its sending ends: all of them, cut off, or not yet. */
  datatype Sending = Complete(body: Bytes, used: nat) | Cut(body: Bytes) | Unfinished(body: Bytes)

  function After(first: Bytes, rest: Sending): Sending {
    match rest
    case Complete(b, used) => Complete(first + b, used + 1)
    case Cut(b) => Cut(first + b)
    case Unfinished(b) => Unfinished(first + b)
  }

  function SentBy(events: seq<Event>): Sending {
    if events == [] then Unfinished([])
    else match events[0]
      case Disconnect => Cut([])
      case Chunk(body, more) => if more then After(body, SentBy(events[1..])) else Complete(body, 1)
  }

  datatype Header = Header(name: string, value: string)

  /** Some declared length is over the limit. */
  predicate DeclaresTooMuch(headers: seq<Header>, limit: nat) {
    exists i :: 0 <= i < |headers| && headers[i].name == "content-length" && IsNumber(headers[i].value)
      && !DeclaredFits(headers[i].value, limit)
  }

  /** A content length is declared in digits that is over the limit or not below ten billion. */
  ghost predicate DeclaresOver(headers: seq<Header>, limit: nat) {
    exists h :: h in headers && h.name == "content-length" && IsNumber(h.value)
      && (Declared(h.value) > limit || Declared(h.value) >= 10000000000)
  }

  lemma DeclaresExactly(headers: seq<Header>, limit: nat)
    ensures DeclaresTooMuch(headers, limit) <==> DeclaresOver(headers, limit)
  {
    hide DeclaredFits, Declared;
    forall h: Header | IsNumber(h.value)
      ensures DeclaredFits(h.value, limit) <==> Declared(h.value) <= limit && Declared(h.value) < 10000000000
    {
      FitsExactly(h.value, limit);
    }
    if DeclaresTooMuch(headers, limit) {
      var i :| 0 <= i < |headers| && headers[i].name == "content-length" && IsNumber(headers[i].value)
        && !DeclaredFits(headers[i].value, limit);
      assert headers[i] in headers;
    }
  }

  datatype Outcome = Refused | Gone | Waiting | Run(body: Bytes, used: nat)

  method OverDeclared(headers: seq<Header>, limit: nat) returns (over: bool)
    ensures over <==> DeclaresTooMuch(headers, limit)
  {
    hide DeclaredFits, IsNumber;
    for i := 0 to |headers|
      invariant forall j :: 0 <= j < i ==>
        !(headers[j].name == "content-length" && IsNumber(headers[j].value) && !DeclaredFits(headers[j].value, limit))
    {
      if headers[i].name == "content-length" && IsNumber(headers[i].value) && !DeclaredFits(headers[i].value, limit) {
        return true;
      }
    }
    return false;
  }

  /** `__call__` on a bounded path: the app runs exactly when no declared length is over and all
      that is sent fits, and gets exactly that. `peak` is the length the buffer has grown to: all
      that came, or all before the chunk that would have taken it over the limit. */
  method Handle(headers: seq<Header>, events: seq<Event>, limit: nat) returns (r: Outcome, ghost peak: nat)
    ensures peak <= limit
    ensures DeclaresOver(headers, limit) || |SentBy(events).body| > limit <==> r == Refused
    ensures r.Run? <==> !DeclaresOver(headers, limit) && SentBy(events).Complete? && |SentBy(events).body| <= limit
    ensures r.Run? ==> SentBy(events) == Complete(r.body, r.used)
    ensures r.Gone? <==> !DeclaresOver(headers, limit) && SentBy(events).Cut? && |SentBy(events).body| <= limit
    ensures DeclaresOver(headers, limit) ==> peak == 0
    ensures r != Refused ==> peak == |SentBy(events).body|
    ensures r == Refused && !DeclaresOver(headers, limit) ==>
      exists n :: 0 <= n < |events| && events[n].Chunk? && peak == |SentBy(events[..n]).body|
        && peak + |events[n].body| > limit
  {
    hide DeclaresTooMuch, DeclaresOver, SentBy;
    DeclaresExactly(headers, limit);
    peak := 0;
    var over := OverDeclared(headers, limit);
    if over {
      return Refused, peak;
    }
    var body: Bytes := [];
    var i := 0;
    NothingSent();
    assert events[0..] == events && events[..0] == [];
    while i < |events|
      invariant i <= |events| && peak == |body| <= limit
      invariant SentBy(events[..i]) == Unfinished(body)
      invariant SentBy(events) == Prefixed(body, i, SentBy(events[i..]))
      decreases |events| - i
    {
      SentFrom(events, i);
      if events[i].Disconnect? {
        assert body + [] == body;
        return Gone, peak;
      }
      var chunk := events[i].body;
      PrefixedMore(body, i, chunk, SentBy(events[i + 1..]));
      if |body| + |chunk| > limit {
        return Refused, peak;
      }
      SentByMore(events[..i], events[i]);
      assert events[..i + 1] == events[..i] + [events[i]];
      body := body + chunk;
      peak := |body|;
      i := i + 1;
      if !events[i - 1].more {
        return Run(body, i), peak;
      }
    }
    assert body + [] == body && events[|events|..] == [] && events[..|events|] == events;
    r := Waiting;
  }

  lemma NothingSent()
    ensures SentBy([]) == Unfinished([])
    ensures forall s :: Prefixed([], 0, s) == s
  {
    forall s
      ensures Prefixed([], 0, s) == s
    {
      assert [] + s.body == s.body;
    }
  }

  /** What is sent from the `i`-th event on. */
  lemma SentFrom(events: seq<Event>, i: nat)
    requires i < |events|
    ensures events[i].Disconnect? ==> SentBy(events[i..]) == Cut([])
    ensures events[i].Chunk? && events[i].more ==> SentBy(events[i..]) == After(events[i].body, SentBy(events[i + 1..]))
    ensures events[i].Chunk? && !events[i].more ==> SentBy(events[i..]) == Complete(events[i].body, 1)
  {
    assert events[i..][0] == events[i] && events[i..][1..] == events[i + 1..];
  }

  lemma {:induction false} SentByMore(events: seq<Event>, next: Event)
    requires SentBy(events).Unfinished? && next.Chunk?
    ensures next.more ==> SentBy(events + [next]) == Unfinished(SentBy(events).body + next.body)
  {
    if events == [] {
      assert [next][1..] == [] && next.body + [] == next.body == [] + next.body;
    } else {
      SentByMore(events[1..], next);
      assert (events + [next])[1..] == events[1..] + [next];
      assert events[0].body + (SentBy(events[1..]).body + next.body)
        == events[0].body + SentBy(events[1..]).body + next.body;
    }
  }

  function Prefixed(body: Bytes, used: nat, rest: Sending): Sending {
    match rest
    case Complete(b, n) => Complete(body + b, used + n)
    case Cut(b) => Cut(body + b)
    case Unfinished(b) => Unfinished(body + b)
  }

  lemma PrefixedMore(body: Bytes, used: nat, chunk: Bytes, rest: Sending)
    ensures Prefixed(body, used, After(chunk, rest)) == Prefixed(body + chunk, used + 1, rest)
    ensures |Prefixed(body, used, After(chunk, rest)).body| >= |body| + |chunk|
  {
    assert body + (chunk + rest.body) == body + chunk + rest.body;
  }

  // ----- The body handed on -----

  /** `replay`: the whole body first, once; then whatever the client sends next. */
  class Replay {
    const body: Bytes
    const events: seq<Event>
    var delivered: bool
    var next: nat

    constructor (body: Bytes, events: seq<Event>, used: nat)
      ensures this.body == body && this.events == events && !delivered && next == used
    {
      this.body, this.events := body, events;
      delivered, next := false, used;
    }

    method Receive() returns (e: Option<Event>)
      modifies this
      ensures delivered
      ensures !old(delivered) ==> e == Some(Chunk(body, false)) && next == old(next)
      ensures old(delivered) && old(next) < |events| ==> e == Some(events[old(next)]) && next == old(next) + 1
      ensures old(delivered) && old(next) >= |events| ==> e == None && next == old(next)
    {
      if !delivered {
        delivered := true;
        return Some(Chunk(body, false));
      }
      if next < |events| {
        next := next + 1;
        return Some(events[next - 1]);
      }
      return None;
    }
  }
}
