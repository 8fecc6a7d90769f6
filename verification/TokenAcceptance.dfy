/** When a token is accepted, whatever its class and whatever its claims say. */
module TokenAcceptance {
  import opened Options
  import opened Tokens
  import opened TokenRules

  // ----- What the claims say -----

  /** `int(value)` is `n`: a number towards zero, a truth value as one or nothing. */
  ghost predicate ReadsAs(j: Json, n: int) {
    match j
    case Int(m) => n == m
    case Bool(b) => n == if b then 1 else 0
    case Real(r) => if r >= 0.0 then n as real <= r < (n + 1) as real else (n - 1) as real < r <= n as real
    case _ => false
  }

  lemma ReadsAsExactly(j: Json, n: int)
    ensures ReadsAs(j, n) <==> AsInt(j) == Some(n)
  {
  }

  ghost predicate SaysText(c: Claimset, name: Name, s: string) {
    name in c && c[name] == Str(s) && s != ""
  }

  /** One recipient alone, or a list of them. */
  ghost predicate NamesRecipients(j: Json, aud: seq<string>) {
    match j
    case Str(s) => aud == [s]
    case Arr(items) => items != [] && |aud| == |items| && forall i :: 0 <= i < |aud| ==> items[i] == Str(aud[i])
    case _ => false
  }

  lemma {:induction false} StringsExactly(items: seq<Json>, aud: seq<string>)
    ensures Strings(items) == Some(aud) <==> |aud| == |items| && forall i :: 0 <= i < |aud| ==> items[i] == Str(aud[i])
  {
    if items == [] {
    } else if aud != [] {
      StringsExactly(items[1..], aud[1..]);
      assert aud == [aud[0]] + aud[1..];
      if |aud| == |items| && forall i :: 0 <= i < |aud| ==> items[i] == Str(aud[i]) {
        assert forall i :: 0 <= i < |aud[1..]| ==> items[1..][i] == Str(aud[1..][i]);
      }
    }
  }

  lemma AudienceExactly(j: Json, aud: seq<string>)
    ensures Audience(j) == Some(aud) <==> NamesRecipients(j, aud)
  {
    hide Strings;
    if j.Arr? {
      StringsExactly(j.items, aud);
    }
  }

  /** Only an exchanged session names the machine that asked for it. */
  ghost predicate NamesActor(c: Claimset, typ: Class, act: Option<string>) {
    var said := Get(c, Act);
    if act.None? then said.Null? else typ == Session && said.Obj? && SaysText(said.fields, Sub, act.value)
  }

  ghost predicate NamesParent(c: Claimset, sid: Option<string>) {
    Get(c, Sid) == if sid.None? then Null else Str(sid.value)
  }

  /** The claims read as `r`: who, for whom, from when until when. */
  ghost predicate Says(typ: Class, c: Claimset, r: Read) {
    && SaysText(c, Iss, r.iss) && SaysText(c, Sub, r.sub) && SaysText(c, Jti, r.jti)
    && NamesRecipients(Get(c, Aud), r.aud)
    && ReadsAs(Get(c, Iat), r.iat) && ReadsAs(Get(c, Exp), r.exp)
    && NamesActor(c, typ, r.act) && NamesParent(c, r.sid)
  }

  lemma ReadsExactly(typ: Class, c: Claimset, issuer: string, recipient: string, r: Read)
    ensures ReadClaims(typ, c, issuer, recipient) == Ok(r) <==>
      Says(typ, c, r) && r.iss == issuer && (if typ == Client then "gateway" else recipient) in r.aud
  {
    hide AsInt, Audience, ReadsAs, NamesRecipients;
    AudienceExactly(Get(c, Aud), r.aud);
    ReadsAsExactly(Get(c, Iat), r.iat);
    ReadsAsExactly(Get(c, Exp), r.exp);
  }

  // ----- The clock -----

  /** Five minutes are allowed each way between the two clocks. */
  ghost predicate Timely(c: Claimset, iat: int, exp: int, now: real) {
    && iat as real <= now + 300.0 && now < exp as real + 300.0
    && (Nbf in c ==> exists n :: ReadsAs(c[Nbf], n) && n as real <= now + 300.0)
  }

  lemma DecodesExactly(token: Token, key: Key, now: real, r: Read)
    requires token.Signed? && Says(token.typ, token.claims, r)
    ensures DecodeRefusal(token, key, now).None? <==> token.signer == key && Timely(token.claims, r.iat, r.exp, now)
  {
    hide AsInt, ReadsAs, NamesRecipients;
    var c := token.claims;
    AudienceExactly(Get(c, Aud), r.aud);
    ReadsAsExactly(Get(c, Iat), r.iat);
    ReadsAsExactly(Get(c, Exp), r.exp);
    forall n
      ensures ReadsAs(Get(c, Nbf), n) <==> AsInt(Get(c, Nbf)) == Some(n)
    {
      ReadsAsExactly(Get(c, Nbf), n);
    }
    SomethingIsRead(c, r);
  }

  lemma SomethingIsRead(c: Claimset, r: Read)
    ensures ReadsAs(Get(c, Iat), r.iat) ==> !Get(c, Iat).Null?
    ensures ReadsAs(Get(c, Exp), r.exp) ==> !Get(c, Exp).Null?
    ensures NamesRecipients(Get(c, Aud), r.aud) ==> !Get(c, Aud).Null?
  {
  }

  // ----- The verdict -----

  /** What a token of the root says of its epoch lets it be followed: the bundle's epoch or a later one. One that says
      nothing is from before tokens were marked, in the reign that marked them. */
  ghost predicate RootStillFollowed(ep: Json, typ: Class, issuer: string, iat: int, b: Bundle) {
    issuer == "control" && typ != Client ==>
      match ep
      case Null => b.marked.Some? ==> iat < b.marked.value.since && b.epoch <= b.marked.value.epoch
      case Int(n) => n >= 0 && n >= b.epoch
      case _ => false
  }

  /** A tie to a shared sign-in is 64 hexadecimal digits, and an administration token's alone. */
  ghost predicate BindingInOrder(j: Json, typ: Class) {
    match j
    case Null => true
    case Str(s) => typ == Administration && |s| == 64 && forall c :: c in s ==> c in "0123456789abcdef"
    case _ => false
  }

  lemma BindingExactly(j: Json, typ: Class)
    ensures GoodBinding(j, typ) <==> BindingInOrder(j, typ)
  {
    forall c
      ensures IsHex(c) <==> c in "0123456789abcdef"
    {
      HexDigit(c);
    }
  }

  lemma HexDigit(c: char)
    ensures IsHex(c) <==> c in "0123456789abcdef"
  {
    var digits := "0123456789abcdef";
    if '0' <= c <= '9' {
      assert digits[(c - '0') as int] == c;
    } else if 'a' <= c <= 'f' {
      assert digits[10 + (c - 'a') as int] == c;
    } else {
      assert forall i :: 0 <= i < |digits| ==> digits[i] != c;
    }
  }

  /** An administration token is the root's, to itself alone, of someone named, at a version, and not exchanged for. */
  ghost predicate AdministrationInOrder(version: Json, r: Read) {
    && r.iss == "control" && r.aud == ["control"] && r.sub != "operator" && r.sid.None?
    && version.Int? && version.n >= 0
  }

  /** Neither the session nor the one it came from is signed out, and every machine it names is still a member. */
  ghost predicate SessionStands(grants: set<Grant>, b: Bundle, r: Read) {
    && r.jti !in b.revoked && (r.sid.Some? && r.sid.value != "" ==> r.sid.value !in b.revoked)
    && (Authority in grants && r.iss == "control" ==> AllMembers(b, r.aud, r.act))
  }

  ghost predicate Stands(typ: Class, c: Claimset, key: TrustKey, b: Bundle, r: Read) {
    && MayClaim(key.grants, key.issuer, typ, r.sub, r.aud)
    && ShortLived(typ, r.iss, r.aud, r.act.Some?, r.exp - r.iat)
    && RootStillFollowed(Get(c, Ep), typ, r.iss, r.iat, b)
    && BindingInOrder(Get(c, BrowserSession), typ)
    && (typ == Administration ==> AdministrationInOrder(Get(c, AdministrationVersion), r))
    && (typ in {Session, Administration} ==> SessionStands(key.grants, b, r))
  }

  /** What an accepted token is taken to say. */
  ghost function Saying(typ: Class, c: Claimset, key: TrustKey, b: Bundle, r: Read): Claims
    requires Stands(typ, c, key, b, r)
  {
    var binding, ep := Get(c, BrowserSession), Get(c, Ep);
    Claims(typ, r.iss, r.sub, r.aud, r.iat, r.exp, r.jti, r.act, r.sid,
           if typ == Administration then Some(Get(c, AdministrationVersion).n) else None,
           if binding == Null then None else Some(binding.s),
           if r.iss == "control" && typ != Client && ep != Null then Some(ep.n) else None)
  }

  lemma EpochExactly(ep: Json, b: Bundle, typ: Class, iss: string, iat: int)
    ensures var e := CheckEpoch(ep, b, typ, iss, iat);
      && (e.Ok? <==> RootStillFollowed(ep, typ, iss, iat, b))
      && (e.Ok? ==> e.value == if iss == "control" && typ != Client && ep.Int? then Some(ep.n) else None)
  {
  }

  lemma JudgesExactly(typ: Class, c: Claimset, key: TrustKey, b: Bundle, r: Read)
    requires Says(typ, c, r) && r.aud != [] && r.iss == key.issuer
    ensures var v := Judge(typ, c, key, b, r);
      && (v.Ok? <==> Stands(typ, c, key, b, r))
      && (v.Ok? ==> v.value == Saying(typ, c, key, b, r))
  {
    hide Granted, Limit, CheckEpoch, GoodBinding, NamedGone, MayClaim, ShortLived, AllMembers, NamesRecipients, ReadsAs;
    GrantsReachExactly(key.grants, key.issuer, typ, r.sub, r.aud);
    LimitIsShortLived(typ, r.iss, r.aud, !Get(c, Act).Null?, r.exp - r.iat);
    EpochExactly(Get(c, Ep), b, typ, r.iss, r.iat);
    BindingExactly(Get(c, BrowserSession), typ);
    GoneExactly(b, r.aud, r.act);
  }

  /** Everything acceptance of a token depends on, when its claims read as `r`. */
  ghost predicate Accepts(token: Token, b: Bundle, recipient: string, classes: set<Class>, now: real, r: Read) {
    && token.Signed? && token.typ in classes
    && token.kid.Some? && token.kid.value in b.keys && token.signer == b.keys[token.kid.value].kid
    && Says(token.typ, token.claims, r) && r.iss == b.keys[token.kid.value].issuer
    && (if token.typ == Client then "gateway" else recipient) in r.aud
    && Timely(token.claims, r.iat, r.exp, now)
    && Stands(token.typ, token.claims, b.keys[token.kid.value], b, r)
  }

  /** A token is accepted exactly when its claims can be read and all of this holds of them; and then it is taken
      to say what they say. */
  lemma VerifiesExactly(token: Token, b: Bundle, recipient: string, classes: set<Class>, now: real)
    ensures Verify(token, b, recipient, classes, now).Ok? <==> exists r :: Accepts(token, b, recipient, classes, now, r)
    ensures forall r :: Accepts(token, b, recipient, classes, now, r) ==>
      Verify(token, b, recipient, classes, now)
        == Ok(Saying(token.typ, token.claims, b.keys[token.kid.value], b, r))
  {
    hide DecodeRefusal, ReadClaims, Judge, Says, Timely, Stands, Saying;
    forall r
      ensures Accepts(token, b, recipient, classes, now, r) ==>
        Verify(token, b, recipient, classes, now)
          == Ok(Saying(token.typ, token.claims, b.keys[token.kid.value], b, r))
    {
      if Accepts(token, b, recipient, classes, now, r) {
        VerifiesAs(token, b, recipient, classes, now, r);
      }
    }
    if Verify(token, b, recipient, classes, now).Ok? {
      var r := ReadClaims(token.typ, token.claims, b.keys[token.kid.value].issuer, recipient).value;
      VerifiesAs(token, b, recipient, classes, now, r);
      assert Accepts(token, b, recipient, classes, now, r);
    }
  }

  lemma VerifiesAs(token: Token, b: Bundle, recipient: string, classes: set<Class>, now: real, r: Read)
    requires token.Signed? && token.typ in classes && token.kid.Some? && token.kid.value in b.keys
    requires ReadClaims(token.typ, token.claims, b.keys[token.kid.value].issuer, recipient) == Ok(r)
      || Accepts(token, b, recipient, classes, now, r)
    ensures var key := b.keys[token.kid.value];
      && (Verify(token, b, recipient, classes, now).Ok? <==> Accepts(token, b, recipient, classes, now, r))
      && (Accepts(token, b, recipient, classes, now, r) ==>
            Verify(token, b, recipient, classes, now) == Ok(Saying(token.typ, token.claims, key, b, r)))
  {
    hide DecodeRefusal, ReadClaims, Judge, Says, Timely, Stands, Saying;
    var key := b.keys[token.kid.value];
    ReadsExactly(token.typ, token.claims, key.issuer, recipient, r);
    DecodesExactly(token, key.kid, now, r);
    JudgesExactly(token.typ, token.claims, key, b, r);
  }

  // ----- Administration -----

  /** Everything acceptance of an administration token depends on. */
  ghost predicate AdministrationStands(kid: Key, signer: Key, c: Claimset, b: Bundle, recipient: string, now: real) {
    && kid in b.keys && signer == b.keys[kid].kid && b.keys[kid].issuer == "control" && Authority in b.keys[kid].grants
    && recipient == "control" && Get(c, Aud) in [Str("control"), Arr([Str("control")])]
    && SaysText(c, Iss, "control")
    && (exists sub :: SaysText(c, Sub, sub) && sub != "operator")
    && (exists jti :: SaysText(c, Jti, jti) && jti !in b.revoked)
    && (exists iat, exp ::
          && ReadsAs(Get(c, Iat), iat) && ReadsAs(Get(c, Exp), exp) && Timely(c, iat, exp, now) && exp - iat <= 3600
          && RootStillFollowed(Get(c, Ep), Administration, "control", iat, b))
    && Get(c, Act) == Null && Get(c, Sid) == Null
    && Get(c, AdministrationVersion).Int? && Get(c, AdministrationVersion).n >= 0
    && BindingInOrder(Get(c, BrowserSession), Administration)
  }

  /** An administration token is accepted exactly when the root signed it for itself, for at most an hour, for someone
      named other than the operator, at a version, with no session behind it and not signed out. */
  lemma AdministrationIsAcceptedExactly(kid: Key, signer: Key, c: Claimset, b: Bundle, recipient: string,
                                        classes: set<Class>, now: real)
    ensures Verify(Signed(Administration, Some(kid), signer, c), b, recipient, classes, now).Ok? <==>
      Administration in classes && AdministrationStands(kid, signer, c, b, recipient, now)
  {
    hide Verify, ReadsAs, Timely, RootStillFollowed, BindingInOrder;
    var token := Signed(Administration, Some(kid), signer, c);
    VerifiesExactly(token, b, recipient, classes, now);
    if Verify(token, b, recipient, classes, now).Ok? {
      var r :| Accepts(token, b, recipient, classes, now, r);
      AcceptedAdministration(token, b, recipient, classes, now, r);
    }
    if Administration in classes && AdministrationStands(kid, signer, c, b, recipient, now) {
      var sub :| SaysText(c, Sub, sub) && sub != "operator";
      var jti :| SaysText(c, Jti, jti) && jti !in b.revoked;
      var iat, exp :|
        && ReadsAs(Get(c, Iat), iat) && ReadsAs(Get(c, Exp), exp) && Timely(c, iat, exp, now) && exp - iat <= 3600
        && RootStillFollowed(Get(c, Ep), Administration, "control", iat, b);
      var r := Read("control", sub, jti, ["control"], iat, exp, None, None);
      assert Accepts(token, b, recipient, classes, now, r);
    }
  }

  lemma AcceptedAdministration(token: Token, b: Bundle, recipient: string, classes: set<Class>, now: real, r: Read)
    requires Accepts(token, b, recipient, classes, now, r) && token.typ == Administration
    ensures token.kid.Some? && Administration in classes
    ensures AdministrationStands(token.kid.value, token.signer, token.claims, b, recipient, now)
  {
    hide Timely, ReadsAs, RootStillFollowed, BindingInOrder, AllMembers;
    assert SaysText(token.claims, Sub, r.sub) && SaysText(token.claims, Jti, r.jti);
    var said := Get(token.claims, Aud);
    assert said.Arr? ==> said.items == [Str("control")];
  }
}
