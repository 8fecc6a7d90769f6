/** What minting and verifying promise each other. */
module TokenRules {
  import opened Options
  import opened Tokens

  // ----- Minting and verifying agree -----

  lemma {:induction false} StringsOfStrs(aud: seq<string>)
    ensures Strings(Strs(aud)) == Some(aud)
  {
    if aud == [] {
    } else {
      StringsOfStrs(aud[1..]);
      assert Strs(aud)[1..] == Strs(aud[1..]);
      assert [aud[0]] + aud[1..] == aud;
    }
  }

  /** A token of one of the three classes a signer mints with no further claims but an exchange's. */
  ghost predicate Mintable(s: Signer, typ: Class, sub: string, aud: seq<string>, ttl: int, jti: string, x: Exchange) {
    && typ in {Session, Service, Client} && s.issuer != "" && sub != "" && jti != "" && aud != [] && ttl > 0
    && (x.act.Some? ==> typ == Session && x.act.value != "")
    && (s.epoch.Some? ==> s.epoch.value >= 0)
  }

  /** The root that signed is the one the bundle follows, or a later one; a root that did not say
      is believed only of tokens from before roots said, in the same reign. */
  ghost predicate RootFollowed(s: Signer, typ: Class, minted: int, b: Bundle) {
    s.issuer == "control" && typ != Client ==>
      if s.epoch.Some? then s.epoch.value >= b.epoch
      else b.marked.None? || (minted < b.marked.value.since && b.epoch <= b.marked.value.epoch)
  }

  /** `who` is no machine, or one of the machines whose keys the bundle lists. */
  ghost predicate StillThere(b: Bundle, who: string) {
    "node:" < who ==> exists k :: k in b.keys && b.keys[k].issuer == who
  }

  ghost predicate AllMembers(b: Bundle, aud: seq<string>, act: Option<string>) {
    && (forall i :: 0 <= i < |aud| ==> StillThere(b, aud[i]))
    && (act.Some? ==> StillThere(b, act.value))
  }

  /** How many seconds a token may live: a session 14 days and an exchanged one 10 minutes, an administration
      token an hour, a client key 400 days,
        a service token 400 days to its own issuer alone and an hour anywhere else. */
  ghost predicate ShortLived(typ: Class, issuer: string, aud: seq<string>, exchanged: bool, seconds: int) {
    match typ
    case Session => seconds <= if exchanged then 600 else 1209600
    case Administration => seconds <= 3600
    case Client => seconds <= 34560000
    case _ => seconds <= 3600 || (seconds <= 34560000 && forall a :: a in aud ==> a == issuer)
  }

  lemma LimitIsShortLived(typ: Class, issuer: string, aud: seq<string>, exchanged: bool, seconds: int)
    ensures seconds <= Limit(typ, issuer, aud, exchanged) <==> ShortLived(typ, issuer, aud, exchanged, seconds)
  {
    AllIn(aud, issuer);
  }

  /** A grant reaches a recipient, one at a time. */
  predicate Reaches(grants: set<Grant>, issuer: string, sub: string, a: string) {
    || Authority in grants
    || (a == issuer && (Node in grants || Files in grants))
    || (sub == "agent" && (Node in grants || (Files in grants && a == "control")))
    || (sub == "gateway" && Node in grants && Gateway in grants)
    || (sub == "standby" && Node in grants && Standby in grants && a == "control")
  }

  /** The authority claims anything; any other key only service tokens, to recipients each within reach --
      except that a standby token goes to its own machine or to control, never to both at once. */
  ghost predicate MayClaim(grants: set<Grant>, issuer: string, typ: Class, sub: string, aud: seq<string>) {
    || Authority in grants
    || (&& typ !in {Session, Client, Administration}
        && (forall a :: a in aud ==> Reaches(grants, issuer, sub, a))
        && (sub == "standby" && Node in grants ==>
              (forall a :: a in aud ==> a == issuer) || (forall a :: a in aud ==> a == "control")))
  }

  /** Everything acceptance of a minted token depends on. */
  ghost predicate Acceptable(s: Signer, typ: Class, sub: string, aud: seq<string>, ttl: int, minted: int, jti: string,
                             x: Exchange, b: Bundle, recipient: string, classes: set<Class>, now: real) {
    && typ in classes
    && s.key in b.keys && b.keys[s.key].kid == s.key && b.keys[s.key].issuer == s.issuer
    && (if typ == Client then "gateway" else recipient) in aud
    && (minted - 300) as real <= now < (minted + ttl + 300) as real
    && MayClaim(b.keys[s.key].grants, s.issuer, typ, sub, aud)
    && ShortLived(typ, s.issuer, aud, x.act.Some?, ttl)
    && RootFollowed(s, typ, minted, b)
    && (typ == Session ==> jti !in b.revoked && (x.sid.Some? ==> x.sid.value == "" || x.sid.value !in b.revoked))
    && (typ == Session && s.issuer == "control" ==> AllMembers(b, aud, x.act))
  }

  function MintedClaims(s: Signer, typ: Class, sub: string, aud: seq<string>, ttl: int, minted: int, jti: string,
                        x: Exchange): Claims {
    Claims(typ, s.issuer, sub, aud, minted, minted + ttl, jti, x.act, x.sid, None, None,
           if s.issuer == "control" && typ != Client then s.epoch else None)
  }

  lemma MintedReads(s: Signer, typ: Class, sub: string, aud: seq<string>, ttl: int, minted: int, jti: string,
                    x: Exchange)
    requires Mintable(s, typ, sub, aud, ttl, jti, x)
    ensures var m := Mint(s, typ, sub, aud, ttl, minted, jti, x);
      && m.Ok? && m.value.1 == minted + ttl
      && m.value.0.Signed? && m.value.0.typ == typ && m.value.0.kid == Some(s.key) && m.value.0.signer == s.key
    ensures var c := Mint(s, typ, sub, aud, ttl, minted, jti, x).value.0.claims;
      && Get(c, Iss) == Str(s.issuer) && Get(c, Sub) == Str(sub) && Get(c, Jti) == Str(jti)
      && Get(c, Iat) == Int(minted) && Get(c, Exp) == Int(minted + ttl) && Nbf !in c
      && Audience(Get(c, Aud)) == Some(aud)
      && Get(c, Act) == (if x.act.Some? then Obj(map[Sub := Str(x.act.value)]) else Null)
      && Get(c, Sid) == (if x.sid.Some? then Str(x.sid.value) else Null)
      && Get(c, Ep) == (if s.epoch.Some? && typ != Client then Int(s.epoch.value) else Null)
      && Get(c, BrowserSession) == Null
  {
    hide Strings, Strs, BaseClaims, WithExchange, Get, Mint, Marked;
    MintedIs(s, typ, sub, aud, ttl, minted, jti, x);
    StringsOfStrs(aud);
    BaseReads(s, sub, aud, ttl, minted, jti);
    MarkedReads(s, typ, BaseClaims(s, sub, aud, ttl, minted, jti));
    ExchangeReads(Marked(s, typ, BaseClaims(s, sub, aud, ttl, minted, jti)), x);
  }

  function Marked(s: Signer, typ: Class, base: Claimset): Claimset {
    if s.epoch.Some? && typ != Client then base[Ep := Int(s.epoch.value)] else base
  }

  lemma MintedIs(s: Signer, typ: Class, sub: string, aud: seq<string>, ttl: int, minted: int, jti: string, x: Exchange)
    requires aud != [] && ttl > 0
    ensures Mint(s, typ, sub, aud, ttl, minted, jti, x)
         == Ok((Signed(typ, Some(s.key), s.key,
           WithExchange(Marked(s, typ, BaseClaims(s, sub, aud, ttl, minted, jti)), x)), minted + ttl))
  {
    hide BaseClaims, WithExchange;
  }

  /** A token is minted exactly for some recipient and for some time to come, at whose end it expires. */
  lemma MintsExactly(s: Signer, typ: Class, sub: string, aud: seq<string>, ttl: int, minted: int, jti: string,
                     x: Exchange)
    ensures match Mint(s, typ, sub, aud, ttl, minted, jti, x)
      case Ok((_, expires)) => aud != [] && ttl > 0 && expires == minted + ttl
      case Err(NoRecipient) => aud == []
      case Err(NoLifetime) => aud != [] && ttl <= 0
  {
    hide BaseClaims, WithExchange;
  }

  /** A mark changes only what the claims say of the epoch. */
  lemma MarkedReads(s: Signer, typ: Class, base: Claimset)
    requires Ep !in base
    ensures forall n :: n != Ep ==>
      Get(Marked(s, typ, base), n) == Get(base, n) && (n in Marked(s, typ, base) <==> n in base)
    ensures Get(Marked(s, typ, base), Ep) == if s.epoch.Some? && typ != Client then Int(s.epoch.value) else Null
  {
  }

  /** An exchange's claims are its own and nothing else's. */
  lemma ExchangeReads(c: Claimset, x: Exchange)
    requires Act !in c && Sid !in c
    ensures forall n :: n != Act && n != Sid ==>
      Get(WithExchange(c, x), n) == Get(c, n) && (n in WithExchange(c, x) <==> n in c)
    ensures Get(WithExchange(c, x), Act) == (if x.act.Some? then Obj(map[Sub := Str(x.act.value)]) else Null)
    ensures Get(WithExchange(c, x), Sid) == (if x.sid.Some? then Str(x.sid.value) else Null)
  {
  }

  lemma BaseReads(s: Signer, sub: string, aud: seq<string>, ttl: int, minted: int, jti: string)
    ensures var c := BaseClaims(s, sub, aud, ttl, minted, jti);
      && Get(c, Iss) == Str(s.issuer) && Get(c, Sub) == Str(sub) && Get(c, Jti) == Str(jti)
      && Get(c, Iat) == Int(minted) && Get(c, Exp) == Int(minted + ttl) && Get(c, Aud) == Arr(Strs(aud))
      && c.Keys == {Iss, Sub, Aud, Iat, Exp, Jti}
      && Nbf !in c && Act !in c && Sid !in c && Ep !in c && Get(c, BrowserSession) == Null
  {
    hide Strs;
  }

  lemma MintedDecodes(s: Signer, typ: Class, sub: string, aud: seq<string>, ttl: int, minted: int, jti: string,
                      x: Exchange, key: Key, now: real)
    requires Mintable(s, typ, sub, aud, ttl, jti, x)
    ensures DecodeRefusal(Mint(s, typ, sub, aud, ttl, minted, jti, x).value.0, key, now).None? <==>
            key == s.key && (minted - 300) as real <= now < (minted + ttl + 300) as real
  {
    hide Mint;
    MintedReads(s, typ, sub, aud, ttl, minted, jti, x);
  }

  lemma MintedReadClaims(s: Signer, typ: Class, sub: string, aud: seq<string>, ttl: int, minted: int, jti: string,
                         x: Exchange, issuer: string, recipient: string)
    requires Mintable(s, typ, sub, aud, ttl, jti, x)
    ensures var r := ReadClaims(typ, Mint(s, typ, sub, aud, ttl, minted, jti, x).value.0.claims, issuer, recipient);
      && (r.Ok? <==> issuer == s.issuer && (if typ == Client then "gateway" else recipient) in aud)
      && (r.Ok? ==> r.value == Read(s.issuer, sub, jti, aud, minted, minted + ttl, x.act, x.sid))
  {
    hide Mint, Audience;
    MintedReads(s, typ, sub, aud, ttl, minted, jti, x);
  }

  /** The verdict on a minted token once it is decoded and read. */
  ghost predicate Judged(s: Signer, typ: Class, sub: string, aud: seq<string>, ttl: int, minted: int, jti: string,
                         x: Exchange, key: TrustKey, b: Bundle) {
    && MayClaim(key.grants, s.issuer, typ, sub, aud)
    && ShortLived(typ, s.issuer, aud, x.act.Some?, ttl)
    && RootFollowed(s, typ, minted, b)
    && (typ == Session ==> jti !in b.revoked && (x.sid.Some? ==> x.sid.value == "" || x.sid.value !in b.revoked))
    && (typ == Session && s.issuer == "control" ==> AllMembers(b, aud, x.act))
  }

  lemma MintedIsJudged(s: Signer, typ: Class, sub: string, aud: seq<string>, ttl: int, minted: int, jti: string,
                       x: Exchange, key: TrustKey, b: Bundle)
    requires Mintable(s, typ, sub, aud, ttl, jti, x) && key.issuer == s.issuer
    ensures var c := Mint(s, typ, sub, aud, ttl, minted, jti, x).value.0.claims;
      var v := Judge(typ, c, key, b, Read(s.issuer, sub, jti, aud, minted, minted + ttl, x.act, x.sid));
      && (v.Ok? <==> Judged(s, typ, sub, aud, ttl, minted, jti, x, key, b))
      && (v.Ok? ==> v.value == MintedClaims(s, typ, sub, aud, ttl, minted, jti, x))
  {
    hide Mint, Audience, Granted, Limit, Members, NodeOf, NamedGone, AllMembers, Reaches, ShortLived;
    MintedReads(s, typ, sub, aud, ttl, minted, jti, x);
    GrantsReachExactly(key.grants, s.issuer, typ, sub, aud);
    LimitIsShortLived(typ, s.issuer, aud, x.act.Some?, ttl);
    GoneExactly(b, aud, x.act);
  }

  lemma GoneExactly(b: Bundle, aud: seq<string>, act: Option<string>)
    requires act.Some? ==> act.value != ""
    ensures NamedGone(b, aud, act) <==> !AllMembers(b, aud, act)
  {
    hide NodeOf, Members, StillThere;
    forall who
      ensures StillThere(b, who) <==> NodeOf(who).None? || NodeOf(who).value in Members(b)
    {
      ThereExactly(b, who);
    }
  }

  lemma ThereExactly(b: Bundle, who: string)
    ensures StillThere(b, who) <==> NodeOf(who).None? || NodeOf(who).value in Members(b)
  {
    forall k | k in b.keys && NodeOf(who).Some?
      ensures b.keys[k].issuer == who <==> NodeOf(b.keys[k].issuer) == NodeOf(who)
    {
      assert who == "node:" + who[5..];
      assert |b.keys[k].issuer| > 5 ==> b.keys[k].issuer == b.keys[k].issuer[..5] + b.keys[k].issuer[5..];
    }
  }

  /** A token minted by the book is accepted exactly when the bundle, the recipient and the
      clock allow it, and then says what was minted. */
  lemma MintedIsAcceptedExactly(s: Signer, typ: Class, sub: string, aud: seq<string>, ttl: int, minted: int,
                                jti: string,
                                x: Exchange, b: Bundle, recipient: string, classes: set<Class>, now: real)
    requires Mintable(s, typ, sub, aud, ttl, jti, x)
    ensures var v := Verify(Mint(s, typ, sub, aud, ttl, minted, jti, x).value.0, b, recipient, classes, now);
      && (v.Ok? <==> Acceptable(s, typ, sub, aud, ttl, minted, jti, x, b, recipient, classes, now))
      && (v.Ok? ==> v.value == MintedClaims(s, typ, sub, aud, ttl, minted, jti, x))
  {
    hide Mint, DecodeRefusal, ReadClaims, Judge, MayClaim, ShortLived, RootFollowed, AllMembers, MintedClaims;
    MintedReads(s, typ, sub, aud, ttl, minted, jti, x);
    if s.key in b.keys {
      var key := b.keys[s.key];
      MintedDecodes(s, typ, sub, aud, ttl, minted, jti, x, key.kid, now);
      MintedReadClaims(s, typ, sub, aud, ttl, minted, jti, x, key.issuer, recipient);
      if key.issuer == s.issuer {
        MintedIsJudged(s, typ, sub, aud, ttl, minted, jti, x, key, b);
      }
    }
  }

  // ----- Grants -----

  /** What the grants let a key claim is decided recipient by recipient. */
  lemma GrantsReachExactly(grants: set<Grant>, issuer: string, typ: Class, sub: string, aud: seq<string>)
    requires aud != []
    ensures Granted(grants, issuer, typ, sub, aud) <==> MayClaim(grants, issuer, typ, sub, aud)
  {
    SubjectsDiffer();
    assert Reaches(grants, issuer, sub, aud[0]) ==> Authority in grants || Node in grants || Files in grants;
    AllIn(aud, issuer);
    AllIn(aud, "control");
    ReachesAll(grants, issuer, sub, aud);
  }

  lemma ReachesAll(grants: set<Grant>, issuer: string, sub: string, aud: seq<string>)
    ensures (forall a :: a in aud ==> Reaches(grants, issuer, sub, a))
       <==> (forall i :: 0 <= i < |aud| ==> Reaches(grants, issuer, sub, aud[i]))
  {
    hide Reaches;
    if forall a :: a in aud ==> Reaches(grants, issuer, sub, a) {
      forall i | 0 <= i < |aud|
        ensures Reaches(grants, issuer, sub, aud[i])
      {
        assert aud[i] in aud;
      }
    }
  }

  lemma AllIn(aud: seq<string>, a: string)
    ensures AllAre(aud, a) <==> forall x :: x in aud ==> x == a
  {
    if forall x :: x in aud ==> x == a {
      forall i | 0 <= i < |aud|
        ensures aud[i] == a
      {
        assert aud[i] in aud;
      }
    }
  }

  /** What a job site's key may claim: its agent's tokens reach its own machine and control, and a
      service token of any other subject is granted exactly when it stays on its own machine. */
  lemma JobSiteReachesExactly(grants: set<Grant>, issuer: string, typ: Class, sub: string, aud: seq<string>)
    requires Files in grants && Node !in grants && Authority !in grants
    ensures Granted(grants, issuer, typ, sub, aud) <==>
      typ !in {Session, Client, Administration} && if sub == AGENT then AllAmong(aud, issuer, CONTROL)
        else AllAre(aud, issuer)
  {
  }

  /** What a standby's key may claim of subject `standby`: a token to control alone, or to its own machine alone. */
  lemma StandbyReachesExactly(grants: set<Grant>, issuer: string, typ: Class, aud: seq<string>)
    requires Node in grants && Standby in grants && Authority !in grants
    ensures Granted(grants, issuer, typ, STANDBY, aud) <==>
      typ !in {Session, Client, Administration} && (AllAre(aud, CONTROL) || AllAre(aud, issuer))
  {
    SubjectsDiffer();
  }

  /** One machine's key, minting for its own machine under the grants it holds. */
  lemma OwnMachineAccepts(grants: set<Grant>, sub: string)
    requires sub != "" && (Node in grants || Files in grants)
    ensures var s, b := Signer("k", "node:site", None),
      Bundle(1, 0, 0, "root", map["k" := TrustKey("k", "node:site", grants)], {}, None);
      var m := Mint(s, Service, sub, ["node:site"], 60, 0, "t", Exchange(None, None));
      m.Ok? && Verify(m.value.0, b, "node:site", {Service}, 0.0).Ok?
  {
    hide Mint, Verify, NodeOf;
    var s, b := Signer("k", "node:site", None),
      Bundle(1, 0, 0, "root", map["k" := TrustKey("k", "node:site", grants)], {}, None);
    var x := Exchange(None, None);
    assert s.issuer[0] != CONTROL[0];
    MintedReads(s, Service, sub, ["node:site"], 60, 0, "t", x);
    MintedIsAcceptedExactly(s, Service, sub, ["node:site"], 60, 0, "t", x, b, "node:site", {Service}, 0.0);
  }

  /** Against what is written of the two grants: a job site's `backup` token and a standby's
      `standby` token, each to its own machine, are accepted. */
  lemma GrantsReachFurtherThanDescribed()
    ensures var site, standby := TrustKey("k", "node:site", {Files}), TrustKey("k", "node:site", {Node, Standby});
      var s, x := Signer("k", "node:site", None), Exchange(None, None);
      var backup, replica := Mint(s, Service, "backup", ["node:site"], 60, 0, "t", x),
        Mint(s, Service, STANDBY, ["node:site"], 60, 0, "t", x);
      && backup.Ok?
        && Verify(backup.value.0, Bundle(1, 0, 0, "root", map["k" := site], {}, None), "node:site", {Service}, 0.0).Ok?
      && replica.Ok?
        && Verify(replica.value.0, Bundle(1, 0, 0, "root", map["k" := standby], {}, None), "node:site", {Service},
        0.0).Ok?
  {
    hide Mint, Verify;
    OwnMachineAccepts({Files}, "backup");
    OwnMachineAccepts({Node, Standby}, STANDBY);
  }

  /** A wider grant refuses nothing a narrower one accepted. */
  lemma AcceptanceGrowsWithGrants(token: Token, b: Bundle, kid: Key, more: set<Grant>, recipient: string,
                                  classes: set<Class>, now: real)
    requires kid in b.keys && Verify(token, b, recipient, classes, now).Ok?
    ensures var wider := b.(keys := b.keys[kid := b.keys[kid].(grants := b.keys[kid].grants + more)]);
      Verify(token, wider, recipient, classes, now) == Verify(token, b, recipient, classes, now)
  {
    hide DecodeRefusal, ReadClaims, Granted, Judge, Members, Limit;
    var wider := b.(keys := b.keys[kid := b.keys[kid].(grants := b.keys[kid].grants + more)]);
    SameMembers(b, kid, more);
    var key, wide := b.keys[token.kid.value], wider.keys[token.kid.value];
    var r := ReadClaims(token.typ, token.claims, key.issuer, recipient).value;
    JudgeGrows(token.typ, token.claims, key, wide, b, wider, r);
  }

  lemma SameMembers(b: Bundle, kid: Key, more: set<Grant>)
    requires kid in b.keys
    ensures Members(b.(keys := b.keys[kid := b.keys[kid].(grants := b.keys[kid].grants + more)])) == Members(b)
  {
    hide NodeOf;
    var wider := b.(keys := b.keys[kid := b.keys[kid].(grants := b.keys[kid].grants + more)]);
    assert forall k :: k in b.keys ==> wider.keys[k].issuer == b.keys[k].issuer;
  }

  lemma JudgeGrows(typ: Class, c: Claimset, key: TrustKey, wide: TrustKey, b: Bundle, wider: Bundle, r: Read)
    requires key.issuer == wide.issuer && key.grants <= wide.grants
    requires b.(keys := wider.keys) == wider && Members(b) == Members(wider)
    requires Judge(typ, c, key, b, r).Ok?
    ensures Judge(typ, c, wide, wider, r) == Judge(typ, c, key, b, r)
  {
    hide Granted, Limit, Members, GoodBinding;
    GrantedGrows(key.grants, wide.grants - key.grants, key.issuer, typ, r.sub, r.aud);
    assert key.grants + (wide.grants - key.grants) == wide.grants;
  }

  lemma GrantedGrows(grants: set<Grant>, more: set<Grant>, issuer: string, typ: Class, sub: string, aud: seq<string>)
    ensures Granted(grants, issuer, typ, sub, aud) ==> Granted(grants + more, issuer, typ, sub, aud)
    ensures Granted(grants, issuer, typ, sub, aud) && typ in {Session, Administration} ==> Authority in grants
  {
    SubjectsDiffer();
  }

  lemma SubjectsDiffer()
    ensures AGENT != GATEWAY && AGENT != STANDBY && GATEWAY != STANDBY && CONTROL != GATEWAY
  {
    assert GATEWAY[0] == 'g' && STANDBY[0] == 's' && CONTROL[0] == 'c';
  }
}
