/**
  Tokens and the trust bundle. Signatures are ideal: a token or a bundle verifies under a
  public key exactly when the matching private key signed it, and a thumbprint is the key
  it was taken of. Times are seconds; a claim may be any JSON value.
 */
module Tokens {
  import opened Options

  datatype Json =
    | Null
    | Bool(b: bool)
    | Int(n: int)
    | Real(r: real)
    | Str(s: string)
    | Arr(items: seq<Json>)
    | Obj(fields: map<Name, Json>)

  /** The member names this module reads, and every other one. */
  datatype Name =
    | Iss | Sub | Aud | Iat | Exp | Nbf | Jti | Act | Sid | Ep | BrowserSession | AdministrationVersion
    | OtherName(name: string)

  type Claimset = map<Name, Json>

  /** `claims.get(name)`: an absent claim reads as null. */
  function Get(claims: Claimset, name: Name): Json {
    if name in claims then claims[name] else Null
  }

  /** `int(value)` for the JSON values it takes; a numeric string is not among those modelled. */
  function AsInt(j: Json): Option<int> {
    match j
    case Int(n) => Some(n)
    case Bool(b) => Some(if b then 1 else 0)
    case Real(r) => Some(if r >= 0.0 then r.Floor else -((-r).Floor))
    case _ => None
  }

  /** The `typ` of a token: its class. */
  datatype Class = Session | Administration | Service | Client | OtherClass(name: string)

  datatype Grant = Authority | Node | Gateway | Files | Standby | OtherGrant(grant: string)

  const CONTROL := "control"
  const OPERATOR := "operator"
  const AGENT := "agent"
  const GATEWAY := "gateway"
  const STANDBY := "standby"

  const LEEWAY := 300
  const DAY := 24 * 3600
  const ADMINISTRATION_TTL := 3600
  const MAX_SESSION := 14 * DAY
  const MAX_EXCHANGED := 10 * 60
  const MAX_LOCAL_SERVICE := 400 * DAY
  const MAX_REMOTE_SERVICE := 3600
  const MAX_CLIENT := 400 * DAY

  /** `node:<name>` to `<name>`; anything else to None. */
  function NodeOf(recipient: string): Option<string> {
    if |recipient| > 5 && recipient[..5] == "node:" then Some(recipient[5..]) else None
  }

  // ----- The trust bundle -----

  /** A public key, which also stands for its thumbprint. */
  type Key = string

  datatype TrustKey = TrustKey(kid: Key, issuer: string, grants: set<Grant>)

  datatype Mark = Mark(since: int, epoch: int)

  datatype Bundle = Bundle(
    version: int,
    epoch: int,
    iat: int,
    authority: Key,
    keys: map<Key, TrustKey>,
    revoked: set<string>,
    marked: Option<Mark>)

  function Members(b: Bundle): set<string> {
    set k | k in b.keys && NodeOf(b.keys[k].issuer).Some? :: NodeOf(b.keys[k].issuer).value
  }

  // ----- Tokens -----

  datatype Token =
    | Garbage
    | Signed(typ: Class, kid: Option<Key>, signer: Key, claims: Claimset)

  datatype Claims = Claims(
    typ: Class, iss: string, sub: string, aud: seq<string>, iat: int, exp: int, jti: string,
    act: Option<string>, sid: Option<string>, administrationVersion: Option<int>,
    browserSession: Option<string>, epoch: Option<int>)

  datatype Refusal =
    | NotAJwt | ClassNotAccepted | UnknownKey | BadSignature | MissingClaim | BadTime | NotYetValid | Expired
    | BadAudience | WrongIssuer | WrongRecipient | BadActor | BadParent | NotGranted | LivesTooLong
    | BadEpoch | Superseded(minted: Option<int>, follows: int)
    | BadBinding | BadAdministration | SignedOut | MachineGone

  /** What decoding refuses: signature, required claims, and times, each with the leeway. */
  function DecodeRefusal(token: Token, key: Key, now: real): Option<Refusal>
    requires token.Signed?
  {
    var c := token.claims;
    var iat, exp, nbf := AsInt(Get(c, Iat)), AsInt(Get(c, Exp)), AsInt(Get(c, Nbf));
    if token.signer != key then Some(BadSignature)
    else if Get(c, Iss).Null? || Get(c, Sub).Null? || Get(c, Aud).Null?
            || Get(c, Iat).Null? || Get(c, Exp).Null? || Get(c, Jti).Null? then Some(MissingClaim)
    else if iat.None? then Some(BadTime)
    else if iat.value as real > now + LEEWAY as real then Some(NotYetValid)
    else if Nbf in c && nbf.None? then Some(BadTime)
    else if Nbf in c && nbf.value as real > now + LEEWAY as real then Some(NotYetValid)
    else if exp.None? then Some(BadTime)
    else if exp.value as real <= now - LEEWAY as real then Some(Expired)
    else None
  }

  function NonEmptyStr(j: Json): Option<string> {
    if j.Str? && j.s != "" then Some(j.s) else None
  }

  function Strings(items: seq<Json>): Option<seq<string>> {
    if items == [] then Some([])
    else
      var rest := Strings(items[1..]);
      if items[0].Str? && rest.Some? then Some([items[0].s] + rest.value) else None
  }

  /** The recipients of a token: a string, or a non-empty list of them. */
  function Audience(j: Json): Option<seq<string>> {
    match j
    case Str(s) => Some([s])
    case Arr(items) => if items == [] then None else Strings(items)
    case _ => None
  }

  predicate AllAre(aud: seq<string>, a: string) {
    forall i :: 0 <= i < |aud| ==> aud[i] == a
  }

  predicate AllAmong(aud: seq<string>, a: string, b: string) {
    forall i :: 0 <= i < |aud| ==> aud[i] == a || aud[i] == b
  }

  /** What a key's grants let it claim. */
  function Granted(grants: set<Grant>, issuer: string, typ: Class, sub: string, aud: seq<string>): bool {
    if Authority in grants then true
    else if typ in {Session, Client, Administration} then false
    else if Node !in grants then
      Files in grants && (AllAre(aud, issuer) || (sub == AGENT && AllAmong(aud, issuer, CONTROL)))
    else if AllAre(aud, issuer) then true
    else if sub == AGENT then true
    else if sub == GATEWAY && Gateway in grants then true
    else sub == STANDBY && Standby in grants && AllAre(aud, CONTROL)
  }

  /** How long a token of this class may live. */
  function Limit(typ: Class, iss: string, aud: seq<string>, exchanged: bool): int {
    if typ == Administration then ADMINISTRATION_TTL
    else if typ == Session then if exchanged then MAX_EXCHANGED else MAX_SESSION
    else if typ == Client then MAX_CLIENT
    else if AllAre(aud, iss) then MAX_LOCAL_SERVICE
    else MAX_REMOTE_SERVICE
  }

  /** The epoch a root token was minted at, if it may still be followed. */
  function CheckEpoch(ep: Json, b: Bundle, typ: Class, iss: string, iat: int): Result<Option<int>, Refusal> {
    if iss != CONTROL || typ == Client then Ok(None)
    else if ep.Null? then
      if b.marked.Some? && (iat >= b.marked.value.since || b.epoch > b.marked.value.epoch)
      then Err(Superseded(None, b.epoch)) else Ok(None)
    else if !ep.Int? || ep.n < 0 then Err(BadEpoch)
    else if ep.n < b.epoch then Err(Superseded(Some(ep.n), b.epoch))
    else Ok(Some(ep.n))
  }

  predicate IsHex(c: char) {
    '0' <= c <= '9' || 'a' <= c <= 'f'
  }

  predicate GoodBinding(j: Json, typ: Class) {
    j.Null? || (typ == Administration && j.Str? && |j.s| == 64 && forall i :: 0 <= i < |j.s| ==> IsHex(j.s[i]))
  }

  /** Who and what a decoded token says it is. */
  datatype Read = Read(iss: string, sub: string, jti: string, aud: seq<string>, iat: int, exp: int, act: Option<string>,
    sid: Option<string>)

  function ReadClaims(typ: Class, c: Claimset, issuer: string, recipient: string): Result<Read, Refusal> {
    var iss, sub, jti := NonEmptyStr(Get(c, Iss)), NonEmptyStr(Get(c, Sub)), NonEmptyStr(Get(c, Jti));
    var aud := Audience(Get(c, Aud));
    var wanted := if typ == Client then GATEWAY else recipient;
    var iat, exp := AsInt(Get(c, Iat)), AsInt(Get(c, Exp));
    var act, sid := Get(c, Act), Get(c, Sid);
    if iss.None? || sub.None? || jti.None? then Err(MissingClaim)
    else if aud.None? then Err(BadAudience)
    else if iss.value != issuer then Err(WrongIssuer)
    else if wanted !in aud.value then Err(WrongRecipient)
    else if iat.None? || exp.None? then Err(BadTime)
    else if !act.Null? && (typ != Session || !act.Obj? || NonEmptyStr(Get(act.fields, Sub)).None?) then Err(BadActor)
    else if !sid.Null? && !sid.Str? then Err(BadParent)
    else Ok(Read(iss.value, sub.value, jti.value, aud.value, iat.value, exp.value,
                 if act.Null? then None else NonEmptyStr(Get(act.fields, Sub)),
                 if sid.Null? then None else Some(sid.s)))
  }

  predicate NamedGone(b: Bundle, aud: seq<string>, act: Option<string>) {
    || (exists i :: 0 <= i < |aud| && NodeOf(aud[i]).Some? && NodeOf(aud[i]).value !in Members(b))
    || (act.Some? && act.value != "" && NodeOf(act.value).Some? && NodeOf(act.value).value !in Members(b))
  }

  predicate IsSignedOut(b: Bundle, r: Read) {
    r.jti in b.revoked || (r.sid.Some? && r.sid.value != "" && r.sid.value in b.revoked)
  }

  /** Every check after decoding. */
  function Judge(typ: Class, c: Claimset, key: TrustKey, b: Bundle, r: Read): Result<Claims, Refusal> {
    var epoch := CheckEpoch(Get(c, Ep), b, typ, r.iss, r.iat);
    var binding := Get(c, BrowserSession);
    var version := Get(c, AdministrationVersion);
    if !Granted(key.grants, key.issuer, typ, r.sub, r.aud) then Err(NotGranted)
    else if r.exp - r.iat > Limit(typ, r.iss, r.aud, !Get(c, Act).Null?) then Err(LivesTooLong)
    else if epoch.Err? then Err(epoch.error)
    else if !GoodBinding(binding, typ) then Err(BadBinding)
    else if typ == Administration
            && (r.iss != CONTROL || r.aud != [CONTROL] || r.sub == OPERATOR || !version.Int? || version.n < 0
              || r.sid.Some?)
    then Err(BadAdministration)
    else if typ in {Session, Administration} && IsSignedOut(b, r) then Err(SignedOut)
    else if typ in {Session, Administration} && Authority in key.grants && r.iss == CONTROL
      && NamedGone(b, r.aud, r.act)
    then Err(MachineGone)
    else Ok(Claims(typ, r.iss, r.sub, r.aud, r.iat, r.exp, r.jti, r.act, r.sid,
                   if typ == Administration then Some(version.n) else None,
                   if binding.Null? then None else Some(binding.s),
                   epoch.value))
  }

  /** `verify`: every check, or the refusal. */
  function Verify(token: Token, b: Bundle, recipient: string, classes: set<Class>, now: real): Result<Claims, Refusal> {
    if token.Garbage? then Err(NotAJwt)
    else if token.typ !in classes then Err(ClassNotAccepted)
    else if token.kid.None? || token.kid.value !in b.keys then Err(UnknownKey)
    else
      var key := b.keys[token.kid.value];
      var refused := DecodeRefusal(token, key.kid, now);
      if refused.Some? then Err(refused.value)
      else
        var read := ReadClaims(token.typ, token.claims, key.issuer, recipient);
        if read.Err? then Err(read.error) else Judge(token.typ, token.claims, key, b, read.value)
  }

  // ----- Minting -----

  datatype Signer = Signer(key: Key, issuer: string, epoch: Option<int>)

  /** The claims only an exchanged session carries: who asked, and the session it came from. */
  datatype Exchange = Exchange(act: Option<string>, sid: Option<string>)

  /** `claims.update(extra)` for an exchange's claims. */
  function WithExchange(c: Claimset, x: Exchange): Claimset {
    var acted := if x.act.Some? then c[Act := Obj(map[Sub := Str(x.act.value)])] else c;
    if x.sid.Some? then acted[Sid := Str(x.sid.value)] else acted
  }

  function Strs(aud: seq<string>): (r: seq<Json>)
    ensures |r| == |aud|
  {
    if aud == [] then [] else [Str(aud[0])] + Strs(aud[1..])
  }

  function BaseClaims(s: Signer, sub: string, aud: seq<string>, ttl: int, now: int, jti: string): Claimset {
    map[Iss := Str(s.issuer), Sub := Str(sub), Aud := Arr(Strs(aud)),
        Iat := Int(now), Exp := Int(now + ttl), Jti := Str(jti)]
  }

  datatype MintError = NoRecipient | NoLifetime

  /** `mint`: the token and when it expires. */
  function Mint(s: Signer, typ: Class, sub: string, aud: seq<string>, ttl: int, now: int, jti: string, x: Exchange)
    : Result<(Token, int), MintError>
  {
    if aud == [] then Err(NoRecipient)
    else if ttl <= 0 then Err(NoLifetime)
    else
      var base := BaseClaims(s, sub, aud, ttl, now, jti);
      var marked := if s.epoch.Some? && typ != Client then base[Ep := Int(s.epoch.value)] else base;
      Ok((Signed(typ, Some(s.key), s.key, WithExchange(marked, x)), now + ttl))
  }
}
