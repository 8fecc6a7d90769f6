/** Building, reading and replacing trust bundles, and what that does to signed-out and superseded tokens. */
module TrustBundles {
  import opened Options
  import opened Tokens

  datatype RawKey = RawKey(kid: Key, public: Key, issuer: string, grants: set<Grant>)

  datatype SignOut = SignOut(jti: string, exp: int)

  /** The signed part of a bundle; Malformed is any payload whose members are missing or of the wrong kind. */
  datatype Payload =
    | Malformed(authority: Key)
    | Payload(authority: Key, version: int, epoch: int, iat: int, keys: seq<RawKey>, revoked: seq<SignOut>,
      marked: Option<Mark>)

  datatype Jws =
    | NotAJws
    | OtherTyp
    | Bundled(signer: Key, payload: Payload)

  datatype BundleError =
    | NotABundle | WrongType | WrongSignature | WrongAuthority | NotItsThumbprint | ListedTwice | BadPayload

  function ReadKeys(raw: seq<RawKey>): Result<map<Key, TrustKey>, BundleError> {
    if raw == [] then Ok(map[])
    else
      var k := raw[|raw| - 1];
      var rest := ReadKeys(raw[..|raw| - 1]);
      if rest.Err? then rest
      else if k.public != k.kid then Err(NotItsThumbprint)
      else if k.kid in rest.value then Err(ListedTwice)
      else Ok(rest.value[k.kid := TrustKey(k.kid, k.issuer, k.grants)])
  }

  function Jtis(revoked: seq<SignOut>): set<string> {
    set i | 0 <= i < |revoked| :: revoked[i].jti
  }

  /** `parse_bundle`: a bundle the pinned authority signed, or why not. */
  function Parse(jws: Jws, authority: Key): Result<Bundle, BundleError> {
    if jws.NotAJws? then Err(NotABundle)
    else if jws.OtherTyp? then Err(WrongType)
    else if jws.signer != authority then Err(WrongSignature)
    else if jws.payload.authority != authority then Err(WrongAuthority)
    else if jws.payload.Malformed? then Err(BadPayload)
    else
      var p := jws.payload;
      var keys := ReadKeys(p.keys);
      if keys.Err? then Err(keys.error)
      else Ok(Bundle(p.version, p.epoch, p.iat, authority, keys.value, Jtis(p.revoked), p.marked))
  }

  /** The sign-outs a bundle built at `issued` still lists. */
  function Kept(revoked: seq<SignOut>, issued: int): seq<SignOut> {
    if revoked == [] then []
    else (if revoked[0].exp + LEEWAY >= issued then [revoked[0]] else []) + Kept(revoked[1..], issued)
  }

  predicate Distinct(keys: seq<TrustKey>) {
    forall i, j :: 0 <= i < j < |keys| ==> keys[i].kid != keys[j].kid
  }

  function RawKeys(keys: seq<TrustKey>): (raw: seq<RawKey>)
    ensures |raw| == |keys|
    ensures forall i :: 0 <= i < |keys| ==> raw[i] == RawKey(keys[i].kid, keys[i].kid, keys[i].issuer, keys[i].grants)
  {
    seq(|keys|, i requires 0 <= i < |keys| => RawKey(keys[i].kid, keys[i].kid, keys[i].issuer, keys[i].grants))
  }

  /** `build_bundle`: signed, with expired sign-outs pruned. */
  function Build(authority: Key, version: int, epoch: int, keys: seq<TrustKey>, revoked: seq<SignOut>, issued: int,
                 marked: Option<Mark>)
    : Result<Bundle, BundleError>
  {
    if !Distinct(keys) then Err(ListedTwice)
    else
      Parse(Bundled(authority,
        Payload(authority, version, epoch, issued, RawKeys(keys), Kept(revoked, issued), marked)), authority)
  }

  predicate HasKid(keys: seq<TrustKey>, k: Key) {
    exists i :: 0 <= i < |keys| && keys[i].kid == k
  }

  /** `m` lists exactly `keys`, each under its own thumbprint. */
  ghost predicate ListsKeys(m: map<Key, TrustKey>, keys: seq<TrustKey>) {
    && (forall k :: k in m <==> HasKid(keys, k))
    && (forall i :: 0 <= i < |keys| ==> keys[i].kid in m && m[keys[i].kid] == keys[i])
  }

  lemma ListsOneMore(m: map<Key, TrustKey>, keys: seq<TrustKey>, n: nat)
    requires n < |keys| && Distinct(keys) && ListsKeys(m, keys[..n])
    ensures keys[n].kid !in m
    ensures ListsKeys(m[keys[n].kid := keys[n]], keys[..n + 1])
  {
    hide HasKid;
    var front, all := keys[..n], keys[..n + 1];
    assert forall i :: 0 <= i < n ==> front[i] == keys[i] == all[i];
    forall k
      ensures HasKid(all, k) <==> HasKid(front, k) || k == keys[n].kid
    {
      OneMoreKid(keys, n, k);
    }
    assert Distinct(all);
    NotYetListed(keys, n);
  }

  lemma OneMoreKid(keys: seq<TrustKey>, n: nat, k: Key)
    requires n < |keys|
    ensures HasKid(keys[..n + 1], k) <==> HasKid(keys[..n], k) || k == keys[n].kid
  {
    var front, all := keys[..n], keys[..n + 1];
    assert all[n] == keys[n];
    if HasKid(front, k) {
      var i :| 0 <= i < n && front[i].kid == k;
      assert all[i].kid == k;
    }
    if HasKid(all, k) {
      var i :| 0 <= i <= n && all[i].kid == k;
      assert i < n ==> front[i].kid == k;
    }
  }

  lemma NotYetListed(keys: seq<TrustKey>, n: nat)
    requires n < |keys|
    ensures Distinct(keys[..n + 1]) <==> Distinct(keys[..n]) && !HasKid(keys[..n], keys[n].kid)
  {
    var front, all := keys[..n], keys[..n + 1];
    assert forall i :: 0 <= i < n ==> front[i] == all[i];
    assert all[n] == keys[n];
  }

  /** What a list of keys says of each, taking its word for its thumbprint. */
  function Listed(raw: seq<RawKey>): (keys: seq<TrustKey>)
    ensures |keys| == |raw|
    ensures forall i :: 0 <= i < |raw| ==> keys[i] == TrustKey(raw[i].kid, raw[i].issuer, raw[i].grants)
  {
    seq(|raw|, i requires 0 <= i < |raw| => TrustKey(raw[i].kid, raw[i].issuer, raw[i].grants))
  }

  ghost predicate OwnThumbprints(raw: seq<RawKey>) {
    forall i :: 0 <= i < |raw| ==> raw[i].public == raw[i].kid
  }

  /** A list of keys is read exactly when each names its own thumbprint and none comes twice. */
  lemma {:induction false} ReadKeysExactly(raw: seq<RawKey>)
    ensures ReadKeys(raw).Ok? <==> OwnThumbprints(raw) && Distinct(Listed(raw))
    ensures ReadKeys(raw).Ok? ==> ListsKeys(ReadKeys(raw).value, Listed(raw))
  {
    hide Listed, ListsKeys, HasKid, Distinct;
    var keys := Listed(raw);
    if raw == [] {
      assert keys == [];
      ListsNothing();
    } else {
      var n := |raw| - 1;
      ReadKeysExactly(raw[..n]);
      assert keys[..n] == Listed(raw[..n]) && keys[..n + 1] == keys;
      assert OwnThumbprints(raw) <==> OwnThumbprints(raw[..n]) && raw[n].public == raw[n].kid;
      NotYetListed(keys, n);
      if ReadKeys(raw[..n]).Ok? {
        var read := ReadKeys(raw[..n]).value;
        assert keys[n].kid in read <==> HasKid(keys[..n], keys[n].kid) by { ListedKid(read, keys[..n], keys[n].kid); }
        if Distinct(keys) {
          ListsOneMore(read, keys, n);
        }
      }
    }
  }

  lemma ListedKid(m: map<Key, TrustKey>, keys: seq<TrustKey>, k: Key)
    requires ListsKeys(m, keys)
    ensures k in m <==> HasKid(keys, k)
  {
  }

  lemma ListsNothing()
    ensures ListsKeys(map[], []) && Distinct([])
  {
  }

  lemma {:induction false} KeptExactly(revoked: seq<SignOut>, issued: int)
    ensures forall s :: s in Kept(revoked, issued) <==> s in revoked && s.exp + 300 >= issued
  {
    if revoked == [] {
    } else {
      KeptExactly(revoked[1..], issued);
      assert forall s :: s in revoked <==> s == revoked[0] || s in revoked[1..];
    }
  }

  lemma JtisExactly(revoked: seq<SignOut>, jti: string)
    ensures jti in Jtis(revoked) <==> exists s :: s in revoked && s.jti == jti
  {
    if exists s :: s in revoked && s.jti == jti {
      var s :| s in revoked && s.jti == jti;
      var i :| 0 <= i < |revoked| && revoked[i] == s;
    }
  }

  /** What the signed part must say for it to be read as `b`. */
  ghost predicate Spells(p: Payload, authority: Key, b: Bundle) {
    && p.Payload? && p.authority == authority
    && OwnThumbprints(p.keys) && Distinct(Listed(p.keys)) && ListsKeys(b.keys, Listed(p.keys))
    && b.authority == authority && b.version == p.version && b.epoch == p.epoch && b.iat == p.iat
    && b.marked == p.marked && (forall j :: j in b.revoked <==> exists s :: s in p.revoked && s.jti == j)
  }

  /** A document is read as a bundle exactly when the authority itself has signed it and it spells that bundle. */
  lemma ParsesExactly(jws: Jws, authority: Key, b: Bundle)
    ensures Parse(jws, authority) == Ok(b) <==>
      jws.Bundled? && jws.signer == authority && Spells(jws.payload, authority, b)
  {
    hide ReadKeys, Jtis, Distinct, Listed, ListsKeys, OwnThumbprints;
    if jws.Bundled? && jws.payload.Payload? {
      var p := jws.payload;
      ReadKeysExactly(p.keys);
      forall j
        ensures j in Jtis(p.revoked) <==> exists s :: s in p.revoked && s.jti == j
      {
        JtisExactly(p.revoked, j);
      }
      assert (forall j :: j in b.revoked <==> exists s :: s in p.revoked && s.jti == j) ==>
        b.revoked == Jtis(p.revoked);
      if ReadKeys(p.keys).Ok? && ListsKeys(b.keys, Listed(p.keys)) {
        ListsOnlyOne(ReadKeys(p.keys).value, b.keys, Listed(p.keys));
      }
    }
  }

  lemma ListsOnlyOne(m: map<Key, TrustKey>, m': map<Key, TrustKey>, keys: seq<TrustKey>)
    requires ListsKeys(m, keys) && ListsKeys(m', keys)
    ensures m == m'
  {
    assert m.Keys == m'.Keys;
    forall k | k in m
      ensures m[k] == m'[k]
    {
      var i :| 0 <= i < |keys| && keys[i].kid == k;
    }
  }

  /** A bundle reads back what it was built from: every key under its own thumbprint, and
      exactly the sign-outs whose token could still be accepted. */
  lemma BuiltBundleReadsBack(authority: Key, version: int, epoch: int, keys: seq<TrustKey>, revoked: seq<SignOut>,
                             issued: int, marked: Option<Mark>)
    ensures var b := Build(authority, version, epoch, keys, revoked, issued, marked);
      && (b.Ok? <==> Distinct(keys))
      && (b.Ok? ==>
            && b.value.version == version && b.value.epoch == epoch && b.value.iat == issued
            && b.value.authority == authority && b.value.marked == marked
            && ListsKeys(b.value.keys, keys)
            && (forall j :: j in b.value.revoked <==>
              exists s :: s in revoked && s.exp + 300 >= issued && s.jti == j))
  {
    hide ReadKeys, Kept, Jtis, Distinct, RawKeys, ListsKeys;
    assert Listed(RawKeys(keys)) == keys;
    if Distinct(keys) {
      ReadKeysExactly(RawKeys(keys));
      KeptExactly(revoked, issued);
      forall j
        ensures j in Jtis(Kept(revoked, issued)) <==> exists s :: s in revoked && s.exp + 300 >= issued && s.jti == j
      {
        JtisExactly(Kept(revoked, issued), j);
      }
    }
  }

  /** A session recorded as signed out, with its own expiry, is refused by a bundle built at
      `issued` from then on: while its entry is kept, as signed out; once pruned, as expired. */
  lemma SignOutOutlivesItsEntry(authority: Key, version: int, epoch: int, keys: seq<TrustKey>, revoked: seq<SignOut>,
                                issued: int, marked: Option<Mark>,
                                token: Token, out: SignOut, recipient: string, classes: set<Class>, now: real)
    requires Build(authority, version, epoch, keys, revoked, issued, marked).Ok?
    requires token.Signed? && token.typ in {Session, Administration}
    requires Get(token.claims, Jti) == Str(out.jti) && AsInt(Get(token.claims, Exp)) == Some(out.exp) && out in revoked
    requires now >= issued as real
    ensures Verify(token, Build(authority, version, epoch, keys, revoked, issued, marked).value, recipient, classes,
      now).Err?
  {
    hide Build, Granted, CheckEpoch, Audience, NamedGone;
    BuiltBundleReadsBack(authority, version, epoch, keys, revoked, issued, marked);
    var b := Build(authority, version, epoch, keys, revoked, issued, marked).value;
    if out.exp + LEEWAY >= issued {
      assert out.jti in b.revoked;
    } else {
      assert out.exp as real <= now - LEEWAY as real;
    }
  }

  // ----- Replacing a bundle -----

  /** `b` may follow `a`: a later epoch, or the same one and no lower version. */
  ghost predicate NoOlder(b: Option<Bundle>, a: Option<Bundle>) {
    a.Some? ==> b.Some? && b.value.epoch >= a.value.epoch
                && (b.value.epoch == a.value.epoch ==> b.value.version >= a.value.version)
  }

  datatype Backwards = EpochBelow(offered: int, held: int) | VersionBelow(offered: int, held: int)

  /** None when `offered` may replace `held`; otherwise why not. */
  function AcceptsReplacement(held: Option<Bundle>, offered: Bundle): (why: Option<Backwards>)
    ensures why.None? <==> NoOlder(Some(offered), held)
    ensures why.Some? ==> why.value == if offered.epoch < held.value.epoch
      then EpochBelow(offered.epoch, held.value.epoch) else VersionBelow(offered.version, held.value.version)
  {
    if held.None? then None
    else if offered.epoch < held.value.epoch then Some(EpochBelow(offered.epoch, held.value.epoch))
    else if offered.epoch > held.value.epoch then None
    else if offered.version < held.value.version then Some(VersionBelow(offered.version, held.value.version))
    else None
  }

  datatype Stamp = Stamp(inode: int, mtime: int, size: int)

  /** What one look at the disk finds: the file's stamp, or None when it cannot be looked at, and
      the document in it, or None when that cannot be read or is no document. */
  datatype Look = Look(now: real, stamp: Option<Stamp>, document: Option<Jws>)

  datatype FileError = CannotRead | Unreadable | NotVerified(cause: BundleError) | Backward(why: Backwards)

  /** `BundleFile`: the newest bundle verified so far. */
  class BundleFile {
    const authority: Key
    const interval: real
    var bundle: Option<Bundle>
    var stamp: Option<Stamp>
    var checked: real
    var error: Option<FileError>

    constructor (authority: Key, interval: real)
      ensures this.authority == authority && this.interval == interval
      ensures bundle == None && stamp == None && checked == 0.0 && error == None
    {
      this.authority, this.interval := authority, interval;
      bundle, stamp, checked, error := None, None, 0.0, None;
    }

    /** The file is looked at again: nothing is trusted yet, or `interval` has passed since it last was. */
    ghost predicate Due(now: real)
      reads this
    {
      bundle.None? || now - checked >= interval
    }

    /** The look is due and finds the file changed, and in it a bundle signed by the authority and no older. */
    ghost predicate Takes(look: Look)
      reads this
    {
      && Due(look.now) && look.stamp.Some? && look.stamp != stamp
      && Genuine(look, authority) && NoOlder(Some(Shown(look, authority)), bundle)
    }

    /** The bundle to trust now: the one the look finds, if it is to be taken, and else the one held
        before. Each due look starts the interval anew. */
    method Get(look: Look) returns (b: Option<Bundle>)
      modifies this
      ensures b == bundle && NoOlder(b, old(bundle))
      ensures checked == if old(bundle).Some? && look.now - old(checked) < interval then old(checked) else look.now
      ensures old(Takes(look)) ==> b == Some(Shown(look, authority)) && stamp == look.stamp && error == None
      ensures !old(Takes(look)) ==> b == old(bundle) && stamp == old(stamp)
      ensures !old(Due(look.now)) || (look.stamp.Some? && look.stamp == old(stamp)) ==> error == old(error)
      ensures old(Due(look.now)) && look.stamp.None? ==> error == Some(CannotRead)
      ensures old(Due(look.now)) && look.stamp.Some? && look.stamp != old(stamp) && !Genuine(look, authority) ==>
        error == if look.document.None? then Some(Unreadable)
        else Some(NotVerified(Parse(look.document.value, authority).error))
      ensures old(Due(look.now)) && look.stamp.Some? && look.stamp != old(stamp) ==>
        Genuine(look, authority) && !old(Takes(look)) ==>
        error == Some(Backward(AcceptsReplacement(old(bundle), Shown(look, authority)).value))
    {
      if bundle.Some? && look.now - checked < interval {
        return bundle;
      }
      checked := look.now;
      if look.stamp.None? {
        error := Some(CannotRead);
        return bundle;
      }
      if look.stamp == stamp {
        return bundle;
      }
      if look.document.None? {
        error := Some(Unreadable);
        return bundle;
      }
      var offered := Parse(look.document.value, authority);
      if offered.Err? {
        error := Some(NotVerified(offered.error));
        return bundle;
      }
      var why := AcceptsReplacement(bundle, offered.value);
      if why.Some? {
        error := Some(Backward(why.value));
        return bundle;
      }
      bundle, stamp, error := Some(offered.value), look.stamp, None;
      return bundle;
    }

    /** Over any history of the file, what is trusted never goes backwards; it changes only to a bundle the
        authority has signed in the document looked at; and, as long as the clock does not run back, a
        look that comes `interval` or more after the one before it and finds a file not seen before, with a bundle
        in it signed by the authority and no older, is trusted from then. */
    method GetAll(looks: seq<Look>) returns (trusted: seq<Option<Bundle>>)
      modifies this
      ensures |trusted| == |looks| && bundle == Held(old(bundle), trusted, |looks|)
      ensures NeverBackwards([old(bundle)] + trusted)
      ensures Came(trusted, looks, old(bundle), authority)
      ensures Onward(old(checked), looks) ==>
        TakenInTime(trusted, looks, old(bundle), old(stamp), old(checked), authority, interval)
    {
      hide Parse, NoOlder, NeverBackwards, Came, TakenInTime;
      trusted := [];
      FirstNeverBackwards(bundle);
      ghost var first, stamp0, from := bundle, stamp, checked;
      NothingCame(looks, first, stamp0, from, authority, interval);
      for i := 0 to |looks|
        invariant |trusted| == i && NeverBackwards([first] + trusted)
        invariant bundle == Held(first, trusted, i)
        invariant stamp == stamp0 || exists k :: 0 <= k < i && looks[k].stamp == stamp
        invariant Onward(from, looks) ==> checked <= TimeBefore(from, looks, i)
        invariant Came(trusted, looks, first, authority)
        invariant Onward(from, looks) ==> TakenInTime(trusted, looks, first, stamp0, from, authority, interval)
      {
        assert Onward(from, looks) ==> TimeBefore(from, looks, i) <= looks[i].now;
        ghost var taken := Takes(looks[i]);
        var b := Get(looks[i]);
        NeverBackwardsStep([first] + trusted, b);
        assert [first] + trusted + [b] == [first] + (trusted + [b]);
        CameStep(trusted, looks, first, authority, b);
        if Onward(from, looks) {
          TakenStep(trusted, looks, first, stamp0, from, authority, interval, b);
        }
        trusted := trusted + [b];
      }
    }
  }

  /** The look finds a document that the authority has signed and that spells a bundle. */
  ghost predicate Genuine(look: Look, authority: Key) {
    look.document.Some? && Parse(look.document.value, authority).Ok?
  }

  ghost function Shown(look: Look, authority: Key): Bundle
    requires Genuine(look, authority)
  {
    Parse(look.document.value, authority).value
  }

  /** What was trusted before look `i`. */
  ghost function Held(first: Option<Bundle>, trusted: seq<Option<Bundle>>, i: nat): Option<Bundle>
    requires i <= |trusted|
  {
    if i == 0 then first else trusted[i - 1]
  }

  ghost function TimeBefore(from: real, looks: seq<Look>, i: nat): real
    requires i <= |looks|
  {
    if i == 0 then from else looks[i - 1].now
  }

  /** The clock does not run back. */
  ghost predicate Onward(from: real, looks: seq<Look>) {
    forall i: nat :: i < |looks| ==> TimeBefore(from, looks, i) <= looks[i].now
  }

  /** Each change of what is trusted is to a bundle the look then shows. */
  ghost predicate Came(trusted: seq<Option<Bundle>>, looks: seq<Look>, first: Option<Bundle>, authority: Key) {
    && |trusted| <= |looks|
    && forall i: nat :: i < |trusted| && trusted[i] != Held(first, trusted, i) ==>
         Genuine(looks[i], authority) && trusted[i] == Some(Shown(looks[i], authority))
  }

  /** Look `i` comes `interval` or more after the one before it, or finds nothing trusted yet, and finds a stamp
      no look before it did. */
  ghost predicate FindsChange(looks: seq<Look>, held: Option<Bundle>, stamp: Option<Stamp>, from: real, interval: real,
                              i: nat)
    requires i < |looks|
  {
    && (held.None? || looks[i].now - TimeBefore(from, looks, i) >= interval)
    && looks[i].stamp.Some? && looks[i].stamp != stamp && forall k :: 0 <= k < i ==> looks[k].stamp != looks[i].stamp
  }

  ghost predicate TakenInTime(trusted: seq<Option<Bundle>>, looks: seq<Look>, first: Option<Bundle>,
                              stamp: Option<Stamp>, from: real, authority: Key, interval: real) {
    && |trusted| <= |looks|
    && forall i: nat :: i < |trusted| && FindsChange(looks, Held(first, trusted, i), stamp, from, interval, i) ==>
         Genuine(looks[i], authority) && NoOlder(Some(Shown(looks[i], authority)), Held(first, trusted, i)) ==>
           trusted[i] == Some(Shown(looks[i], authority))
  }

  lemma NothingCame(looks: seq<Look>, first: Option<Bundle>, stamp: Option<Stamp>, from: real, authority: Key,
                    interval: real)
    ensures Came([], looks, first, authority)
    ensures TakenInTime([], looks, first, stamp, from, authority, interval)
  {
  }

  lemma HeldGrows(first: Option<Bundle>, trusted: seq<Option<Bundle>>, b: Option<Bundle>)
    ensures forall i: nat :: i <= |trusted| ==> Held(first, trusted + [b], i) == Held(first, trusted, i)
    ensures forall i: nat :: i < |trusted| ==> (trusted + [b])[i] == trusted[i]
  {
  }

  lemma CameStep(trusted: seq<Option<Bundle>>, looks: seq<Look>, first: Option<Bundle>, authority: Key,
                 b: Option<Bundle>)
    requires |trusted| < |looks| && Came(trusted, looks, first, authority)
    requires b == Held(first, trusted, |trusted|)
      || (Genuine(looks[|trusted|], authority) && b == Some(Shown(looks[|trusted|], authority)))
    ensures Came(trusted + [b], looks, first, authority)
  {
    hide Genuine, Shown, Held;
    HeldGrows(first, trusted, b);
  }

  lemma TakenStep(trusted: seq<Option<Bundle>>, looks: seq<Look>, first: Option<Bundle>, stamp: Option<Stamp>,
                  from: real, authority: Key, interval: real, b: Option<Bundle>)
    requires |trusted| < |looks| && TakenInTime(trusted, looks, first, stamp, from, authority, interval)
    requires var n, held := |trusted|, Held(first, trusted, |trusted|);
      FindsChange(looks, held, stamp, from, interval, n) ==>
        Genuine(looks[n], authority) && NoOlder(Some(Shown(looks[n], authority)), held) ==>
          b == Some(Shown(looks[n], authority))
    ensures TakenInTime(trusted + [b], looks, first, stamp, from, authority, interval)
  {
    hide Genuine, Shown, NoOlder, FindsChange, Held;
    HeldGrows(first, trusted, b);
  }

  /** While no look finds a document that verifies -- unreadable, badly signed or malformed -- what is
      trusted stays as it was. */
  lemma {:induction false} ForgeriesChangeNothing(trusted: seq<Option<Bundle>>, looks: seq<Look>, first: Option<Bundle>,
                                                  authority: Key, i: nat)
    requires Came(trusted, looks, first, authority) && i < |trusted|
    requires forall k :: 0 <= k <= i ==> !Genuine(looks[k], authority)
    ensures trusted[i] == first
  {
    hide Genuine, Shown;
    if i == 0 {
    } else {
      ForgeriesChangeNothing(trusted, looks, first, authority, i - 1);
    }
  }

  ghost predicate NeverBackwards(trusted: seq<Option<Bundle>>) {
    forall i, j :: 0 <= i <= j < |trusted| ==> NoOlder(trusted[j], trusted[i])
  }

  lemma FirstNeverBackwards(first: Option<Bundle>)
    ensures NeverBackwards([first] + [])
  {
  }

  lemma NeverBackwardsStep(trusted: seq<Option<Bundle>>, b: Option<Bundle>)
    requires NeverBackwards(trusted) && (trusted != [] ==> NoOlder(b, trusted[|trusted| - 1]))
    ensures NeverBackwards(trusted + [b])
  {
    var all := trusted + [b];
    forall i, j | 0 <= i <= j < |all|
      ensures NoOlder(all[j], all[i])
    {
      if j == |trusted| && i < j {
        assert NoOlder(trusted[|trusted| - 1], trusted[i]);
      }
    }
  }

  /** A root token refused as superseded is refused ever after, whatever is asked of it. */
  lemma SupersededForEver(trusted: seq<Option<Bundle>>, i: nat, j: nat, token: Token,
                          recipient: string, classes: set<Class>, now: real,
                          recipient': string, classes': set<Class>, now': real, ep: int, follows: int)
    requires NeverBackwards(trusted) && i <= j < |trusted| && trusted[i].Some?
    requires Verify(token, trusted[i].value, recipient, classes, now) == Err(Superseded(Some(ep), follows))
    ensures trusted[j].Some? && Verify(token, trusted[j].value, recipient', classes', now').Err?
  {
    hide Granted, Limit, Audience, GoodBinding, NamedGone;
    assert NoOlder(trusted[j], trusted[i]);
  }
}
