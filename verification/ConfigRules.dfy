/** What the driver's configuration takes, what a value comes to, and what a start makes of a file. */
module ConfigRules {
  import opened Options
  import opened Text
  import opened PrivateFiles
  import opened Config

  // ----- What a field takes -----

  ghost predicate GoodEntry(v: Value) {
    v.Str? && !Blank(v.s) && |v.s| <= 256
  }

  /** A null always; else a value of the field's type that fits it. A secret may not be the text shown in a secret's
      place, and a list is of at most a hundred texts, none blank and none over 256 characters. */
  ghost predicate Takes(f: Field, v: Value) {
    v == Null || match f.kind
      case Text(matches) => v.Str? && matches(v.s)
      case Secret => v.Str? && v.s != "<redacted>"
      case Integer(least, most) => v.Int? && (least.Some? ==> least.value <= v.n) && (most.Some? ==> v.n <= most.value)
      case Number(least, most) =>
        && (v.Int? || v.Num?)
        && (least.Some? ==> least.value <= Size(v)) && (most.Some? ==> Size(v) <= most.value)
      case Boolean => v.Bool?
      case Enum(allowed) => v.Str? && v.s in allowed
      case StringList => v.ListOf? && |v.items| <= 100 && forall x :: x in v.items ==> GoodEntry(x)
  }

  ghost function Size(v: Value): real {
    match v
    case Int(n) => n as real
    case Num(r) => r
    case _ => 0.0
  }

  /** What is said to be wrong with a value is. */
  ghost predicate IsWrong(f: Field, v: Value, why: Problem) {
    match why
    case WrongType => !OfType(f.kind, v)
    case NoMatch => f.kind.Text? && v.Str? && !f.kind.matches(v.s)
    case Redacted => f.kind.Secret? && v == Str("<redacted>")
    case TooSmall =>
      || (f.kind.Integer? && v.Int? && f.kind.minimum.Some? && v.n < f.kind.minimum.value)
      || (f.kind.Number? && f.kind.least.Some? && Size(v) < f.kind.least.value)
    case TooLarge =>
      || (f.kind.Integer? && v.Int? && f.kind.maximum.Some? && v.n > f.kind.maximum.value)
      || (f.kind.Number? && f.kind.most.Some? && Size(v) > f.kind.most.value)
    case NotFinite => f.kind.Number? && v == NotANumber
    case NotAllowed => f.kind.Enum? && v.Str? && v.s !in f.kind.allowed
    case BadEntry(i) => f.kind.StringList? && v.ListOf? && FirstBad(v.items, i)
      && !(v.items[i].Str? && !Blank(v.items[i].s))
    case LongEntry(i) => f.kind.StringList? && v.ListOf? && FirstBad(v.items, i) && v.items[i].Str?
      && |v.items[i].s| > 256
    case TooMany => f.kind.StringList? && v.ListOf? && |v.items| > 100
  }

  ghost predicate FirstBad(items: seq<Value>, i: nat) {
    i < |items| && !GoodEntry(items[i]) && forall j :: 0 <= j < i ==> GoodEntry(items[j])
  }

  ghost predicate OfType(kind: Kind, v: Value) {
    match kind
    case Text(_) => v.Str?
    case Secret => v.Str?
    case Integer(_, _) => v.Int?
    case Number(_, _) => v.Int? || v.Num? || v.NotANumber?
    case Boolean => v.Bool?
    case Enum(_) => v.Str?
    case StringList => v.ListOf?
  }

  lemma {:induction false} EntriesExactly(items: seq<Value>, i: nat)
    requires i <= |items| && forall j :: 0 <= j < i ==> GoodEntry(items[j])
    ensures var bad := EntryProblem(items, i);
      if bad.None? then forall x :: x in items ==> GoodEntry(x)
      else IsWrong(Field(StringList, false, None, false), ListOf(items), bad.value) && !bad.value.TooMany?
    decreases |items| - i
  {
    if i == |items| {
    } else if GoodEntry(items[i]) {
      EntriesExactly(items, i + 1);
    } else {
      assert FirstBad(items, i);
    }
  }

  /** A value may be saved exactly when the field takes it, and what is said against any other is true of it. */
  lemma TakesExactly(f: Field, v: Value)
    ensures ProblemWith(f, v).None? <==> Takes(f, v)
    ensures ProblemWith(f, v).Some? ==> IsWrong(f, v, ProblemWith(f, v).value)
  {
    hide Blank, GoodEntry;
    if f.kind.StringList? && v.ListOf? {
      EntriesExactly(v.items, 0);
      var bad := EntryProblem(v.items, 0);
      if bad.Some? {
        FirstBadIsBad(v.items, bad.value);
      }
    }
  }

  lemma FirstBadIsBad(items: seq<Value>, why: Problem)
    requires IsWrong(Field(StringList, false, None, false), ListOf(items), why) && !why.TooMany?
    ensures exists x :: x in items && !GoodEntry(x)
  {
    hide Blank, GoodEntry;
    match why
    case BadEntry(i) => assert items[i] in items;
    case LongEntry(i) => assert items[i] in items;
    case _ =>
  }

  // ----- What a value comes to -----

  /** `v` saved, or loaded, comes to `w`: a null, or a blank secret, to the default or to null where there is none. */
  ghost predicate ComesTo(f: Field, v: Value, w: Value) {
    if v == Null || (f.kind == Secret && v.Str? && Blank(v.s)) then
      w == match f.default case Some(d) => d case None => Null
    else w == v
  }

  lemma InEffectExactly(f: Field, v: Value, w: Value)
    ensures InEffect(f, v) == w <==> ComesTo(f, v, w)
  {
  }

  /** Why a change is not made: its key is unknown, else its value is not taken, else its key is managed elsewhere. */
  lemma VerdictExactly(schema: Schema, managed: set<string>, c: Change)
    ensures match Verdict(schema, managed, c)
      case None => c.key in schema && Takes(schema[c.key], c.value) && c.key !in managed
      case Some(UnknownField) => c.key !in schema
      case Some(Invalid(why)) => c.key in schema && !Takes(schema[c.key], c.value)
        && IsWrong(schema[c.key], c.value, why)
      case Some(Managed) => c.key in schema && Takes(schema[c.key], c.value) && c.key in managed
  {
    hide ProblemWith, Takes, IsWrong;
    if c.key in schema {
      TakesExactly(schema[c.key], c.value);
    }
  }

  /** The change is one a PATCH makes. */
  ghost predicate Made(schema: Schema, managed: set<string>, c: Change) {
    c.key in schema && Takes(schema[c.key], c.value) && c.key !in managed
  }

  /** Of a PATCH that names each key once, each change is made, and its key applied, or it is rejected; and what a key
      then holds is what it held, or what the change made to it comes to. */
  lemma PatchDoes(schema: Schema, managed: set<string>, values: Values, patch: seq<Change>, i: nat)
    requires OnceEach(patch) && i < |patch|
    ensures var after, key := Patched(schema, managed, values, patch), patch[i].key;
      if Made(schema, managed, patch[i]) then
        key in AppliedKeys(schema, managed, patch) && key in after && key in schema
        && ComesTo(schema[key], patch[i].value, after[key])
      else
        key !in AppliedKeys(schema, managed, patch) && (key in after <==> key in values)
        && (key in after ==> after[key] == values[key])
  {
    hide Verdict, Patched, InEffect, ComesTo, OnceEach, AppliedKeys, Takes, IsWrong;
    PatchSetsExactly(schema, managed, values, patch, patch[i].key);
    VerdictExactly(schema, managed, patch[i]);
    OnlyOnce(schema, managed, patch, i);
    AppliedExactly(schema, managed, patch, patch[i].key);
    if Made(schema, managed, patch[i]) {
      var after, key := Patched(schema, managed, values, patch), patch[i].key;
      InEffectExactly(schema[key], patch[i].value, after[key]);
    }
  }

  lemma OnlyOnce(schema: Schema, managed: set<string>, patch: seq<Change>, i: nat)
    requires OnceEach(patch) && i < |patch|
    ensures Sets(schema, managed, patch, patch[i].key) <==> Verdict(schema, managed, patch[i]).None?
  {
    hide Verdict;
  }

  lemma {:induction false} AppliedExactly(schema: Schema, managed: set<string>, patch: seq<Change>, key: string)
    ensures key in AppliedKeys(schema, managed, patch) <==> Sets(schema, managed, patch, key)
  {
    hide Verdict, Sets;
    if patch == [] {
      assert !Sets(schema, managed, patch, key) by { NothingSets(schema, managed, key); }
    } else {
      var n := |patch| - 1;
      AppliedExactly(schema, managed, patch[..n], key);
      SetsMore(schema, managed, patch, key);
    }
  }

  lemma NothingSets(schema: Schema, managed: set<string>, key: string)
    ensures !Sets(schema, managed, [], key)
  {
  }

  lemma SetsMore(schema: Schema, managed: set<string>, patch: seq<Change>, key: string)
    requires patch != []
    ensures var n := |patch| - 1;
      Sets(schema, managed, patch, key) <==>
        Sets(schema, managed, patch[..n], key) || (patch[n].key == key && Verdict(schema, managed, patch[n]).None?)
  {
    hide Verdict;
    var n := |patch| - 1;
    assert forall i :: 0 <= i < n ==> patch[..n][i] == patch[i];
    if Sets(schema, managed, patch[..n], key) {
      var i :| 0 <= i < n && patch[..n][i].key == key && Verdict(schema, managed, patch[..n][i]).None?;
      assert patch[i].key == key;
    }
  }

  /** The changes of a PATCH are answered in order. */
  lemma {:induction false} AnsweredInOrder(schema: Schema, managed: set<string>, a: seq<Change>, b: seq<Change>)
    ensures AppliedKeys(schema, managed, a + b) == AppliedKeys(schema, managed, a) + AppliedKeys(schema, managed, b)
    ensures RejectedKeys(schema, managed, a + b) == RejectedKeys(schema, managed, a) + RejectedKeys(schema, managed, b)
    decreases |b|
  {
    hide Verdict;
    if b == [] {
      assert a + b == a;
    } else {
      hide AppliedKeys, RejectedKeys;
      var n := |b| - 1;
      AnsweredInOrder(schema, managed, a, b[..n]);
      assert (a + b)[..|a + b| - 1] == a + b[..n] && (a + b)[|a + b| - 1] == b[n];
      AnsweredLast(schema, managed, b);
      AnsweredLast(schema, managed, a + b);
      Assoc(AppliedKeys(schema, managed, a), AppliedKeys(schema, managed, b[..n]),
        AppliedKeys(schema, managed, [b[n]]));
      Assoc(RejectedKeys(schema, managed, a), RejectedKeys(schema, managed, b[..n]),
        RejectedKeys(schema, managed, [b[n]]));
    }
  }

  lemma AnsweredLast(schema: Schema, managed: set<string>, patch: seq<Change>)
    requires patch != []
    ensures var n := |patch| - 1;
      && AppliedKeys(schema, managed, patch)
         == AppliedKeys(schema, managed, patch[..n]) + AppliedKeys(schema, managed, [patch[n]])
      && RejectedKeys(schema, managed, patch)
         == RejectedKeys(schema, managed, patch[..n]) + RejectedKeys(schema, managed, [patch[n]])
  {
    hide Verdict;
    assert [patch[|patch| - 1]][..0] == [];
  }

  /** Each by its key among those applied, or by its key and why among those rejected. */
  lemma AnsweredOnce(schema: Schema, managed: set<string>, c: Change)
    ensures if Made(schema, managed, c) then
        AppliedKeys(schema, managed, [c]) == [c.key] && RejectedKeys(schema, managed, [c]) == []
      else
        && AppliedKeys(schema, managed, [c]) == [] && Verdict(schema, managed, c).Some?
        && RejectedKeys(schema, managed, [c]) == [(c.key, Verdict(schema, managed, c).value)]
  {
    hide Verdict, Takes, IsWrong;
    VerdictExactly(schema, managed, c);
    assert [c][..0] == [];
  }

  // ----- What is shown -----

  /** Stores that differ only in what their secrets are, not in which are set, are shown alike. */
  lemma SecretsAreNotShown(schema: Schema, a: Values, b: Values)
    requires a.Keys == b.Keys
    requires forall k :: k in a ==>
      if k in schema && schema[k].sensitive then a[k] == Null <==> b[k] == Null else a[k] == b[k]
    ensures Shown(schema, a) == Shown(schema, b)
  {
  }

  /** The PATCH says of each key it names what the store showed of it. */
  ghost predicate Echoes(schema: Schema, values: Values, patch: seq<Change>) {
    forall i :: 0 <= i < |patch| ==>
      patch[i].key in values && patch[i].value == Shown(schema, values)[patch[i].key]
  }

  /** A PATCH of what was shown changes nothing exactly when no secret is overwritten by the text that stands for it:
      each one named has a field that refuses that text, or is managed, or is not set, or was that text. */
  lemma EchoChangesNothingExactly(schema: Schema, managed: set<string>, values: Values, patch: seq<Change>)
    requires Settled(schema, values) && OnceEach(patch) && Echoes(schema, values, patch)
    ensures Patched(schema, managed, values, patch) == values <==>
      forall i :: 0 <= i < |patch| && schema[patch[i].key].sensitive && values[patch[i].key] != Null ==>
        || !Takes(schema[patch[i].key], Str("<redacted>")) || patch[i].key in managed
        || values[patch[i].key] == Str("<redacted>")
  {
    hide Takes, ComesTo, Patched, OnceEach;
    var after := Patched(schema, managed, values, patch);
    forall i | 0 <= i < |patch|
      ensures var key := patch[i].key;
        key in after && (after[key] == values[key] <==>
          (schema[key].sensitive && values[key] != Null ==>
             !Takes(schema[key], Str("<redacted>")) || key in managed || values[key] == Str("<redacted>")))
    {
      PatchDoes(schema, managed, values, patch, i);
      EchoedComesTo(schema, values, patch[i].key);
    }
    forall key | key !in values || forall i :: 0 <= i < |patch| ==> patch[i].key != key
      ensures key in after <==> key in values
      ensures key in values ==> after[key] == values[key]
    {
      UnnamedStays(schema, managed, values, patch, key);
    }
    assert after == values <==> forall i :: 0 <= i < |patch| ==> after[patch[i].key] == values[patch[i].key];
  }

  lemma UnnamedStays(schema: Schema, managed: set<string>, values: Values, patch: seq<Change>, key: string)
    requires OnceEach(patch) && forall i :: 0 <= i < |patch| ==> patch[i].key != key
    ensures var after := Patched(schema, managed, values, patch);
      (key in after <==> key in values) && (key in values ==> after[key] == values[key])
  {
    hide Patched, Verdict;
    PatchSetsExactly(schema, managed, values, patch, key);
  }

  lemma EchoedComesTo(schema: Schema, values: Values, key: string)
    requires Settled(schema, values) && key in values
    ensures var shown := Shown(schema, values)[key];
      if schema[key].sensitive && values[key] != Null
      then shown == Str("<redacted>") && forall w :: ComesTo(schema[key], shown, w) <==> w == shown
      else shown == values[key] && forall w :: ComesTo(schema[key], shown, w) <==> w == values[key]
  {
    forall w
      ensures ComesTo(schema[key], values[key], w) <==> w == values[key]
    {
      InEffectExactly(schema[key], values[key], w);
    }
    assert !IsSpace("<redacted>"[0]);
  }

  /** Where every sensitive field is of the secret kind that is always so. */
  lemma SecretFieldsSurviveEchoes(schema: Schema, managed: set<string>, values: Values, patch: seq<Change>)
    requires Settled(schema, values) && OnceEach(patch) && Echoes(schema, values, patch)
    requires forall k :: k in schema && schema[k].sensitive ==> schema[k].kind == Secret
    ensures Patched(schema, managed, values, patch) == values
  {
    hide Patched, Settled, OnceEach, Echoes;
    EchoedAreKnown(schema, values, patch);
    EchoChangesNothingExactly(schema, managed, values, patch);
  }

  lemma EchoedAreKnown(schema: Schema, values: Values, patch: seq<Change>)
    requires Settled(schema, values) && Echoes(schema, values, patch)
    ensures forall i :: 0 <= i < |patch| ==> patch[i].key in schema && patch[i].key in values
  {
  }

  // ----- What a start makes of a file -----

  /** What is stored can be read as `v`: as it stands, or opened with the very key it was sealed with; an envelope
      that cannot be opened is a null. */
  ghost predicate ReadsBack(stored: Stored, masterKey: Option<string>, v: Value) {
    match stored
    case Raw(w) => v == w
    case Sealed(text, key) => v == if masterKey == Some(key) then Str(text) else Null
    case Damaged => v == Null
  }

  /** A start holds, for each known field, what the file says of it, or its default where the file says nothing. */
  lemma LoadsExactly(schema: Schema, masterKey: Option<string>, doc: Document, key: string)
    ensures var values := Loaded(schema, masterKey, doc);
      && (key in values <==> key in schema && (key in doc || schema[key].default.Some?))
      && (key in values && key in doc ==>
            exists v :: ReadsBack(doc[key], masterKey, v) && ComesTo(schema[key], v, values[key]))
      && (key in values && key !in doc ==> schema[key].default == Some(values[key]))
  {
    hide InEffect, ComesTo, Opened;
    var values := Loaded(schema, masterKey, doc);
    if key in values && key in doc {
      var v := Opened(doc[key], masterKey);
      InEffectExactly(schema[key], v, values[key]);
      assert ReadsBack(doc[key], masterKey, v) by { OpenedReadsBack(doc[key], masterKey); }
    }
  }

  lemma OpenedReadsBack(stored: Stored, masterKey: Option<string>)
    ensures ReadsBack(stored, masterKey, Opened(stored, masterKey))
  {
  }

  /** A crash costs a file only what was not synced; and a start finds the defaults where there is no file or an empty
      one, what a whole document says, and nothing it can use in part of one. */
  lemma StartsExactly(schema: Schema, masterKey: Option<string>, image: Image<Document>)
    ensures var found := Recovered(schema, masterKey, AfterCrash(image).target);
      match image.target
      case None => found == Some(Defaults(schema))
      case Some(File(content, synced)) =>
        if !synced || content == Partial then found == None
        else if content == Empty then found == Some(Defaults(schema))
        else found == Some(Loaded(schema, masterKey, content.value))
    ensures Recovered(schema, masterKey, image.target) == Recovered(schema, masterKey, AfterCrash(image).target)
  {
    hide Loaded, Defaults;
  }

  /** A sealed value is opened by a start with the key it was sealed with, and by no other. */
  lemma OnlyItsKeyOpens(schema: Schema, key: string, other: Option<string>, values: Values, k: string)
    requires k in values && k in schema && schema[k].sensitive && values[k].Str? && !Blank(values[k].s)
    requires schema[k].default == None
    ensures var found := Loaded(schema, other, OnDisk(schema, Some(key), values));
      k in found && found[k] == if other == Some(key) then values[k] else Null
  {
    assert values[k].s != "";
  }
}
