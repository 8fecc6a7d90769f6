/**
  The driver's configuration: values in memory, sealed and plain ones on disk, and PATCHes that a
  crash may interrupt.
 */
module Config {
  import opened Options
  import opened PrivateFiles
  import opened Text

  datatype Value =
    | Null | Bool(b: bool) | Int(n: int) | Num(r: real) | NotANumber
    | Str(s: string) | ListOf(items: seq<Value>) | Mapping

  /** What a field takes. Text may have to match a pattern, here the set of texts that do. */
  datatype Kind =
    | Text(matches: string -> bool)
    | Secret
    | Integer(minimum: Option<int>, maximum: Option<int>)
    | Number(least: Option<real>, most: Option<real>)
    | Boolean
    | Enum(allowed: seq<string>)
    | StringList

  datatype Field = Field(kind: Kind, sensitive: bool, default: Option<Value>, requiresRestart: bool)

  type Schema = map<string, Field>

  type Values = map<string, Value>

  const REDACTED := "<redacted>"

  datatype Problem =
    | WrongType | NoMatch | Redacted | TooSmall | TooLarge | NotFinite | NotAllowed
    | BadEntry(i: nat) | LongEntry(i: nat) | TooMany

  function EntryProblem(items: seq<Value>, i: nat): Option<Problem>
    requires i <= |items|
    decreases |items| - i
  {
    if i == |items| then None
    else if !items[i].Str? || Blank(items[i].s) then Some(BadEntry(i))
    else if |items[i].s| > 256 then Some(LongEntry(i))
    else EntryProblem(items, i + 1)
  }

  /** `_validate_value`: None if the value may be saved. */
  function ProblemWith(f: Field, v: Value): Option<Problem> {
    if v.Null? then None
    else match f.kind
      case Text(matches) => if !v.Str? then Some(WrongType) else if matches(v.s) then None else Some(NoMatch)
      case Secret => if !v.Str? then Some(WrongType) else if v.s == REDACTED then Some(Redacted) else None
      case Integer(least, most) =>
        if !v.Int? then Some(WrongType)
        else if least.Some? && v.n < least.value then Some(TooSmall)
        else if most.Some? && v.n > most.value then Some(TooLarge)
        else None
      case Number(least, most) =>
        if v.NotANumber? then Some(NotFinite)
        else if !v.Int? && !v.Num? then Some(WrongType)
        else
          var x := if v.Int? then v.n as real else v.r;
          if least.Some? && x < least.value then Some(TooSmall)
          else if most.Some? && x > most.value then Some(TooLarge)
          else None
      case Boolean => if v.Bool? then None else Some(WrongType)
      case Enum(allowed) => if !v.Str? then Some(WrongType) else if v.s in allowed then None else Some(NotAllowed)
      case StringList =>
        if !v.ListOf? then Some(WrongType)
        else
          var bad := EntryProblem(v.items, 0);
          if bad.Some? then bad else if |v.items| > 100 then Some(TooMany) else None
  }

  /** None, or an empty secret. */
  predicate IsUnset(f: Field, v: Value) {
    v.Null? || (f.kind.Secret? && v.Str? && Blank(v.s))
  }

  function Default(f: Field): Value {
    if f.default.Some? then f.default.value else Null
  }

  /** What saving or loading a value makes of it: an unset one is the default. */
  function InEffect(f: Field, v: Value): Value {
    if IsUnset(f, v) then Default(f) else v
  }

  function Defaults(schema: Schema): Values {
    map k | k in schema && schema[k].default.Some? :: schema[k].default.value
  }

  // ----- On disk -----

  /** A value as stored: plain, sealed under a master key, or an envelope that cannot be opened. */
  datatype Stored = Raw(value: Value) | Sealed(plain: string, key: string) | Damaged

  type Document = map<string, Stored>

  /** `_decrypt_loaded`. */
  function Opened(stored: Stored, masterKey: Option<string>): Value {
    match stored
    case Raw(v) => v
    case Sealed(plain, key) => if masterKey == Some(key) then Str(plain) else Null
    case Damaged => Null
  }

  function Sealing(f: Field, v: Value, masterKey: Option<string>): Stored {
    if f.sensitive && v.Str? && v.s != "" && masterKey.Some? then Sealed(v.s, masterKey.value) else Raw(v)
  }

  function OnDisk(schema: Schema, masterKey: Option<string>, values: Values): Document {
    map k | k in values :: if k in schema then Sealing(schema[k], values[k], masterKey) else Raw(values[k])
  }

  /** What a document loads as: the defaults, overridden by the known keys it holds. */
  function Loaded(schema: Schema, masterKey: Option<string>, doc: Document): Values {
    map k | k in schema && (k in doc || schema[k].default.Some?) ::
      if k in doc then InEffect(schema[k], Opened(doc[k], masterKey)) else schema[k].default.value
  }

  /** What a start finds: no file and an empty one are the defaults; part of a write is not a document. */
  function Recovered(schema: Schema, masterKey: Option<string>, target: Option<File<Document>>): Option<Values> {
    match Survives(target)
    case None => Some(Defaults(schema))
    case Some(Empty) => Some(Defaults(schema))
    case Some(Partial) => None
    case Some(Whole(doc)) => Some(Loaded(schema, masterKey, doc))
  }

  // ----- Secrets -----

  /** The document holds no sensitive text but sealed, or empty. */
  ghost predicate Guarded(schema: Schema, doc: Document) {
    forall k, s :: k in doc && k in schema && schema[k].sensitive && doc[k] == Raw(Str(s)) ==> s == ""
  }

  ghost predicate GuardedFile(schema: Schema, f: File<Document>) {
    f.content.Whole? ==> Guarded(schema, f.content.value)
  }

  /** No file on the disk shows a secret: not the target, nor a temporary file, nor one left behind. */
  ghost predicate GuardedImage(schema: Schema, image: Image<Document>) {
    && (image.target.Some? ==> GuardedFile(schema, image.target.value))
    && (image.temp.Some? ==> GuardedFile(schema, image.temp.value))
    && (forall f :: f in image.left ==> GuardedFile(schema, f))
  }

  ghost predicate GuardedFrom(schema: Schema, trace: seq<Image<Document>>, start: nat) {
    forall i :: start <= i < |trace| ==> GuardedImage(schema, trace[i])
  }

  lemma GuardedOn(schema: Schema, before: seq<Image<Document>>, trace: seq<Image<Document>>, start: nat)
    requires before <= trace && start <= |before|
    ensures GuardedFrom(schema, before, start) && GuardedFrom(schema, trace, |before|) ==>
      GuardedFrom(schema, trace, start)
    ensures GuardedFrom(schema, before, |before|)
  {
    hide GuardedImage;
  }

  /** With a master key every secret that is written is sealed. */
  lemma SecretsAreSealed(schema: Schema, masterKey: Option<string>, values: Values)
    requires masterKey.Some?
    ensures Guarded(schema, OnDisk(schema, masterKey, values))
  {
  }

  lemma WritingGuards(schema: Schema, now: Image<Document>, before: Image<Document>, doc: Document)
    requires HoldsOnly(now, before, doc) && Guarded(schema, doc)
    ensures GuardedImage(schema, before) ==> GuardedImage(schema, now)
  {
    hide Guarded;
    var n := |before.left|;
    if now.left != before.left {
      assert now.left == before.left + [now.left[n]];
      InAppend(before.left, now.left[n]);
    }
  }

  lemma CrashGuards(schema: Schema, image: Image<Document>)
    requires GuardedImage(schema, image)
    ensures GuardedImage(schema, AfterCrash(image))
  {
    hide Guarded;
  }

  // ----- Memory -----

  /** Values as load and PATCH leave them: known keys, every default present, nothing unset that has a default. */
  ghost predicate Settled(schema: Schema, values: Values) {
    && (forall k :: k in values ==> k in schema && InEffect(schema[k], values[k]) == values[k])
    && (forall k :: k in schema && schema[k].default.Some? ==> k in values)
  }

  /** What is written loads back as it was. */
  lemma WrittenLoadsBack(schema: Schema, masterKey: Option<string>, values: Values)
    requires Settled(schema, values)
    ensures Loaded(schema, masterKey, OnDisk(schema, masterKey, values)) == values
  {
    var doc := OnDisk(schema, masterKey, values);
    var back := Loaded(schema, masterKey, doc);
    forall k | k in values
      ensures k in back && back[k] == values[k]
    {
      assert Opened(doc[k], masterKey) == values[k];
    }
    assert back.Keys == values.Keys;
  }

  lemma LoadedIsSettled(schema: Schema, masterKey: Option<string>, doc: Document)
    ensures Settled(schema, Loaded(schema, masterKey, doc))
    ensures Settled(schema, Defaults(schema))
  {
  }

  /** What a caller is shown: what is set of a sensitive field is not said. */
  function Shown(schema: Schema, values: Values): Values {
    map k | k in values ::
      if k in schema && schema[k].sensitive && values[k] != Null then Str(REDACTED) else values[k]
  }

  // ----- PATCH -----

  datatype Rejection = UnknownField | Invalid(problem: Problem) | Managed

  datatype Change = Change(key: string, value: Value)

  function Verdict(schema: Schema, managed: set<string>, c: Change): Option<Rejection> {
    if c.key !in schema then Some(UnknownField)
    else
      var problem := ProblemWith(schema[c.key], c.value);
      if problem.Some? then Some(Invalid(problem.value))
      else if c.key in managed then Some(Managed)
      else None
  }

  function Patched(schema: Schema, managed: set<string>, values: Values, patch: seq<Change>): Values {
    if patch == [] then values
    else
      var n := |patch| - 1;
      var before := Patched(schema, managed, values, patch[..n]);
      if Verdict(schema, managed, patch[n]).Some? then before
      else before[patch[n].key := InEffect(schema[patch[n].key], patch[n].value)]
  }

  /** The keys a PATCH names once each. */
  ghost predicate OnceEach(patch: seq<Change>) {
    forall i, j :: 0 <= i < j < |patch| ==> patch[i].key != patch[j].key
  }

  /** A PATCH sets what it may to what it says, an unset value to the default, and touches nothing else. */
  lemma {:induction false} PatchSetsExactly(schema: Schema, managed: set<string>, values: Values, patch: seq<Change>,
                                            key: string)
    requires OnceEach(patch)
    ensures var after := Patched(schema, managed, values, patch);
      if Sets(schema, managed, patch, key)
      then forall i :: 0 <= i < |patch| && patch[i].key == key ==>
        key in after && key in schema && after[key] == InEffect(schema[key], patch[i].value)
      else (key in after <==> key in values) && (key in values ==> after[key] == values[key])
  {
    hide Verdict, InEffect, OnceEach, Sets;
    if patch == [] {
    } else {
      var n := |patch| - 1;
      OnceEachFront(patch, n);
      PatchSetsExactly(schema, managed, values, patch[..n], key);
      VerdictKnowsKey(schema, managed, patch[n]);
      if patch[n].key == key {
        NotNamedEarlier(schema, managed, patch, n, key);
      } else {
        SameOnFront(schema, managed, patch, n, key);
      }
    }
  }

  /** Some change to `key` in the PATCH is one that is made. */
  ghost predicate Sets(schema: Schema, managed: set<string>, patch: seq<Change>, key: string) {
    exists i :: 0 <= i < |patch| && patch[i].key == key && Verdict(schema, managed, patch[i]).None?
  }

  lemma NotNamedEarlier(schema: Schema, managed: set<string>, patch: seq<Change>, n: nat, key: string)
    requires OnceEach(patch) && |patch| == n + 1 && patch[n].key == key
    ensures !Sets(schema, managed, patch[..n], key)
    ensures Sets(schema, managed, patch, key) <==> Verdict(schema, managed, patch[n]).None?
    ensures forall i :: 0 <= i <= n && patch[i].key == key ==> i == n
  {
    hide Verdict;
    var front := patch[..n];
    assert forall i :: 0 <= i < n ==> front[i] == patch[i] && patch[i].key != key;
  }

  lemma SameOnFront(schema: Schema, managed: set<string>, patch: seq<Change>, n: nat, key: string)
    requires |patch| == n + 1 && patch[n].key != key
    ensures Sets(schema, managed, patch[..n], key) <==> Sets(schema, managed, patch, key)
    ensures forall i :: 0 <= i <= n && patch[i].key == key ==> i < n && patch[..n][i] == patch[i]
  {
    hide Verdict;
    var front := patch[..n];
    assert forall i :: 0 <= i < n ==> front[i] == patch[i];
    if Sets(schema, managed, patch, key) {
      var i :| 0 <= i <= n && patch[i].key == key && Verdict(schema, managed, patch[i]).None?;
      assert front[i] == patch[i];
    }
    if Sets(schema, managed, front, key) {
      var i :| 0 <= i < n && front[i].key == key && Verdict(schema, managed, front[i]).None?;
      assert front[i] == patch[i];
    }
  }

  lemma OnceEachFront(patch: seq<Change>, n: nat)
    requires OnceEach(patch) && n <= |patch|
    ensures OnceEach(patch[..n])
  {
    var front := patch[..n];
    assert forall i :: 0 <= i < n ==> front[i] == patch[i];
  }

  lemma VerdictKnowsKey(schema: Schema, managed: set<string>, c: Change)
    ensures Verdict(schema, managed, c).None? ==> c.key in schema
  {
  }

  lemma {:induction false} PatchedIsSettled(schema: Schema, managed: set<string>, values: Values, patch: seq<Change>)
    requires Settled(schema, values)
    ensures Settled(schema, Patched(schema, managed, values, patch))
  {
    if patch == [] {
    } else {
      PatchedIsSettled(schema, managed, values, patch[..|patch| - 1]);
      VerdictKnowsKey(schema, managed, patch[|patch| - 1]);
    }
  }

  datatype Outcome = Outcome(applied: seq<string>, rejected: seq<(string, Rejection)>, pendingRestart: seq<string>)

  function ValueOf(values: Values, key: string): Value {
    if key in values then values[key] else Null
  }

  predicate NeedsRestart(schema: Schema, started: Values, values: Values, key: string) {
    key in schema && schema[key].requiresRestart && ValueOf(values, key) != ValueOf(started, key)
  }

  ghost predicate ListsPending(schema: Schema, started: Values, values: Values, applied: seq<string>,
                               pending: seq<string>) {
    forall k :: k in pending <==> k in applied && NeedsRestart(schema, started, values, k)
  }

  lemma NothingPending(schema: Schema, started: Values, values: Values)
    ensures ListsPending(schema, started, values, [], [])
  {
  }

  lemma PendingIs(schema: Schema, started: Values, values: Values, applied: seq<string>, pending: seq<string>)
    ensures ListsPending(schema, started, values, applied, pending) ==>
      forall k :: k in pending <==> k in applied && NeedsRestart(schema, started, values, k)
  {
  }

  lemma NeedsRestartMeans(schema: Schema, started: Values, values: Values)
    ensures forall k :: NeedsRestart(schema, started, values, k) <==>
      && k in schema && schema[k].requiresRestart
      && (if k in values then values[k] else Null) != (if k in started then started[k] else Null)
  {
  }

  lemma OneMorePending(schema: Schema, started: Values, values: Values, applied: seq<string>, pending: seq<string>,
                       key: string, value: Value)
    requires ListsPending(schema, started, values, applied, pending) && key !in applied
    ensures var after := values[key := value];
      ListsPending(schema, started, after, applied + [key],
        if NeedsRestart(schema, started, after, key) then pending + [key] else pending)
  {
    InAppend(applied, key);
    InAppend(pending, key);
    forall k | k in applied
      ensures NeedsRestart(schema, started, values, k) <==> NeedsRestart(schema, started, values[key := value], k)
    {
    }
  }

  function AppliedKeys(schema: Schema, managed: set<string>, patch: seq<Change>): seq<string> {
    if patch == [] then []
    else
      var n := |patch| - 1;
      AppliedKeys(schema, managed, patch[..n]) + if Verdict(schema, managed, patch[n]).None? then [patch[n].key] else []
  }

  /** A PATCH that names each key once has not yet applied the key it is at. */
  lemma {:induction false} AppliedBefore(schema: Schema, managed: set<string>, patch: seq<Change>, i: nat)
    requires OnceEach(patch) && i < |patch|
    ensures patch[i].key !in AppliedKeys(schema, managed, patch[..i])
  {
    if patch[i].key in AppliedKeys(schema, managed, patch[..i]) {
      AppliedIsNamed(schema, managed, patch[..i], patch[i].key);
    }
  }

  lemma {:induction false} AppliedIsNamed(schema: Schema, managed: set<string>, patch: seq<Change>, key: string)
    requires key in AppliedKeys(schema, managed, patch)
    ensures exists j :: 0 <= j < |patch| && patch[j].key == key
  {
    hide Verdict;
    var n := |patch| - 1;
    if patch[n].key != key {
      AppliedIsNamed(schema, managed, patch[..n], key);
      var j :| 0 <= j < n && patch[..n][j].key == key;
      assert patch[j].key == key;
    }
  }

  function RejectedKeys(schema: Schema, managed: set<string>, patch: seq<Change>): seq<(string, Rejection)> {
    if patch == [] then []
    else
      var n := |patch| - 1;
      var v := Verdict(schema, managed, patch[n]);
      RejectedKeys(schema, managed, patch[..n]) + if v.Some? then [(patch[n].key, v.value)] else []
  }

  lemma {:induction false} NothingAppliedChangesNothing(schema: Schema, managed: set<string>, values: Values,
                                                        patch: seq<Change>)
    requires AppliedKeys(schema, managed, patch) == []
    ensures Patched(schema, managed, values, patch) == values
  {
    hide Verdict;
    if patch == [] {
    } else {
      NothingAppliedChangesNothing(schema, managed, values, patch[..|patch| - 1]);
    }
  }

  /** What a start would find after a PATCH: the new values if they were written. */
  function SavedNext(schema: Schema, managed: set<string>, patch: seq<Change>, fault: Option<Fault>, saved: Values,
                     values: Values): Values {
    if fault.None? && AppliedKeys(schema, managed, patch) != [] then values else saved
  }

  lemma SavedIs(schema: Schema, managed: set<string>, patch: seq<Change>, fault: Option<Fault>, saved: Values,
                values: Values)
    ensures SavedNext(schema, managed, patch, fault, saved, values)
         == if fault.None? && AppliedKeys(schema, managed, patch) != [] then values else saved
  {
    hide AppliedKeys;
  }

  /** The first `n` PATCHes, as memory and a start would see them. */
  ghost predicate Stepped(schema: Schema, managed: set<string>, patches: seq<seq<Change>>, faults: seq<Option<Fault>>,
                          history: seq<Values>, saved: seq<Values>, n: nat) {
    && n <= |patches| == |faults| && n < |history| && n < |saved|
    && forall j :: 0 <= j < n ==>
         && history[j + 1] == Patched(schema, managed, history[j], patches[j])
         && saved[j + 1] == SavedNext(schema, managed, patches[j], faults[j], saved[j], history[j + 1])
  }

  lemma NothingStepped(schema: Schema, managed: set<string>, patches: seq<seq<Change>>, faults: seq<Option<Fault>>,
                       values: Values, saved: Values)
    requires |faults| == |patches|
    ensures Stepped(schema, managed, patches, faults, [values], [saved], 0)
  {
  }

  lemma SteppedOn(schema: Schema, managed: set<string>, patches: seq<seq<Change>>, faults: seq<Option<Fault>>,
                  history: seq<Values>, saved: seq<Values>, values: Values, next: Values)
    requires history != [] && |saved| == |history| <= |patches|
    requires Stepped(schema, managed, patches, faults, history, saved, |history| - 1)
    requires values == Patched(schema, managed, history[|history| - 1], patches[|history| - 1])
    requires next
      == SavedNext(schema, managed, patches[|history| - 1], faults[|history| - 1], saved[|history| - 1], values)
    ensures Stepped(schema, managed, patches, faults, history + [values], saved + [next], |history|)
  {
    hide Patched, SavedNext;
  }

  /** Where no write raises, what a start would find is what memory holds. */
  lemma {:induction false} SavedIsHistory(schema: Schema, managed: set<string>, patches: seq<seq<Change>>,
                                          faults: seq<Option<Fault>>,
                                          history: seq<Values>, saved: seq<Values>, n: nat)
    requires n <= |patches| == |faults| && |history| == |saved| == |patches| + 1 && saved[0] == history[0]
    requires Stepped(schema, managed, patches, faults, history, saved, |patches|)
      && forall j :: 0 <= j < |patches| ==> faults[j].None?
    ensures saved[n] == history[n]
    decreases n
  {
    hide Patched, AppliedKeys;
    if n == 0 {
    } else {
      SavedIsHistory(schema, managed, patches, faults, history, saved, n - 1);
      var j := n - 1;
      if AppliedKeys(schema, managed, patches[j]) == [] {
        NothingAppliedChangesNothing(schema, managed, history[j], patches[j]);
      }
    }
  }

  function Saved(schema: Schema, masterKey: Option<string>, target: Option<File<Document>>): Values
    requires Recovered(schema, masterKey, target).Some?
  {
    Recovered(schema, masterKey, target).value
  }

  /** From state `start` on, the i-th state of the disk belongs to PATCH `during[i]`, and a start
      from it finds what was saved before that PATCH or after it. */
  ghost predicate Traced(schema: Schema, masterKey: Option<string>, trace: seq<Image<Document>>, start: nat,
                         during: seq<nat>, saved: seq<Values>) {
    && |trace| == start + |during|
    && (forall i :: 0 <= i < |during| ==>
          during[i] + 1 < |saved| && var found := Recovered(schema, masterKey, trace[start + i].target);
                                     found == Some(saved[during[i]]) || found == Some(saved[during[i] + 1]))
    && (forall i, j :: 0 <= i <= j < |during| ==> during[i] <= during[j])
  }

  lemma NothingTraced(schema: Schema, masterKey: Option<string>, trace: seq<Image<Document>>, saved: seq<Values>)
    ensures Traced(schema, masterKey, trace, |trace|, [], saved)
  {
  }

  lemma TracedAt(schema: Schema, masterKey: Option<string>, trace: seq<Image<Document>>, start: nat, during: seq<nat>,
                 saved: seq<Values>, at: nat)
    requires Traced(schema, masterKey, trace, start, during, saved)
    ensures |trace| == start + |during|
    ensures at < |during| ==>
      during[at] + 1 < |saved| && var found := Recovered(schema, masterKey, trace[start + at].target);
                                  found == Some(saved[during[at]]) || found == Some(saved[during[at] + 1])
  {
    hide Recovered;
  }

  /** One more PATCH: the states it takes the disk through are its own. */
  lemma TracedOn(schema: Schema, masterKey: Option<string>, before: seq<Image<Document>>, trace: seq<Image<Document>>,
                 start: nat,
                 during: seq<nat>, saved: seq<Values>, next: Values)
    requires Traced(schema, masterKey, before, start, during, saved) && before <= trace && saved != []
    requires forall i :: |before| <= i < |trace| ==>
      var found := Recovered(schema, masterKey, trace[i].target);
        found == Some(saved[|saved| - 1]) || found == Some(next)
    ensures Traced(schema, masterKey, trace, start, during + seq(|trace| - |before|, _ => |saved| - 1), saved + [next])
  {
    hide Recovered;
    var during', saved' := during + seq(|trace| - |before|, _ => |saved| - 1), saved + [next];
    forall i | 0 <= i < |during'|
      ensures during'[i] + 1 < |saved'|
      ensures var found := Recovered(schema, masterKey, trace[start + i].target);
        found == Some(saved'[during'[i]]) || found == Some(saved'[during'[i] + 1])
    {
      if i < |during| {
        assert trace[start + i] == before[start + i] && during'[i] == during[i];
      } else {
        assert during'[i] == |saved| - 1 && start + i >= |before|;
      }
    }
  }

  class ConfigStore {
    const schema: Schema
    const managed: set<string>
    const masterKey: Option<string>
    const disk: Disk<Document>
    var values: Values
    var started: Values

    /** The values a start now would find. */
    ghost function OnFile(): Option<Values>
      reads this, disk
    {
      Recovered(schema, masterKey, disk.target)
    }

    /** The file can be started from; memory may be ahead of it if a write has raised. */
    ghost predicate Sound()
      reads this, disk
    {
      Settled(schema, values) && disk.temp == None && OnFile().Some?
    }

    /** Memory and disk agree: a start now would find what is in memory. */
    ghost predicate Valid()
      reads this, disk
    {
      Sound() && OnFile() == Some(values)
    }

    constructor (schema: Schema, managed: set<string>, masterKey: Option<string>, disk: Disk<Document>)
      ensures this.schema == schema && this.managed == managed && this.masterKey == masterKey && this.disk == disk
      ensures values == Defaults(schema) && started == values
    {
      this.schema, this.managed, this.masterKey, this.disk := schema, managed, masterKey, disk;
      values := Defaults(schema);
      started := Defaults(schema);
    }

    /** `_write_locked`. */
    method WriteLocked(fault: Option<Fault>) returns (ok: bool)
      requires Settled(schema, values) && disk.temp == None
      modifies disk
      ensures ok == fault.None? && disk.temp == None
      ensures ok ==> OnFile() == Some(values)
      ensures !ok ==> disk.target == old(disk.target)
      ensures old(disk.trace) <= disk.trace
      ensures forall i :: |old(disk.trace)| <= i < |disk.trace| ==>
        disk.trace[i].target == old(disk.target)
          || (ok && Recovered(schema, masterKey, disk.trace[i].target) == Some(values))
      ensures masterKey.Some? && ok ==>
        disk.target.Some? && GuardedFile(schema, disk.target.value)
      ensures masterKey.Some? && GuardedImage(schema, old(disk.Now())) ==>
        GuardedImage(schema, disk.Now()) && GuardedFrom(schema, disk.trace, old(|disk.trace|))
    {
      hide GuardedImage, Guarded, HoldsOnly;
      WrittenLoadsBack(schema, masterKey, values);
      ghost var before, doc := disk.Now(), OnDisk(schema, masterKey, values);
      ok := disk.WritePrivate(OnDisk(schema, masterKey, values), fault);
      if masterKey.Some? {
        SecretsAreSealed(schema, masterKey, values);
        forall now | HoldsOnly(now, before, doc)
          ensures GuardedImage(schema, before) ==> GuardedImage(schema, now)
        {
          WritingGuards(schema, now, before, doc);
        }
      }
    }

    /** `load`: what the file says, or the defaults, which are then written. A crash during it
        changes nothing the next start finds. */
    method Load(fault: Option<Fault>) returns (ok: bool)
      requires disk.temp == None && (disk.target.Some? ==> disk.target.value.synced)
      modifies this, disk
      ensures ok ==> Valid() && started == values && Some(values) == old(OnFile())
      ensures disk.target != old(disk.target) ==> old(disk.target).None?
      ensures !ok ==> old(OnFile()).None? || fault.Some?
      ensures old(disk.trace) <= disk.trace
      ensures forall i :: |old(disk.trace)| <= i < |disk.trace| ==>
        Recovered(schema, masterKey, disk.trace[i].target) == old(OnFile())
      ensures masterKey.Some? && GuardedImage(schema, old(disk.Now())) ==>
        GuardedImage(schema, disk.Now()) && GuardedFrom(schema, disk.trace, old(|disk.trace|))
    {
      hide GuardedImage;
      LoadedIsSettled(schema, masterKey, map[]);
      if disk.target.None? {
        values := Defaults(schema);
        ok := WriteLocked(fault);
        if !ok {
          return false;
        }
      } else {
        match disk.target.value.content {
          case Empty =>
            values := Defaults(schema);
            ok := true;
          case Partial =>
            return false;
          case Whole(doc) =>
            LoadedIsSettled(schema, masterKey, doc);
            values := Loaded(schema, masterKey, doc);
            ok := true;
        }
      }
      started := values;
    }

    /** The next start on what a crash has left of `image`. */
    static method StartFrom(schema: Schema, managed: set<string>, masterKey: Option<string>, image: Image<Document>)
      returns (store: ConfigStore, ok: bool)
      ensures fresh(store) && fresh(store.disk) && store.schema == schema && store.managed == managed
        && store.masterKey == masterKey
      ensures ok <==> Recovered(schema, masterKey, image.target).Some?
      ensures ok ==> store.Valid() && Some(store.values) == Recovered(schema, masterKey, image.target)
      ensures masterKey.Some? && GuardedImage(schema, image) ==> GuardedImage(schema, store.disk.Now())
    {
      hide GuardedImage;
      if GuardedImage(schema, image) {
        CrashGuards(schema, image);
      }
      var disk := new Disk(AfterCrash(image));
      store := new ConfigStore(schema, managed, masterKey, disk);
      ok := store.Load(None);
    }

    /** `apply_patch`. A crash anywhere in it leaves, for the next start, the values the file held
        before or the new ones; a normal return that applied anything leaves the file with what is
        in memory. If the write raises, the file keeps what it held and memory is ahead of it. */
    method ApplyPatch(patch: seq<Change>, fault: Option<Fault>) returns (ok: bool, outcome: Outcome)
      requires Sound()
      modifies this`values, disk
      ensures values == Patched(schema, managed, old(values), patch)
      ensures outcome.applied == AppliedKeys(schema, managed, patch)
        && outcome.rejected == RejectedKeys(schema, managed, patch)
      ensures OnceEach(patch) ==>
        forall k :: k in outcome.pendingRestart <==>
          && k in outcome.applied && k in schema && schema[k].requiresRestart
          && (if k in values then values[k] else Null) != (if k in started then started[k] else Null)
      ensures ok <==> fault.None? || outcome.applied == []
      ensures Sound() && OnFile() == if ok && outcome.applied != [] then Some(values) else old(OnFile())
      ensures ok && old(Valid()) ==> Valid()
      ensures !ok ==> disk.target == old(disk.target)
      ensures old(disk.trace) <= disk.trace
      ensures forall i :: |old(disk.trace)| <= i < |disk.trace| ==>
        var found := Recovered(schema, masterKey, disk.trace[i].target);
          found == old(OnFile()) || (ok && outcome.applied != [] && found == Some(values))
      ensures masterKey.Some? && ok && outcome.applied != [] ==>
        disk.target.Some? && GuardedFile(schema, disk.target.value)
      ensures masterKey.Some? && GuardedImage(schema, old(disk.Now())) ==>
        GuardedImage(schema, disk.Now()) && GuardedFrom(schema, disk.trace, old(|disk.trace|))
    {
      hide Verdict, InEffect, Recovered, Settled, OnceEach, ListsPending, NeedsRestart, GuardedImage;
      NothingPending(schema, started, values);
      var applied: seq<string>, rejected: seq<(string, Rejection)>, pending: seq<string> := [], [], [];
      for i := 0 to |patch|
        modifies this`values
        invariant values == Patched(schema, managed, old(values), patch[..i])
        invariant applied == AppliedKeys(schema, managed, patch[..i])
          && rejected == RejectedKeys(schema, managed, patch[..i])
        invariant OnceEach(patch) ==> ListsPending(schema, started, values, applied, pending)
      {
        assert patch[..i + 1][..i] == patch[..i];
        var verdict := Verdict(schema, managed, patch[i]);
        VerdictKnowsKey(schema, managed, patch[i]);
        var key := patch[i].key;
        if verdict.Some? {
          rejected := rejected + [(key, verdict.value)];
        } else {
          if OnceEach(patch) {
            AppliedBefore(schema, managed, patch, i);
            OneMorePending(schema, started, values, applied, pending, key, InEffect(schema[key], patch[i].value));
          }
          values := values[key := InEffect(schema[key], patch[i].value)];
          applied := applied + [key];
          if NeedsRestart(schema, started, values, key) {
            pending := pending + [key];
          }
        }
      }
      assert patch[..|patch|] == patch;
      PendingIs(schema, started, values, applied, pending);
      NeedsRestartMeans(schema, started, values);
      PatchedIsSettled(schema, managed, old(values), patch);
      outcome := Outcome(applied, rejected, pending);
      if applied != [] {
        ok := WriteLocked(fault);
      } else {
        NothingAppliedChangesNothing(schema, managed, old(values), patch);
        ok := true;
      }
    }

    /** `as_document`. */
    method AsDocument() returns (shown: Values)
      ensures shown == Shown(schema, values)
      ensures forall k :: k in shown && k in schema && schema[k].sensitive ==> shown[k] in {Null, Str("<redacted>")}
    {
      var keys := values.Keys;
      shown := map[];
      while keys != {}
        invariant keys <= values.Keys && shown.Keys == values.Keys - keys
        invariant forall k :: k in shown ==> shown[k] == Shown(schema, values)[k]
        decreases |keys|
      {
        var k :| k in keys;
        if k in schema && schema[k].sensitive && values[k] != Null {
          shown := shown[k := Str(REDACTED)];
        } else {
          shown := shown[k := values[k]];
        }
        keys := keys - {k};
      }
      assert shown.Keys == values.Keys;
    }

    /** Any sequence of PATCHes, any of whose writes may raise. `history` is what memory held,
        `saved` what a start would have found: the values of the last PATCH that wrote. `during[i]`
        is the PATCH in progress at the i-th state the disk passes through; a start from what a
        crash leaves of that state finds what was saved before that PATCH or after it. */
    method ApplyAll(patches: seq<seq<Change>>, faults: seq<Option<Fault>>)
      returns (history: seq<Values>, saved: seq<Values>, during: seq<nat>)
      requires Sound() && |faults| == |patches|
      modifies this`values, disk
      ensures |history| == |patches| + 1 && history[0] == old(values) && values == history[|patches|]
      ensures |saved| == |patches| + 1 && Some(saved[0]) == old(OnFile()) && Sound()
        && OnFile() == Some(saved[|patches|])
      ensures Stepped(schema, managed, patches, faults, history, saved, |patches|)
      ensures Traced(schema, masterKey, disk.trace, old(|disk.trace|), during, saved)
      ensures old(disk.trace) <= disk.trace
      ensures masterKey.Some? && GuardedImage(schema, old(disk.Now())) ==>
        GuardedImage(schema, disk.Now()) && GuardedFrom(schema, disk.trace, old(|disk.trace|))
    {
      hide Recovered, Patched, Settled, AppliedKeys, Traced, Stepped, SavedNext, GuardedImage, GuardedFrom;
      NothingStepped(schema, managed, patches, faults, values, Saved(schema, masterKey, disk.target));
      history, saved, during := [values], [Saved(schema, masterKey, disk.target)], [];
      NothingTraced(schema, masterKey, disk.trace, saved);
      GuardedOn(schema, disk.trace, disk.trace, |disk.trace|);
      for p := 0 to |patches|
        invariant Sound() && |history| == p + 1 && history[0] == old(values) && values == history[p]
        invariant |saved| == p + 1 && Some(saved[0]) == old(OnFile()) && OnFile() == Some(saved[p])
        invariant Stepped(schema, managed, patches, faults, history, saved, p)
        invariant old(disk.trace) <= disk.trace
          && Traced(schema, masterKey, disk.trace, old(|disk.trace|), during, saved)
        invariant masterKey.Some? && GuardedImage(schema, old(disk.Now())) ==>
          GuardedImage(schema, disk.Now()) && GuardedFrom(schema, disk.trace, old(|disk.trace|))
      {
        var past := |disk.trace|;
        ghost var before := disk.trace;
        var ok, outcome := ApplyPatch(patches[p], faults[p]);
        var next := if ok && outcome.applied != [] then values else saved[p];
        GuardedOn(schema, before, disk.trace, old(|disk.trace|));
        SavedIs(schema, managed, patches[p], faults[p], saved[p], values);
        SteppedOn(schema, managed, patches, faults, history, saved, values, next);
        TracedOn(schema, masterKey, before, disk.trace, old(|disk.trace|), during, saved, next);
        history, saved := history + [values], saved + [next];
        during := during + seq(|disk.trace| - past, _ => p);
      }
    }

    /** PATCHes, a crash at any state they take the disk through, and a start: it finds what was
        saved before the PATCH the crash interrupted, or after it. */
    method CrashAndStart(patches: seq<seq<Change>>, faults: seq<Option<Fault>>, at: nat)
      returns (next: ConfigStore?, history: seq<Values>, saved: seq<Values>, during: seq<nat>)
      requires Sound() && |faults| == |patches|
      modifies this`values, disk
      ensures |history| == |patches| + 1 && history[0] == old(values)
      ensures |saved| == |patches| + 1 && Some(saved[0]) == old(OnFile())
      ensures Stepped(schema, managed, patches, faults, history, saved, |patches|)
      ensures next != null <==> at < |during|
      ensures next != null ==>
        && fresh(next) && next.Valid() && during[at] < |patches|
        && (next.values == saved[during[at]] || next.values == saved[during[at] + 1])
      ensures next != null && masterKey.Some? && GuardedImage(schema, old(disk.Now())) ==>
        GuardedImage(schema, next.disk.Now())
    {
      hide Recovered, Patched, Settled, SavedNext, Traced, Stepped, GuardedImage;
      var start := |disk.trace|;
      history, saved, during := ApplyAll(patches, faults);
      TracedAt(schema, masterKey, disk.trace, start, during, saved, at);
      next := null;
      if at < |during| {
        var ok;
        next, ok := StartFrom(schema, managed, masterKey, disk.trace[start + at]);
      }
    }
  }
}
