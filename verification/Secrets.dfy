/** The secret registry and redaction: sequential, longest-first replacement of revealed
    values by markers, and when nothing revealed survives it. */
module Secrets {
  import opened Wrappers
  import opened Orders
  import opened Seqs
  import opened Strings

  const MIN_REDACT_LEN: nat := 8

  datatype SecretError = ResolveFailed | UnknownSecret(name: string)

  /** Resolved secrets by name (a cached read error included) and revealed values by name. */
  datatype Store = Store(cache: map<string, Result<string, SecretError>>, revealed: map<string, string>) {
    /** Everything revealed is long enough to redact, and is what the cache holds. */
    ghost predicate Valid() {
      forall name :: name in revealed ==>
        |revealed[name]| >= MIN_REDACT_LEN && name in cache && cache[name] == Ok(revealed[name])
    }
  }

  function Reveal(s: Store, name: string, value: string): Store {
    if |value| >= MIN_REDACT_LEN then s.(revealed := s.revealed[name := value]) else s
  }

  /** `fetched` is what the fetcher would answer now; it is asked only on a cache miss, and
      only a successful answer is cached. */
  function ResolveStep(s: Store, name: string, fetched: Result<string, SecretError>)
    : (Store, Result<string, SecretError>)
  {
    if name in s.cache then
      match s.cache[name]
      case Ok(value) => (Reveal(s, name, value), Ok(value))
      case Err(e) => (s, Err(e))
    else
      match fetched
      case Ok(value) => (Reveal(s.(cache := s.cache[name := Ok(value)]), name, value), Ok(value))
      case Err(e) => (s, Err(e))
  }

  datatype Lookup = Lookup(name: string, fetched: Result<string, SecretError>)

  function ResolveAll(s: Store, lookups: seq<Lookup>): Store
    decreases |lookups|
  {
    if lookups == [] then s else ResolveAll(ResolveStep(s, lookups[0].name, lookups[0].fetched).0, lookups[1..])
  }

  /** Calls of the fetcher for `name`, whatever it answers. */
  function Asked(s: Store, lookups: seq<Lookup>, name: string): nat
    decreases |lookups|
  {
    if lookups == [] then 0
    else
      (if lookups[0].name == name && name !in s.cache then 1 else 0) +
      Asked(ResolveStep(s, lookups[0].name, lookups[0].fetched).0, lookups[1..], name)
  }

  ghost predicate IsFirst(lookups: seq<Lookup>, name: string, i: int) {
    0 <= i < |lookups| && lookups[i].name == name && forall k :: 0 <= k < i ==> lookups[k].name != name
  }

  /** The first lookup of `name`, if another one follows, is answered with a value. */
  ghost predicate FirstAnswered(lookups: seq<Lookup>, name: string) {
    forall i, j :: IsFirst(lookups, name, i) && i < j < |lookups| && lookups[j].name == name ==> lookups[i].fetched.Ok?
  }

  lemma {:induction false} NeverAskedOnceCached(s: Store, lookups: seq<Lookup>, name: string)
    requires name in s.cache
    ensures Asked(s, lookups, name) == 0
    decreases |lookups|
  {
    if lookups != [] {
      NeverAskedOnceCached(ResolveStep(s, lookups[0].name, lookups[0].fetched).0, lookups[1..], name);
    }
  }

  /** A name that is not cached is asked for if it is looked up at all. */
  lemma {:induction false} AskedWhenLookedUp(s: Store, lookups: seq<Lookup>, name: string)
    requires name !in s.cache
    ensures Asked(s, lookups, name) == 0 <==> forall i :: 0 <= i < |lookups| ==> lookups[i].name != name
    decreases |lookups|
  {
    if lookups != [] && lookups[0].name != name {
      var rest := lookups[1..];
      AskedWhenLookedUp(ResolveStep(s, lookups[0].name, lookups[0].fetched).0, rest, name);
      assert forall i :: 0 <= i < |rest| ==> rest[i] == lookups[i + 1];
      assert forall i :: 0 < i < |lookups| ==> lookups[i] == rest[i - 1];
    }
  }

  /** The documented "called at most once per name" holds exactly when the name was cached to begin
      with, or its first lookup, if another one follows, was answered with a value. */
  lemma {:induction false} AskedOnceIff(s: Store, lookups: seq<Lookup>, name: string)
    ensures Asked(s, lookups, name) <= 1 <==> name in s.cache || FirstAnswered(lookups, name)
    decreases |lookups|
  {
    if name in s.cache {
      NeverAskedOnceCached(s, lookups, name);
    } else if lookups != [] {
      var rest, s1 := lookups[1..], ResolveStep(s, lookups[0].name, lookups[0].fetched).0;
      assert forall i :: 0 <= i < |rest| ==> rest[i] == lookups[i + 1];
      if lookups[0].name != name {
        AskedOnceIff(s1, rest, name);
        FirstAnsweredRest(lookups, name);
      } else if lookups[0].fetched.Ok? {
        NeverAskedOnceCached(s1, rest, name);
      } else {
        AskedWhenLookedUp(s1, rest, name);
        FirstWasRefused(lookups, name);
      }
    }
  }

  lemma FirstAnsweredRest(lookups: seq<Lookup>, name: string)
    requires lookups != [] && lookups[0].name != name
    ensures FirstAnswered(lookups, name) <==> FirstAnswered(lookups[1..], name)
  {
    var rest := lookups[1..];
    assert forall i :: 0 < i < |lookups| ==> lookups[i] == rest[i - 1];
    if FirstAnswered(lookups, name) {
      forall i, j | IsFirst(rest, name, i) && i < j < |rest| && rest[j].name == name ensures rest[i].fetched.Ok? {
        assert lookups[i + 1] == rest[i] && lookups[j + 1] == rest[j];
        assert IsFirst(lookups, name, i + 1);
      }
    }
    if FirstAnswered(rest, name) {
      forall i, j | IsFirst(lookups, name, i) && i < j < |lookups| && lookups[j].name == name
        ensures lookups[i].fetched.Ok?
      {
        assert rest[i - 1] == lookups[i] && rest[j - 1] == lookups[j];
        assert forall k :: 0 <= k < i - 1 ==> rest[k] == lookups[k + 1];
        assert IsFirst(rest, name, i - 1);
      }
    }
  }

  lemma FirstWasRefused(lookups: seq<Lookup>, name: string)
    requires lookups != [] && lookups[0].name == name && lookups[0].fetched.Err?
    ensures FirstAnswered(lookups, name) <==> forall i :: 0 <= i < |lookups[1..]| ==> lookups[1..][i].name != name
  {
    var rest := lookups[1..];
    assert IsFirst(lookups, name, 0);
    if i :| 0 <= i < |rest| && rest[i].name == name {
      assert lookups[i + 1] == rest[i];
    }
    assert forall j :: 0 < j < |lookups| ==> lookups[j] == rest[j - 1];
  }

  /** A name refused once and then answered is asked for twice. */
  lemma FailedFetchIsRepeated(name: string, value: string)
    ensures Asked(Store(map[], map[]), [Lookup(name, Err(UnknownSecret(name))), Lookup(name, Ok(value))], name) == 2
  {
    var s, lookups := Store(map[], map[]), [Lookup(name, Err(UnknownSecret(name))), Lookup(name, Ok(value))];
    assert lookups[1..] == [lookups[1]];
    var s1 := ResolveStep(s, name, Ok(value)).0;
    assert Asked(s1, [], name) == 0;
    assert [lookups[1]][1..] == [];
    assert Asked(s, [lookups[1]], name) == 1;
  }

  /** Over any sequence of lookups the registry stays valid, and an answer once cached never changes. */
  lemma {:induction false} ResolvesAreConsistent(s: Store, lookups: seq<Lookup>, name: string)
    requires s.Valid()
    ensures ResolveAll(s, lookups).Valid()
    ensures name in s.cache ==>
              name in ResolveAll(s, lookups).cache && ResolveAll(s, lookups).cache[name] == s.cache[name]
    decreases |lookups|
  {
    if lookups != [] {
      ResolvesAreConsistent(ResolveStep(s, lookups[0].name, lookups[0].fetched).0, lookups[1..], name);
    }
  }

  /** What the `i`-th of these lookups is answered. */
  function AnswerAt(s: Store, lookups: seq<Lookup>, i: nat): Result<string, SecretError>
    requires i < |lookups|
  {
    ResolveStep(ResolveAll(s, lookups[..i]), lookups[i].name, lookups[i].fetched).1
  }

  ghost predicate IsFirstGood(lookups: seq<Lookup>, name: string, j: int) {
    && 0 <= j < |lookups| && lookups[j].name == name && lookups[j].fetched.Ok?
    && forall k :: 0 <= k < j ==> !(lookups[k].name == name && lookups[k].fetched.Ok?)
  }

  /** The cache ends up with the first value the fetcher gave for a name it did not hold. */
  lemma {:induction false} CacheMeans(s: Store, lookups: seq<Lookup>, name: string)
    ensures var cache := ResolveAll(s, lookups).cache;
            && (name in s.cache ==> name in cache && cache[name] == s.cache[name])
            && (name !in s.cache && name in cache ==> exists j :: IsFirstGood(lookups, name, j))
            && forall j :: name !in s.cache && IsFirstGood(lookups, name, j) ==>
                 name in cache && cache[name] == lookups[j].fetched
    decreases |lookups|
  {
    if lookups != [] {
      var rest, s1 := lookups[1..], ResolveStep(s, lookups[0].name, lookups[0].fetched).0;
      CacheMeans(s1, rest, name);
      assert forall k :: 0 < k < |lookups| ==> lookups[k] == rest[k - 1];
      forall j | IsFirstGood(lookups, name, j) && j > 0 ensures IsFirstGood(rest, name, j - 1) {
        assert forall k :: 0 <= k < j - 1 ==> rest[k] == lookups[k + 1];
      }
      if name !in s1.cache && name in ResolveAll(s, lookups).cache {
        var j :| IsFirstGood(rest, name, j);
        assert IsFirstGood(lookups, name, j + 1);
      } else if name !in s.cache && name in s1.cache {
        assert IsFirstGood(lookups, name, 0);
      }
    }
  }

  /** What a lookup is answered, said of the fetcher alone: what the cache was seeded with, else the first
      value the fetcher gave for the name up to now, else the error it gives now. */
  lemma AnswerMeans(s: Store, lookups: seq<Lookup>, i: nat)
    requires i < |lookups|
    ensures var name, answer := lookups[i].name, AnswerAt(s, lookups, i);
            if name in s.cache then answer == s.cache[name]
            else
              && (forall j :: IsFirstGood(lookups, name, j) && j <= i ==> answer == lookups[j].fetched)
              && ((forall j :: 0 <= j <= i && lookups[j].name == name ==> lookups[j].fetched.Err?) ==>
                    answer == lookups[i].fetched)
  {
    var name, init := lookups[i].name, lookups[..i];
    CacheMeans(s, init, name);
    forall j | IsFirstGood(lookups, name, j) && j < i ensures IsFirstGood(init, name, j) {}
    if j :| IsFirstGood(init, name, j) { assert lookups[j] == init[j] && IsFirstGood(lookups, name, j); }
  }

  lemma {:induction false} ResolveAllAppend(s: Store, a: seq<Lookup>, b: seq<Lookup>)
    ensures ResolveAll(s, a + b) == ResolveAll(ResolveAll(s, a), b)
    decreases |a|
  {
    if a == [] {
      assert a + b == b;
    } else {
      ResolveAllAppend(ResolveStep(s, a[0].name, a[0].fetched).0, a[1..], b);
      assert (a + b)[1..] == a[1..] + b;
    }
  }

  lemma {:induction false} RevealedStays(s: Store, lookups: seq<Lookup>, name: string)
    requires s.Valid() && name in s.revealed
    ensures name in ResolveAll(s, lookups).revealed && ResolveAll(s, lookups).revealed[name] == s.revealed[name]
    decreases |lookups|
  {
    if lookups != [] { RevealedStays(ResolveStep(s, lookups[0].name, lookups[0].fetched).0, lookups[1..], name); }
  }

  /** Every value of eight bytes or more that was ever given out is redactable, as it was given out. */
  lemma GivenOutIsRevealed(s: Store, lookups: seq<Lookup>, i: nat)
    requires s.Valid() && i < |lookups|
    ensures var name, answer := lookups[i].name, AnswerAt(s, lookups, i);
            answer.Ok? && |answer.value| >= 8 ==>
              name in ResolveAll(s, lookups).revealed && ResolveAll(s, lookups).revealed[name] == answer.value
  {
    ResolvesAreConsistent(s, lookups[..i], lookups[i].name);
    var before := ResolveAll(s, lookups[..i]);
    var at := ResolveStep(before, lookups[i].name, lookups[i].fetched).0;
    assert lookups == lookups[..i] + lookups[i..] && lookups[i..][1..] == lookups[i + 1..];
    ResolveAllAppend(s, lookups[..i], lookups[i..]);
    assert at.Valid();
    var answer := AnswerAt(s, lookups, i);
    if answer.Ok? && |answer.value| >= 8 { RevealedStays(at, lookups[i + 1..], lookups[i].name); }
  }

  // --------------------------------------------------------------- entries

  type Entry = (string, string)

  /** Longest value first, then by name. */
  predicate EntryBefore(a: Entry, b: Entry) {
    |a.1| > |b.1| || (|a.1| == |b.1| && StringLess(a.0, b.0))
  }

  ghost predicate IsEntries(revealed: map<string, string>, es: seq<Entry>) {
    && Sorted(es, EntryBefore)
    && forall e :: e in es <==> e.0 in revealed && revealed[e.0] == e.1
  }

  lemma EntryOrder()
    ensures StrictOrder(EntryBefore)
    ensures forall a: Entry, b: Entry :: a.0 != b.0 ==> EntryBefore(a, b) || EntryBefore(b, a)
  {
    StringLessStrict();
  }

  /** The map's iteration order does not matter: there is one sorted list. */
  lemma EntriesAreUnique(revealed: map<string, string>, es: seq<Entry>, es': seq<Entry>)
    requires IsEntries(revealed, es) && IsEntries(revealed, es')
    ensures es == es'
  {
    EntryOrder();
    SortedUnique(es, es', EntryBefore);
  }

  function Marker(name: string): string { "{{ " + name + " }}" }

  ghost predicate Replaceable(es: seq<Entry>) { forall e :: e in es ==> e.1 != [] }

  /** The replacements, one entry after the other. */
  function Redacted(es: seq<Entry>, text: string): string
    requires forall i :: 0 <= i < |es| ==> es[i].1 != []
    decreases |es|
  {
    if es == [] then text else Redacted(es[1..], Replace(text, es[0].1, Marker(es[0].0)))
  }

  lemma EntriesReplaceable(s: Store, es: seq<Entry>)
    requires s.Valid() && IsEntries(s.revealed, es)
    ensures Replaceable(es)
  {
  }

  lemma NoEntries(revealed: map<string, string>, es: seq<Entry>)
    requires IsEntries(revealed, es) && |revealed| == 0
    ensures es == []
  {
    assert es != [] ==> es[0] in es && es[0].0 in revealed;
  }

  class Registry {
    var store: Store

    constructor (cache: map<string, Result<string, SecretError>>)
      ensures store == Store(cache, map[]) && store.Valid()
    {
      store := Store(cache, map[]);
    }

    method Resolve(name: string, fetched: Result<string, SecretError>) returns (r: Result<string, SecretError>)
      requires store.Valid()
      modifies this
      ensures (store, r) == ResolveStep(old(store), name, fetched)
      ensures store.Valid()
      ensures r == if name in old(store).cache then old(store).cache[name] else fetched
      ensures store.cache == if name !in old(store).cache && fetched.Ok? then old(store).cache[name := fetched]
                             else old(store).cache
      ensures store.revealed == if r.Ok? && |r.value| >= 8 then old(store).revealed[name := r.value]
                                else old(store).revealed
    {
      var value: string;
      if name in store.cache {
        match store.cache[name]
        case Err(e) => return Err(e);
        case Ok(v) => value := v;
      } else {
        match fetched
        case Err(e) => return Err(e);
        case Ok(v) =>
          store := store.(cache := store.cache[name := Ok(v)]);
          value := v;
      }
      if |value| >= MIN_REDACT_LEN {
        store := store.(revealed := store.revealed[name := value]);
      }
      return Ok(value);
    }

    method Entries() returns (es: seq<Entry>)
      ensures IsEntries(store.revealed, es)
    {
      es := Pairs(store.revealed);
      ghost var listed := es;
      EntryOrder();
      es := SortBy(es, EntryBefore);
      forall e ensures e in es <==> e in listed { assert e in multiset(es) <==> e in multiset(listed); }
    }

    /** Replace every revealed value in `text` by its marker. */
    method Redact(text: string) returns (result: string)
      requires store.Valid()
      ensures forall es :: IsEntries(store.revealed, es) ==> Replaceable(es) && result == Redacted(es, text)
      ensures SafeToRedact(store.revealed) ==>
                forall name :: name in store.revealed ==> !Contains(result, store.revealed[name])
      ensures (forall name :: name in store.revealed ==> !Contains(text, store.revealed[name])) ==> result == text
    {
      hide IsEntries, SafeToRedact, Contains, Store.Valid;
      var entries := Entries();
      EntriesReplaceable(store, entries);
      forall es | IsEntries(store.revealed, es) ensures es == entries { EntriesAreUnique(store.revealed, es, entries); }
      if SafeToRedact(store.revealed) { StoreRedaction(store, entries, text); }
      if forall name :: name in store.revealed ==> !Contains(text, store.revealed[name]) {
        NothingToRedact(store, entries, text);
      }
      if |store.revealed| == 0 {
        NoEntries(store.revealed, entries);
        return text;
      }
      result := text;
      for i := 0 to |entries|
        invariant forall k :: 0 <= k < |entries| ==> entries[k] in entries && entries[k].1 != []
        invariant Redacted(entries[i..], result) == Redacted(entries, text)
      {
        assert entries[i..][1..] == entries[i + 1..];
        result := StrReplace(result, entries[i].1, Marker(entries[i].0));
      }
    }
  }

  /** The pairs of a map in some order, each once. */
  method Pairs(m: map<string, string>) returns (es: seq<Entry>)
    ensures forall e :: e in es <==> e.0 in m && m[e.0] == e.1
    ensures forall i, j :: 0 <= i < j < |es| ==> es[i].0 != es[j].0
  {
    es := [];
    var todo := m.Keys;
    while todo != {}
      invariant todo <= m.Keys
      invariant forall e :: e in es <==> e.0 in m && m[e.0] == e.1 && e.0 !in todo
      invariant forall i, j :: 0 <= i < j < |es| ==> es[i].0 != es[j].0
      decreases todo
    {
      var k :| k in todo;
      forall i | 0 <= i < |es| ensures es[i].0 != k { assert es[i] in es; }
      es := es + [(k, m[k])];
      todo := todo - {k};
    }
  }

  // ------------------------------------------------------ replacement theory

  predicate OpenedBy(s: string, n: nat) {
    2 <= n < |s| && s[n] == ' ' && forall k :: 0 <= k < n ==> s[k] == '{'
  }

  predicate ClosedBy(s: string, n: nat) {
    2 <= n < |s| && s[|s| - n - 1] == ' ' && forall k :: |s| - n <= k < |s| ==> s[k] == '}'
  }

  /** Starts like a marker: with two or more opening braces and then a space. */
  ghost predicate Opened(s: string) { exists n: nat :: OpenedBy(s, n) }

  /** Ends like a marker: with a space and then two or more closing braces. */
  ghost predicate Closed(s: string) { exists n: nat :: ClosedBy(s, n) }

  ghost predicate IsBlock(s: string) { Opened(s) && Closed(s) }

  /** At `i`, past its start, a marker may begin. */
  predicate OpensAt(v: string, i: int) {
    0 < i < |v| && v[i] == '{' && (i + 1 == |v| || (v[i + 1] == '{' && (i + 2 == |v| || v[i + 2] == ' ')))
  }

  /** At `i`, short of its end, a marker may end. */
  predicate ClosesAt(v: string, i: int) {
    0 <= i < |v| - 1 && v[i] == '}' && (i == 0 || (v[i - 1] == '}' && (i == 1 || v[i - 2] == ' ')))
  }

  /** Cannot reach across the edge of a marker. */
  predicate Edgeless(v: string) { forall i :: 0 <= i < |v| ==> !OpensAt(v, i) && !ClosesAt(v, i) }

  lemma AtOpening(a: string, s: string, v: string, j: nat) returns (i: nat)
    requires j < |a| < j + |v| && OccursAt(a + s, v, j) && Opened(s)
    ensures OpensAt(v, i)
  {
    var n: nat :| OpenedBy(s, n);
    var start := |a| - j;
    forall k | start <= k < |v| && k - start < n ensures v[k] == '{' { OccursChar(a + s, v, j, k); }
    if |v| - start <= n { return |v| - 1; }
    OccursChar(a + s, v, j, start + n);
    return start + n - 2;
  }

  lemma AtClosing(s: string, b: string, v: string, j: nat) returns (i: nat)
    requires j < |s| < j + |v| && OccursAt(s + b, v, j) && Closed(s)
    ensures ClosesAt(v, i)
  {
    var n: nat :| ClosedBy(s, n);
    var end := |s| - j;
    forall k | 0 <= k < end && end - k <= n ensures v[k] == '}' { OccursChar(s + b, v, j, k); }
    if end <= n { return 0; }
    OccursChar(s + b, v, j, end - n - 1);
    return end - n + 1;
  }

  lemma NoEdgeBefore(a: string, s: string, v: string)
    requires Edgeless(v) && Opened(s)
    ensures !Straddles(a, s, v)
  {
    if j: nat :| j < |a| < j + |v| && OccursAt(a + s, v, j) { var i := AtOpening(a, s, v, j); }
  }

  lemma NoEdgeAfter(s: string, b: string, v: string)
    requires Edgeless(v) && Closed(s)
    ensures !Straddles(s, b, v)
  {
    if j: nat :| j < |s| < j + |v| && OccursAt(s + b, v, j) { var i := AtClosing(s, b, v, j); }
  }

  /** That is exactly what it takes, whatever the marker and the text around it. */
  lemma EdgelessIff(v: string)
    ensures Edgeless(v) <==>
              && (forall a: string, name: string :: !Straddles(a, Marker(name), v))
              && (forall name: string, b: string :: !Straddles(Marker(name), b, v))
  {
    if Edgeless(v) {
      forall a: string, name: string ensures !Straddles(a, Marker(name), v) {
        MarkerIsBlock(name);
        NoEdgeBefore(a, Marker(name), v);
      }
      forall name: string, b: string ensures !Straddles(Marker(name), b, v) {
        MarkerIsBlock(name);
        NoEdgeAfter(Marker(name), b, v);
      }
    }
    if i :| 0 <= i < |v| && OpensAt(v, i) { OpensInside(v, i); }
    if i :| 0 <= i < |v| && ClosesAt(v, i) { ClosesInside(v, i); }
  }

  lemma OpensInside(v: string, i: nat)
    requires OpensAt(v, i)
    ensures exists a: string, name: string :: Straddles(a, Marker(name), v)
  {
    var name := if i + 3 <= |v| then v[i + 3..] else "";
    assert OccursAt(v[..i] + Marker(name), v, 0);
    assert Straddles(v[..i], Marker(name), v);
  }

  lemma ClosesInside(v: string, i: nat)
    requires ClosesAt(v, i)
    ensures exists name: string, b: string :: Straddles(Marker(name), b, v)
  {
    var name := if i >= 2 then v[..i - 2] else "";
    var m := Marker(name);
    assert OccursAt(m + v[i + 1..], v, |m| - 1 - i);
    assert Straddles(m, v[i + 1..], v);
  }

  /** A registry's sorted entries, none of them empty. */
  ghost predicate SortedEntries(es: seq<Entry>) {
    Sorted(es, EntryBefore) && forall i :: 0 <= i < |es| ==> es[i].1 != []
  }

  /** Such entries with values that cannot reach across the edge of a marker. */
  ghost predicate EdgelessEntries(es: seq<Entry>) {
    SortedEntries(es) && forall i :: 0 <= i < |es| ==> Edgeless(es[i].1)
  }

  lemma MarkerIsBlock(name: string)
    ensures IsBlock(Marker(name))
  {
    assert OpenedBy(Marker(name), 2) && ClosedBy(Marker(name), 2);
  }

  lemma ClosedByMarker(a: string, name: string)
    ensures Closed(a + Marker(name))
  {
    assert ClosedBy(a + Marker(name), 2);
  }

  lemma ClosedAfter(a: string, s: string)
    requires Closed(s)
    ensures Closed(a + s)
  {
    var n: nat :| ClosedBy(s, n);
    assert ClosedBy(a + s, n);
  }

  /** The rest of a closed text keeps something closed before it closed. */
  lemma ClosedRest(a: string, s: string, k: nat)
    requires Closed(a) && Closed(s) && k <= |s|
    ensures Closed(a + s[k..])
  {
    var m: nat :| ClosedBy(a, m);
    var n: nat :| ClosedBy(s, n);
    assert ClosedBy(a + s[k..], if |s| - k > n then n else m + (|s| - k));
  }

  lemma {:induction false} ReplacedEnd(s: string, p: string, name: string, k: nat, before: string)
    requires p != [] && k <= |s| && Closed(s) && Closed(before)
    ensures Closed(before + ReplaceFrom(s, p, Marker(name), k))
    decreases |s| - k
  {
    hide Closed, FindFrom, ReplaceFrom, Marker;
    match FindFrom(s, p, k)
    case None =>
      ReplaceEnd(s, p, Marker(name), k);
      ClosedRest(before, s, k);
    case Some(i) =>
      ReplaceStep(s, p, Marker(name), k, i);
      ClosedByMarker(before + s[k..i], name);
      ReplacedEnd(s, p, name, i + |p|, before + s[k..i] + Marker(name));
      Associate(before, s[k..i], Marker(name));
      Associate(before, s[k..i] + Marker(name), ReplaceFrom(s, p, Marker(name), i + |p|));
  }

  lemma OpenedByMarker(s: string, i: nat, name: string, rest: string)
    requires Opened(s) && i <= |s|
    ensures Opened(s[..i] + Marker(name) + rest)
  {
    var n: nat :| OpenedBy(s, n);
    assert OpenedBy(s[..i] + Marker(name) + rest, if i > n then n else i + 2);
  }

  /** Replacing inside a marker-like text leaves its braces in place, or another marker's in theirs. */
  lemma BlockStaysBlock(s: string, p: string, name: string)
    requires p != [] && IsBlock(s)
    ensures IsBlock(Replace(s, p, Marker(name)))
  {
    hide FindFrom, ReplaceFrom, Opened, Closed;
    match FindFrom(s, p, 0)
    case None =>
      ReplaceEnd(s, p, Marker(name), 0);
      assert s[0..] == s;
    case Some(i) =>
      var rest := ReplaceFrom(s, p, Marker(name), i + |p|);
      ReplaceStep(s, p, Marker(name), 0, i);
      assert s[0..i] == s[..i];
      OpenedByMarker(s, i, name, rest);
      ClosedByMarker(s[..i], name);
      ReplacedEnd(s, p, name, i + |p|, s[..i] + Marker(name));
  }

  lemma {:induction false} RedactedIsBlock(es: seq<Entry>, s: string)
    requires (forall i :: 0 <= i < |es| ==> es[i].1 != []) && IsBlock(s)
    ensures IsBlock(Redacted(es, s))
    decreases |es|
  {
    if es != [] {
      BlockStaysBlock(s, es[0].1, es[0].0);
      RedactedIsBlock(es[1..], Replace(s, es[0].1, Marker(es[0].0)));
    }
  }

  lemma SeamsAreFree(a: string, s: string, b: string, p: string)
    requires Edgeless(p) && IsBlock(s)
    ensures !Straddles(a, s, p) && !Straddles(a + s, b, p)
  {
    NoEdgeBefore(a, s, p);
    ClosedAfter(a, s);
    NoEdgeAfter(a + s, b, p);
  }

  lemma ReplaceAroundBlock(a: string, s: string, b: string, p: string, r: string)
    requires p != [] && Edgeless(p) && IsBlock(s)
    ensures Replace(a + s + b, p, r) == Replace(a, p, r) + Replace(s, p, r) + Replace(b, p, r)
  {
    SeamsAreFree(a, s, b, p);
    hide Replace, Straddles;
    ReplaceJoin(a + s, b, p, r);
    ReplaceJoin(a, s, p, r);
  }

  /** Markers are transparent to later replacements: what is before one, in it and after it is redacted
      separately. */
  lemma {:induction false} RedactedMarker(es: seq<Entry>, a: string, s: string, b: string)
    requires (forall i :: 0 <= i < |es| ==> es[i].1 != [] && Edgeless(es[i].1)) && IsBlock(s)
    ensures Redacted(es, a + s + b) == Redacted(es, a) + Redacted(es, s) + Redacted(es, b)
    decreases |es|
  {
    if es != [] {
      var p, r := es[0].1, Marker(es[0].0);
      ReplaceAroundBlock(a, s, b, p, r);
      BlockStaysBlock(s, p, es[0].0);
      RedactedMarker(es[1..], Replace(a, p, r), Replace(s, p, r), Replace(b, p, r));
    }
  }

  /** A value in a text with a marker lies before it, in it, or after it. */
  lemma ContainsMarker(a: string, s: string, b: string, p: string)
    requires Edgeless(p) && IsBlock(s) && Contains(a + s + b, p)
    ensures Contains(a, p) || Contains(s, p) || Contains(b, p)
  {
    SeamsAreFree(a, s, b, p);
    hide Contains, Straddles;
    ContainsJoin(a + s, b, p);
    if !Contains(b, p) { ContainsJoin(a, s, p); }
  }

  // -------------------------------------------------------------- survival

  /** No value of the first `k` entries occurs in `s`. */
  ghost predicate FreeOf(es: seq<Entry>, k: nat, s: string)
    requires k <= |es|
  {
    forall i :: 0 <= i < k ==> !Contains(s, es[i].1)
  }

  /** Entry `j` is the first to hold its value. */
  ghost predicate FirstHolder(es: seq<Entry>, j: nat)
    requires j < |es|
  {
    forall i :: 0 <= i < j ==> es[i].1 != es[j].1
  }

  lemma FreeOfPart(es: seq<Entry>, k: nat, s: string, lo: nat, hi: nat)
    requires k <= |es| && lo <= hi <= |s| && FreeOf(es, k, s)
    ensures FreeOf(es, k, s[lo..hi])
  {
    forall i | 0 <= i < k ensures !Contains(s[lo..hi], es[i].1) {
      if Contains(s[lo..hi], es[i].1) { ContainsPart(s, lo, hi, es[i].1); }
    }
  }

  /** On either side of entry `k`'s first match, the earlier entries do not occur; before it, neither does `k`. */
  lemma FreeOfSides(es: seq<Entry>, k: nat, text: string, i: nat)
    requires EdgelessEntries(es) && k < |es| && FreeOf(es, k, text) && FindFrom(text, es[k].1, 0) == Some(i)
    ensures FreeOf(es, k + 1, text[..i]) && FreeOf(es, k, text[i + |es[k].1|..]) && FirstHolder(es, k)
  {
    BeforeFirstIsFree(text, es[k].1, i);
    FreeOfPart(es, k, text, 0, i);
    FreeOfPart(es, k, text, i + |es[k].1|, |text|);
    assert text[0..i] == text[..i] && text[i + |es[k].1|..|text|] == text[i + |es[k].1|..];
    HolderIsFirst(es, k, text);
  }

  /** A survivor of entry `k` and later, where entry `k` first matches at `i`. */
  lemma SplitSurvivor(es: seq<Entry>, k: nat, text: string, i: nat, p: string)
    requires EdgelessEntries(es) && k < |es| && p != [] && Edgeless(p)
    requires FindFrom(text, es[k].1, 0) == Some(i) && Contains(Redacted(es[k..], text), p)
    ensures || Contains(Redacted(es[k + 1..], text[..i]), p)
            || Contains(Redacted(es[k + 1..], Marker(es[k].0)), p)
            || Contains(Redacted(es[k..], text[i + |es[k].1|..]), p)
  {
    assert es[k..][1..] == es[k + 1..];
    var v, marker := es[k].1, Marker(es[k].0);
    var b := Replace(text[i + |v|..], v, marker);
    ReplaceFirst(text, v, marker, i);
    MarkerIsBlock(es[k].0);
    RedactedMarker(es[k + 1..], text[..i], marker, b);
    RedactedIsBlock(es[k + 1..], marker);
    ContainsMarker(Redacted(es[k + 1..], text[..i]), Redacted(es[k + 1..], marker), Redacted(es[k + 1..], b), p);
  }

  lemma SkipAbsent(es: seq<Entry>, k: nat, text: string)
    requires EdgelessEntries(es) && k < |es| && FreeOf(es, k, text) && FindFrom(text, es[k].1, 0).None?
    ensures FreeOf(es, k + 1, text) && Redacted(es[k..], text) == Redacted(es[k + 1..], text)
  {
    assert es[k..][1..] == es[k + 1..];
    FindIsLeftmost(text, es[k].1, 0);
    ReplaceNothing(text, es[k].1, Marker(es[k].0));
  }

  lemma NoneLeft(es: seq<Entry>, text: string, w: nat)
    requires w < |es| && FreeOf(es, |es|, text)
    ensures !Contains(Redacted(es[|es|..], text), es[w].1)
  {
    assert Redacted(es[|es|..], text) == text;
  }

  /** If a value survives, it sits in what became of some inserted name. */
  lemma {:induction false} SurvivorIsInAName(es: seq<Entry>, k: nat, text: string, w: nat) returns (j: nat)
    requires EdgelessEntries(es) && k <= |es| && w < |es| && FreeOf(es, k, text)
    requires Contains(Redacted(es[k..], text), es[w].1)
    ensures k <= j < |es| && FirstHolder(es, j) && Contains(Redacted(es[j + 1..], Marker(es[j].0)), es[w].1)
    decreases |es| - k, |text|
  {
    hide Contains, Redacted, FreeOf, FirstHolder, FindFrom;
    if k == |es| {
      NoneLeft(es, text, w);
    } else {
      var v, p := es[k].1, es[w].1;
      if FindFrom(text, v, 0).None? {
        SkipAbsent(es, k, text);
        j := SurvivorIsInAName(es, k + 1, text, w);
      } else {
        var i := FindFrom(text, v, 0).value;
        SplitSurvivor(es, k, text, i, p);
        FreeOfSides(es, k, text, i);
        if Contains(Redacted(es[k + 1..], Marker(es[k].0)), p) {
          j := k;
        } else if Contains(Redacted(es[k + 1..], text[..i]), p) {
          j := SurvivorIsInAName(es, k + 1, text[..i], w);
        } else {
          j := SurvivorIsInAName(es, k, text[i + |v|..], w);
        }
      }
    }
  }

  lemma HolderIsFirst(es: seq<Entry>, k: nat, text: string)
    requires k < |es| && FreeOf(es, k, text) && Contains(text, es[k].1)
    ensures FirstHolder(es, k)
  {
    forall i | 0 <= i < k ensures es[i].1 != es[k].1 { assert !Contains(text, es[i].1); }
  }

  lemma ContainsNoShorter(s: string, p: string)
    requires Contains(s, p) && |p| >= |s|
    ensures s == p
  {
    var i: nat :| OccursAt(s, p, i);
    assert forall k :: 0 <= k < |s| ==> s[k] == p[k];
  }

  /** No value longer than, or as long as and different from, `v` occurs in `v`. */
  lemma {:induction false} SkipEarlier(es: seq<Entry>, j: nat, k: nat)
    requires SortedEntries(es) && k <= j < |es| && FirstHolder(es, j)
    ensures Redacted(es[k..], es[j].1) == Redacted(es[j..], es[j].1)
    decreases j - k
  {
    if k < j {
      assert es[k..][1..] == es[k + 1..];
      assert EntryBefore(es[k], es[j]);
      if Contains(es[j].1, es[k].1) { ContainsNoShorter(es[j].1, es[k].1); }
      ReplaceNothing(es[j].1, es[k].1, Marker(es[k].0));
      SkipEarlier(es, j, k + 1);
    }
  }

  /** Redacting a value alone leaves its first holder's marker, treated by the shorter entries. */
  lemma RedactValue(es: seq<Entry>, j: nat)
    requires SortedEntries(es) && j < |es| && FirstHolder(es, j)
    ensures Redacted(es, es[j].1) == Redacted(es[j + 1..], Marker(es[j].0))
  {
    assert es[0..] == es;
    SkipEarlier(es, j, 0);
    assert es[j..][1..] == es[j + 1..];
    ReplaceWhole(es[j].1, Marker(es[j].0));
  }

  ghost predicate Clean(es: seq<Entry>, text: string)
    requires EdgelessEntries(es)
  {
    forall i :: 0 <= i < |es| ==> !Contains(Redacted(es, text), es[i].1)
  }

  /** For values that cannot reach across a marker's edge: redaction never lets a revealed value through,
      on any text, exactly when it lets none through on the revealed values themselves, a finite check. */
  lemma NothingSurvivesIff(es: seq<Entry>)
    requires EdgelessEntries(es)
    ensures (forall text :: Clean(es, text)) <==> forall j :: 0 <= j < |es| ==> Clean(es, es[j].1)
  {
    if forall j :: 0 <= j < |es| ==> Clean(es, es[j].1) {
      forall text ensures Clean(es, text) {
        forall w | 0 <= w < |es| ensures !Contains(Redacted(es, text), es[w].1) {
          if Contains(Redacted(es, text), es[w].1) {
            assert es[0..] == es;
            var j := SurvivorIsInAName(es, 0, text, w);
            assert Clean(es, es[j].1);
            RedactValue(es, j);
          }
        }
      }
    }
  }

  /** No revealed value occurs in a marker. */
  ghost predicate MarkersAreFree(es: seq<Entry>) {
    forall i, j :: 0 <= i < |es| && 0 <= j < |es| ==> !Contains(Marker(es[j].0), es[i].1)
  }

  /** A value without braces cannot reach across an edge; it occurs in a marker exactly when it occurs
      in the padded name, and, unless it starts or ends with a space, exactly when it occurs in the name. */
  lemma PlainValues(name: string, v: string)
    requires v != [] && '{' !in v && '}' !in v
    ensures Edgeless(v)
    ensures Contains(Marker(name), v) <==> Contains(" " + name + " ", v)
    ensures v[0] != ' ' && v[|v| - 1] != ' ' ==> (Contains(Marker(name), v) <==> Contains(name, v))
  {
    var padded := " " + name + " ";
    assert Marker(name) == "{{" + padded + "}}";
    if Contains(padded, v) { ContainsInMiddle("{{", padded, "}}", v); }
    if Contains(name, v) { ContainsInMiddle(" ", name, " ", v); }
    if Contains(Marker(name), v) {
      var i: nat :| OccursAt(Marker(name), v, i);
      OccursInPadding(name, v, i);
      if v[0] != ' ' && v[|v| - 1] != ' ' {
        assert padded[i - 2] == v[0] && padded[i - 2 + |v| - 1] == v[|v| - 1];
        assert OccursAt(name, v, i - 3);
      }
    }
  }

  lemma OccursInPadding(name: string, v: string, i: nat)
    requires v != [] && '{' !in v && '}' !in v && OccursAt(Marker(name), v, i)
    ensures i >= 2 && OccursAt(" " + name + " ", v, i - 2)
  {
    var m := Marker(name);
    assert v[0] in v && v[|v| - 1] in v && m[i] == v[0] && m[i + |v| - 1] == v[|v| - 1];
    assert m[0] == '{' && m[1] == '{' && m[|m| - 2] == '}' && m[|m| - 1] == '}';
  }

  lemma {:induction false} RedactNothing(es: seq<Entry>, text: string)
    requires forall i :: 0 <= i < |es| ==> es[i].1 != [] && !Contains(text, es[i].1)
    ensures Redacted(es, text) == text
    decreases |es|
  {
    if es != [] {
      ReplaceNothing(text, es[0].1, Marker(es[0].0));
      RedactNothing(es[1..], text);
    }
  }

  /** If moreover no marker contains a revealed value, no text keeps one, and redacting again changes
      nothing. */
  lemma RedactionIsSafe(es: seq<Entry>, text: string)
    requires EdgelessEntries(es) && MarkersAreFree(es)
    ensures Clean(es, text)
    ensures Redacted(es, Redacted(es, text)) == Redacted(es, text)
  {
    forall w | 0 <= w < |es| ensures !Contains(Redacted(es, text), es[w].1) {
      if Contains(Redacted(es, text), es[w].1) {
        assert es[0..] == es;
        var j := SurvivorIsInAName(es, 0, text, w);
        RedactNothing(es[j + 1..], Marker(es[j].0));
      }
    }
    RedactNothing(es, Redacted(es, text));
  }

  /** A value alone becomes exactly the marker of the least name holding it, if that contains no revealed
      value. */
  lemma ValueBecomesMarker(es: seq<Entry>, e: Entry)
    requires SortedEntries(es) && e in es
    requires forall i :: 0 <= i < |es| ==> !Contains(Marker(e.0), es[i].1)
    requires forall e' :: e' in es && e'.1 == e.1 ==> e'.0 == e.0 || StringLess(e.0, e'.0)
    ensures Redacted(es, e.1) == "{{ " + e.0 + " }}"
  {
    var j :| 0 <= j < |es| && es[j] == e;
    EntryOrder();
    forall i | 0 <= i < j ensures es[i].1 != e.1 {
      assert es[i] in es && EntryBefore(es[i], es[j]);
      StringLessStrict();
    }
    RedactValue(es, j);
    RedactNothing(es[j + 1..], Marker(e.0));
  }

  /** For a single secret, whatever its characters: some text lets it through exactly when its own marker
      holds it, or it can be put together from part of the marker and of the text around it. */
  lemma SingleSecretLeaksIff(name: string, v: string)
    requires v != []
    ensures (exists text :: Contains(Redacted([(name, v)], text), v)) <==> CanLeave(v, Marker(name))
  {
    CanLeaveIff(v, Marker(name));
    hide CanLeave, Replace, Redacted, Contains;
    if text :| Contains(Redacted([(name, v)], text), v) { RedactedOnce(name, v, text); }
    if text :| Contains(Replace(text, v, Marker(name)), v) { RedactedOnce(name, v, text); }
  }

  lemma RedactedOnce(name: string, v: string, text: string)
    requires v != []
    ensures Redacted([(name, v)], text) == Replace(text, v, Marker(name))
  {
    RedactedOfNoEntries([(name, v)], Replace(text, v, Marker(name)));
  }

  /** A concrete one: a value ending in braces reappears across its marker's edge. */
  lemma BracesLeak()
    ensures Contains(Redacted([("n", "aaaaaa{{")], "aaaaaaaaaaaa{{"), "aaaaaa{{")
  {
    var v := "aaaaaa{{";
    var text := "aaaaaa" + v;
    assert text == "aaaaaaaaaaaa{{";
    forall j: nat | j < 6 ensures !OccursAt(text, v, j) {
      assert v[6] == '{' && text[j + 6] == 'a';
    }
    FindIs(text, v, 0, 6);
    assert "aaaaaa" + v + "" == text;
    hide FindFrom, Replace, Redacted;
    ReplacedOnce("aaaaaa", v, Marker("n"), "");
    RedactedOnce("n", v, text);
    assert OccursAt("aaaaaa" + Marker("n") + "", v, 0);
  }

  /** Why markers must be free of values: a secret that occurs in its own marker is printed there. */
  lemma NameLeaks(name: string, v: string)
    requires v != [] && Contains(Marker(name), v)
    ensures Contains(Redacted([(name, v)], v), v)
  {
    var es := [(name, v)];
    RedactValue(es, 0);
    RedactedOfNoEntries(es, Marker(name));
  }

  lemma RedactedOfNoEntries(es: seq<Entry>, text: string)
    requires |es| == 1
    ensures Redacted(es[1..], text) == text
  {
  }

  // -------------------------------------------------------- back to a store

  /** No revealed value can reach across a marker's edge or occurs in a marker. */
  ghost predicate SafeToRedact(revealed: map<string, string>) {
    forall name :: name in revealed ==>
      Edgeless(revealed[name]) && forall other :: other in revealed ==> !Contains(Marker(other), revealed[name])
  }

  /** A registry's redaction is safe whenever its revealed pairs are. */
  lemma StoreRedaction(s: Store, es: seq<Entry>, text: string)
    requires s.Valid() && IsEntries(s.revealed, es) && SafeToRedact(s.revealed)
    ensures EdgelessEntries(es) && MarkersAreFree(es)
    ensures forall name :: name in s.revealed ==> !Contains(Redacted(es, text), s.revealed[name])
    ensures Redacted(es, Redacted(es, text)) == Redacted(es, text)
  {
    forall i | 0 <= i < |es| ensures es[i].1 != [] && Edgeless(es[i].1) { assert es[i] in es; }
    forall i, j | 0 <= i < |es| && 0 <= j < |es| ensures !Contains(Marker(es[j].0), es[i].1) {
      assert es[i] in es && es[j] in es;
    }
    RedactionIsSafe(es, text);
    forall name | name in s.revealed ensures !Contains(Redacted(es, text), s.revealed[name]) {
      assert (name, s.revealed[name]) in es;
    }
  }

  /** So no secret of eight bytes or more that was ever given out is in a redacted text. */
  lemma GivenOutIsRedacted(s: Store, lookups: seq<Lookup>, i: nat, es: seq<Entry>, text: string)
    requires s.Valid() && i < |lookups|
    requires IsEntries(ResolveAll(s, lookups).revealed, es) && SafeToRedact(ResolveAll(s, lookups).revealed)
    ensures Replaceable(es)
    ensures var answer := AnswerAt(s, lookups, i);
            answer.Ok? && |answer.value| >= 8 ==> !Contains(Redacted(es, text), answer.value)
  {
    ResolvesAreConsistent(s, lookups, lookups[i].name);
    StoreRedaction(ResolveAll(s, lookups), es, text);
    GivenOutIsRevealed(s, lookups, i);
  }

  /** A text without any revealed value is its own redaction. */
  lemma NothingToRedact(s: Store, es: seq<Entry>, text: string)
    requires s.Valid() && IsEntries(s.revealed, es)
    requires forall name :: name in s.revealed ==> !Contains(text, s.revealed[name])
    ensures Replaceable(es) && Redacted(es, text) == text
  {
    forall i | 0 <= i < |es| ensures es[i].1 != [] && !Contains(text, es[i].1) { assert es[i] in es; }
    RedactNothing(es, text);
  }
}
