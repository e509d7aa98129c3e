/**
 Normalising a YAML tree before sections are read from it: keys become strings and null entries go.
 */
module YamlNormalize {
  import opened Basics

  /** Numbers are kept as they print. A mapping keeps its entries in order. */
  datatype Value =
    | Null | Bool(b: bool) | Number(text: string) | Str(s: string)
    | Sequence(items: seq<Value>) | Mapping(entries: seq<Entry>)
    | Tagged(tag: string, inner: Value)

  datatype Entry = Entry(key: Value, value: Value)

  /** `is_null` looks through tags. */
  predicate IsNull(v: Value) {
    v.Null? || (v.Tagged? && IsNull(v.inner))
  }

  /** `debug` prints keys that are neither scalars nor null. */
  function KeyText(debug: Value -> string, k: Value): string {
    match k
    case Str(s) => s
    case Bool(b) => if b then "true" else "false"
    case Number(text) => text
    case Null => "null"
    case other => debug(other)
  }

  /** Inserting into an ordered mapping: an old key keeps its place and gets the new value. */
  function Put(entries: seq<Entry>, key: Value, value: Value): seq<Entry> {
    if entries == [] then [Entry(key, value)]
    else if entries[0].key == key then [Entry(key, value)] + entries[1..]
    else [entries[0]] + Put(entries[1..], key, value)
  }

  function Normalized(debug: Value -> string, v: Value): Value
    decreases v
  {
    match v
    case Mapping(entries) => Mapping(NormalizedEntries(debug, v, |entries|))
    case Sequence(items) => Sequence(seq(|items|, i requires 0 <= i < |items| => Normalized(debug, items[i])))
    case other => other
  }

  /** The new mapping after the first `n` entries of `v`. */
  function NormalizedEntries(debug: Value -> string, v: Value, n: nat): seq<Entry>
    requires v.Mapping? && n <= |v.entries|
    decreases v, 0, n
  {
    if n == 0 then []
    else
      var before := NormalizedEntries(debug, v, n - 1);
      var e := v.entries[n - 1];
      if IsNull(e.value) then before
      else Put(before, Str(KeyText(debug, e.key)), Normalized(debug, e.value))
  }

  /** The recursive walk, with a loop that fills each new mapping. */
  method NormalizeKeys(debug: Value -> string, v: Value) returns (r: Value)
    ensures r == Normalized(debug, v)
    decreases v
  {
    match v {
      case Mapping(entries) =>
        var newMap: seq<Entry> := [];
        for i := 0 to |entries|
          invariant newMap == NormalizedEntries(debug, v, i)
        {
          if !IsNull(entries[i].value) {
            var value := NormalizeKeys(debug, entries[i].value);
            newMap := Put(newMap, Str(KeyText(debug, entries[i].key)), value);
          }
        }
        r := Mapping(newMap);
      case Sequence(items) =>
        var newItems: seq<Value> := [];
        for i := 0 to |items|
          invariant |newItems| == i && forall k | 0 <= k < i :: newItems[k] == Normalized(debug, items[k])
        {
          var item := NormalizeKeys(debug, items[i]);
          newItems := newItems + [item];
        }
        r := Sequence(newItems);
      case _ => r := v;
    }
  }

  /** `get` with a string key; it looks through tags. */
  function Get(v: Value, name: string): (r: Option<Value>) {
    match v
    case Mapping(entries) => Find(entries, Str(name))
    case Tagged(_, inner) => Get(inner, name)
    case _ => None
  }

  function Find(entries: seq<Entry>, key: Value): Option<Value> {
    if entries == [] then None
    else if entries[0].key == key then Some(entries[0].value)
    else Find(entries[1..], key)
  }

  /** The value a section is read from. */
  function SectionValue(normalized: Value, name: string): Value {
    match Get(normalized, name)
    case Some(v) => v
    case None => Mapping([])
  }

  // ---------------------------------------------------------------- the shape of the result

  predicate DistinctKeys(entries: seq<Entry>) {
    forall i, j | 0 <= i < j < |entries| :: entries[i].key != entries[j].key
  }

  /** Keys are strings, each once, and no mapping value is null, at any depth that is not under a tag. */
  predicate Normal(v: Value)
    decreases v
  {
    match v
    case Mapping(entries) =>
      DistinctKeys(entries)
      && forall i | 0 <= i < |entries| :: entries[i].key.Str? && !IsNull(entries[i].value) && Normal(entries[i].value)
    case Sequence(items) => forall i | 0 <= i < |items| :: Normal(items[i])
    case _ => true
  }

  lemma {:induction false} PutKeys(entries: seq<Entry>, key: Value, value: Value)
    ensures forall e | e in Put(entries, key, value) :: e in entries || e == Entry(key, value)
    ensures DistinctKeys(entries) ==> DistinctKeys(Put(entries, key, value))
    decreases |entries|
  {
    if entries != [] && entries[0].key != key {
      PutKeys(entries[1..], key, value);
      var r := Put(entries[1..], key, value);
      if DistinctKeys(entries) {
        assert DistinctKeys(entries[1..]);
        forall j | 0 <= j < |r| ensures r[j].key != entries[0].key {
          assert r[j] in r;
        }
      }
    }
  }

  ghost predicate GoodEntry(e: Entry) {
    e.key.Str? && !IsNull(e.value) && Normal(e.value)
  }

  lemma NormalizedKeepsNull(debug: Value -> string, v: Value)
    ensures IsNull(Normalized(debug, v)) == IsNull(v)
  {
  }

  lemma {:induction false} NormalizedIsNormal(debug: Value -> string, v: Value)
    ensures Normal(Normalized(debug, v))
    decreases v
  {
    match v
    case Mapping(entries) =>
      EntriesAreNormal(debug, v, |entries|);
      var r := NormalizedEntries(debug, v, |entries|);
      forall i | 0 <= i < |r| ensures GoodEntry(r[i]) {
        assert r[i] in r;
      }
    case Sequence(items) =>
      forall i | 0 <= i < |items| ensures Normal(Normalized(debug, items[i])) {
        NormalizedIsNormal(debug, items[i]);
      }
    case _ =>
  }

  lemma {:induction false} EntriesAreNormal(debug: Value -> string, v: Value, n: nat)
    requires v.Mapping? && n <= |v.entries|
    ensures var r := NormalizedEntries(debug, v, n);
            DistinctKeys(r) && forall e | e in r :: GoodEntry(e)
    decreases v, 0, n
  {
    if n > 0 {
      EntriesAreNormal(debug, v, n - 1);
      var e := v.entries[n - 1];
      if !IsNull(e.value) {
        NormalizedIsNormal(debug, e.value);
        NormalizedKeepsNull(debug, e.value);
        PutKeys(NormalizedEntries(debug, v, n - 1), Str(KeyText(debug, e.key)), Normalized(debug, e.value));
      }
    }
  }

  // ---------------------------------------------------------------- nothing left to do

  lemma {:induction false} PutNew(entries: seq<Entry>, key: Value, value: Value)
    requires forall i | 0 <= i < |entries| :: entries[i].key != key
    ensures Put(entries, key, value) == entries + [Entry(key, value)]
    decreases |entries|
  {
    if entries != [] {
      PutNew(entries[1..], key, value);
      assert entries == [entries[0]] + entries[1..];
    }
  }

  lemma {:induction false} NormalIsFixed(debug: Value -> string, v: Value)
    requires Normal(v)
    ensures Normalized(debug, v) == v
    decreases v
  {
    match v
    case Mapping(entries) =>
      NormalEntriesFixed(debug, v, |entries|);
      assert entries[..|entries|] == entries;
    case Sequence(items) =>
      forall i | 0 <= i < |items| ensures Normalized(debug, items[i]) == items[i] {
        NormalIsFixed(debug, items[i]);
      }
    case _ =>
  }

  lemma {:induction false} NormalEntriesFixed(debug: Value -> string, v: Value, n: nat)
    requires v.Mapping? && Normal(v) && n <= |v.entries|
    ensures NormalizedEntries(debug, v, n) == v.entries[..n]
    decreases v, 0, n
  {
    if n > 0 {
      NormalEntriesFixed(debug, v, n - 1);
      NormalIsFixed(debug, v.entries[n - 1].value);
      PutNew(v.entries[..n - 1], v.entries[n - 1].key, v.entries[n - 1].value);
      assert v.entries[..n] == v.entries[..n - 1] + [v.entries[n - 1]];
    }
  }

  /** A tree is left alone exactly when it is normal; so normalising twice is normalising once. */
  lemma NormalizeIsIdempotent(debug: Value -> string, v: Value)
    ensures Normal(Normalized(debug, v))
    ensures Normalized(debug, v) == v <==> Normal(v)
    ensures Normalized(debug, Normalized(debug, v)) == Normalized(debug, v)
  {
    NormalizedIsNormal(debug, v);
    NormalIsFixed(debug, Normalized(debug, v));
    if Normal(v) {
      NormalIsFixed(debug, v);
    }
  }

  // ---------------------------------------------------------------- lookup

  lemma {:induction false} FindPut(entries: seq<Entry>, key: Value, value: Value, other: Value)
    ensures Find(Put(entries, key, value), other) == if other == key then Some(value) else Find(entries, other)
    decreases |entries|
  {
    if entries != [] && entries[0].key != key {
      FindPut(entries[1..], key, value, other);
    }
  }

  /** The last of the first `n` entries that is not null and whose key prints as `name`. */
  function LastEntry(debug: Value -> string, entries: seq<Entry>, n: nat, name: string): Option<Value>
    requires n <= |entries|
  {
    if n == 0 then None
    else if !IsNull(entries[n - 1].value) && KeyText(debug, entries[n - 1].key) == name then Some(entries[n - 1].value)
    else LastEntry(debug, entries, n - 1, name)
  }

  lemma {:induction false} FindNormalized(debug: Value -> string, v: Value, n: nat, name: string)
    requires v.Mapping? && n <= |v.entries|
    ensures Find(NormalizedEntries(debug, v, n), Str(name))
            == match LastEntry(debug, v.entries, n, name)
               case Some(x) => Some(Normalized(debug, x))
               case None => None
    decreases n
  {
    if n > 0 {
      FindNormalized(debug, v, n - 1, name);
      var e := v.entries[n - 1];
      if !IsNull(e.value) {
        FindPut(NormalizedEntries(debug, v, n - 1), Str(KeyText(debug, e.key)), Normalized(debug, e.value), Str(name));
      }
    }
  }

  /** A section is the normalised value of the last non-null entry whose key prints as its name, else empty. */
  lemma SectionIsLastEntry(debug: Value -> string, entries: seq<Entry>, name: string)
    ensures SectionValue(Normalized(debug, Mapping(entries)), name)
            == match LastEntry(debug, entries, |entries|, name)
               case Some(x) => Normalized(debug, x)
               case None => Mapping([])
  {
    FindNormalized(debug, Mapping(entries), |entries|, name);
  }

  // ---------------------------------------------------------------- through tags

  /** Keys are strings, each once, and no mapping value is null, at any depth and inside tagged values too. */
  predicate Deep(v: Value)
    decreases v
  {
    match v
    case Mapping(entries) =>
      DistinctKeys(entries)
      && forall i | 0 <= i < |entries| :: entries[i].key.Str? && !IsNull(entries[i].value) && Deep(entries[i].value)
    case Sequence(items) => forall i | 0 <= i < |items| :: Deep(items[i])
    case Tagged(_, inner) => Deep(inner)
    case _ => true
  }

  /** Entry `i` of the first `n` is not null, and none after it that is not null prints the same key. */
  predicate Survives(debug: Value -> string, entries: seq<Entry>, n: nat, i: nat)
    requires i < n <= |entries|
  {
    && !IsNull(entries[i].value)
    && forall j | i < j < n && !IsNull(entries[j].value) ::
         KeyText(debug, entries[j].key) != KeyText(debug, entries[i].key)
  }

  /** Whatever is not normalised, since it is under a tag, has this form already, unless its entry is dropped. */
  predicate Clean(debug: Value -> string, v: Value)
    decreases v
  {
    match v
    case Mapping(entries) =>
      forall i | 0 <= i < |entries| && Survives(debug, entries, |entries|, i) :: Clean(debug, entries[i].value)
    case Sequence(items) => forall i | 0 <= i < |items| :: Clean(debug, items[i])
    case Tagged(_, inner) => Deep(inner)
    case _ => true
  }

  /** The values of the new mapping are those of the surviving entries. */
  lemma {:induction false} FilledBySurvivors(debug: Value -> string, v: Value, n: nat, e: Entry)
    requires v.Mapping? && n <= |v.entries|
    ensures e in NormalizedEntries(debug, v, n)
            <==> exists i | 0 <= i < n :: Survives(debug, v.entries, n, i)
                   && e == Entry(Str(KeyText(debug, v.entries[i].key)), Normalized(debug, v.entries[i].value))
    decreases n
  {
    if n > 0 {
      FilledBySurvivors(debug, v, n - 1, e);
      EntriesAreNormal(debug, v, n - 1);
      var last := v.entries[n - 1];
      SurvivorsOneMore(debug, v.entries, n);
      if !IsNull(last.value) {
        assert Survives(debug, v.entries, n, n - 1);
        PutElements(NormalizedEntries(debug, v, n - 1), Str(KeyText(debug, last.key)), Normalized(debug, last.value),
                    e);
      }
    }
  }

  lemma SurvivorsOneMore(debug: Value -> string, entries: seq<Entry>, n: nat)
    requires 0 < n <= |entries|
    ensures forall i | 0 <= i < n - 1 ::
              Survives(debug, entries, n, i)
              <==> Survives(debug, entries, n - 1, i)
                   && (IsNull(entries[n - 1].value)
                       || KeyText(debug, entries[n - 1].key) != KeyText(debug, entries[i].key))
  {
    forall i | 0 <= i < n - 1
      ensures Survives(debug, entries, n, i)
              <==> Survives(debug, entries, n - 1, i)
                   && (IsNull(entries[n - 1].value)
                       || KeyText(debug, entries[n - 1].key) != KeyText(debug, entries[i].key))
    {
      SurvivesOneMore(debug, entries, n, i);
    }
  }

  lemma SurvivesOneMore(debug: Value -> string, entries: seq<Entry>, n: nat, i: nat)
    requires i + 1 < n <= |entries|
    ensures Survives(debug, entries, n, i)
            <==> Survives(debug, entries, n - 1, i)
                 && (IsNull(entries[n - 1].value)
                     || KeyText(debug, entries[n - 1].key) != KeyText(debug, entries[i].key))
  {
  }

  lemma {:induction false} PutElements(entries: seq<Entry>, key: Value, value: Value, e: Entry)
    requires DistinctKeys(entries)
    ensures e in Put(entries, key, value) <==> e == Entry(key, value) || (e in entries && e.key != key)
    decreases |entries|
  {
    if entries != [] {
      assert entries == [entries[0]] + entries[1..];
      if entries[0].key == key {
        forall f | f in entries[1..] ensures f.key != key {
        }
      } else {
        assert DistinctKeys(entries[1..]);
        PutElements(entries[1..], key, value, e);
      }
    }
  }

  /**
   After normalising, keys are strings, each once, and no value is null, at any depth and through tags, exactly
   when the tree was clean.
   */
  lemma {:induction false} DeepExactlyWhenClean(debug: Value -> string, v: Value)
    ensures Deep(Normalized(debug, v)) <==> Clean(debug, v)
    decreases v
  {
    match v
    case Mapping(entries) =>
      forall i | 0 <= i < |entries|
        ensures Deep(Normalized(debug, entries[i].value)) <==> Clean(debug, entries[i].value)
      {
        DeepExactlyWhenClean(debug, entries[i].value);
      }
      MappingDeep(debug, v);
    case Sequence(items) =>
      forall i | 0 <= i < |items| ensures Deep(Normalized(debug, items[i])) <==> Clean(debug, items[i]) {
        DeepExactlyWhenClean(debug, items[i]);
      }
      var r := Normalized(debug, v).items;
      assert |r| == |items| && forall i | 0 <= i < |items| :: r[i] == Normalized(debug, items[i]);
    case _ =>
  }

  lemma MappingDeep(debug: Value -> string, v: Value)
    requires v.Mapping?
    ensures Deep(Normalized(debug, v))
            <==> forall i | 0 <= i < |v.entries| && Survives(debug, v.entries, |v.entries|, i) ::
                   Deep(Normalized(debug, v.entries[i].value))
  {
    var n, r := |v.entries|, NormalizedEntries(debug, v, |v.entries|);
    EntriesAreNormal(debug, v, n);
    forall k | 0 <= k < |r| ensures GoodEntry(r[k]) {
      assert r[k] in r;
    }
    if Deep(Normalized(debug, v)) {
      forall i | 0 <= i < n && Survives(debug, v.entries, n, i) ensures Deep(Normalized(debug, v.entries[i].value)) {
        SurvivorIsThere(debug, v, i);
      }
    }
    if forall i | 0 <= i < n && Survives(debug, v.entries, n, i) :: Deep(Normalized(debug, v.entries[i].value)) {
      forall k | 0 <= k < |r| ensures Deep(r[k].value) {
        FilledBySurvivors(debug, v, n, r[k]);
      }
    }
  }

  lemma SurvivorIsThere(debug: Value -> string, v: Value, i: nat)
    requires v.Mapping? && i < |v.entries| && Survives(debug, v.entries, |v.entries|, i)
    ensures var r := NormalizedEntries(debug, v, |v.entries|);
            exists k | 0 <= k < |r| :: r[k].value == Normalized(debug, v.entries[i].value)
  {
    var e := Entry(Str(KeyText(debug, v.entries[i].key)), Normalized(debug, v.entries[i].value));
    FilledBySurvivors(debug, v, |v.entries|, e);
    assert e in NormalizedEntries(debug, v, |v.entries|);
  }

  /** So a section that is tagged keeps whatever nulls and other keys it has. */
  lemma TaggedStays(debug: Value -> string, name: string, tag: string, inner: Value)
    requires !IsNull(inner)
    ensures var file := Mapping([Entry(Str(name), Tagged(tag, inner))]);
            && SectionValue(Normalized(debug, file), name) == Tagged(tag, inner)
            && (Deep(Normalized(debug, file)) <==> Deep(inner))
  {
    var entries := [Entry(Str(name), Tagged(tag, inner))];
    SectionIsLastEntry(debug, entries, name);
    assert Survives(debug, entries, 1, 0);
    DeepExactlyWhenClean(debug, Mapping(entries));
    assert Clean(debug, Mapping(entries)) <==> Clean(debug, entries[0].value);
  }
}
