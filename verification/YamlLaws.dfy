/**
 What normalising does to a mapping, entry by entry, and what a section is read from.
 */
module YamlLaws {
  import opened Basics
  import opened YamlNormalize

  function Untagged(v: Value): Value {
    if v.Tagged? then Untagged(v.inner) else v
  }

  /** Null, under any tags. */
  predicate Nothing(v: Value) { Untagged(v) == Null }

  /** The text a key becomes. */
  predicate Prints(debug: Value -> string, k: Value, name: string) {
    || k == Str(name)
    || k == Number(name)
    || (k == Bool(true) && name == "true")
    || (k == Bool(false) && name == "false")
    || (k == Null && name == "null")
    || ((k.Sequence? || k.Mapping? || k.Tagged?) && name == debug(k))
  }

  lemma {:induction false} NothingMeans(v: Value)
    ensures IsNull(v) <==> Nothing(v)
    decreases v
  {
    if v.Tagged? {
      NothingMeans(v.inner);
    }
  }

  lemma PrintsMeans(debug: Value -> string, k: Value, name: string)
    ensures KeyText(debug, k) == name <==> Prints(debug, k, name)
  {
  }

  /** Entry `i` counts, and becomes `name`. */
  ghost predicate Gives(debug: Value -> string, raw: seq<Entry>, i: nat, name: string)
    requires i < |raw|
  {
    !Nothing(raw[i].value) && Prints(debug, raw[i].key, name)
  }

  /** It is the last of the first `n` that does. */
  ghost predicate GivesLast(debug: Value -> string, raw: seq<Entry>, n: nat, i: nat, name: string)
    requires n <= |raw|
  {
    i < n && Gives(debug, raw, i, name) && forall k | i < k < n :: !Gives(debug, raw, k, name)
  }

  /** It is the first that does. */
  ghost predicate GivesFirst(debug: Value -> string, raw: seq<Entry>, n: nat, i: nat, name: string)
    requires n <= |raw|
  {
    i < n && Gives(debug, raw, i, name) && forall k | 0 <= k < i :: !Gives(debug, raw, k, name)
  }

  /** The new entry `e` has the value of the last of the first `n` old entries that give its name. */
  ghost predicate IsFrom(debug: Value -> string, raw: seq<Entry>, n: nat, e: Entry)
    requires n <= |raw|
  {
    e.key.Str? && exists i: nat :: GivesLast(debug, raw, n, i, e.key.s) && e.value == Normalized(debug, raw[i].value)
  }

  /** `a` was first given before `b` was. */
  ghost predicate Earlier(debug: Value -> string, raw: seq<Entry>, n: nat, a: string, b: string)
    requires n <= |raw|
  {
    exists i: nat, j: nat :: GivesFirst(debug, raw, n, i, a) && GivesFirst(debug, raw, n, j, b) && i < j
  }

  ghost predicate HasKey(entries: seq<Entry>, name: string) { exists e :: e in entries && e.key == Str(name) }

  ghost predicate InOrder(debug: Value -> string, raw: seq<Entry>, n: nat, a: Entry, b: Entry)
    requires n <= |raw|
  {
    a.key.Str? && b.key.Str? && Earlier(debug, raw, n, a.key.s, b.key.s)
  }

  ghost predicate AllFrom(debug: Value -> string, raw: seq<Entry>, n: nat, built: seq<Entry>)
    requires n <= |raw|
  {
    forall e | e in built :: IsFrom(debug, raw, n, e)
  }

  ghost predicate HasAll(debug: Value -> string, raw: seq<Entry>, n: nat, built: seq<Entry>)
    requires n <= |raw|
  {
    forall i, name | 0 <= i < n && Gives(debug, raw, i, name) :: HasKey(built, name)
  }

  ghost predicate Ordered(debug: Value -> string, raw: seq<Entry>, n: nat, built: seq<Entry>)
    requires n <= |raw|
  {
    forall j, k | 0 <= j < k < |built| :: InOrder(debug, raw, n, built[j], built[k])
  }

  /** From the first `n` old entries: each name given once, where it was first given, with the value given last. */
  ghost predicate Shows(debug: Value -> string, raw: seq<Entry>, n: nat, built: seq<Entry>)
    requires n <= |raw|
  {
    AllFrom(debug, raw, n, built) && HasAll(debug, raw, n, built) && Ordered(debug, raw, n, built)
  }

  // ---------------------------------------------------------------- inserting

  /** Inserting changes the value where the key is, or adds an entry at the end. */
  lemma {:induction false} PutMeans(entries: seq<Entry>, key: Value, value: Value) returns (p: nat)
    ensures p <= |entries| && forall i | 0 <= i < p :: entries[i].key != key
    ensures if p < |entries| then entries[p].key == key && Put(entries, key, value) == entries[p := Entry(key, value)]
            else Put(entries, key, value) == entries + [Entry(key, value)]
    decreases |entries|
  {
    if entries == [] {
      p := 0;
    } else if entries[0].key == key {
      p := 0;
      assert entries[0 := Entry(key, value)] == [Entry(key, value)] + entries[1..];
    } else {
      var q := PutMeans(entries[1..], key, value);
      p := q + 1;
      assert entries == [entries[0]] + entries[1..];
      if p < |entries| {
        assert entries[p := Entry(key, value)] == [entries[0]] + entries[1..][q := Entry(key, value)];
      }
    }
  }

  // ---------------------------------------------------------------- one more entry

  lemma GivesOnlyOne(debug: Value -> string, raw: seq<Entry>, i: nat, a: string, b: string)
    requires i < |raw| && Gives(debug, raw, i, a) && Gives(debug, raw, i, b)
    ensures a == b
  {
    PrintsMeans(debug, raw[i].key, a);
    PrintsMeans(debug, raw[i].key, b);
  }

  /** An entry with another name, or with none, leaves what was shown. */
  lemma StillFrom(debug: Value -> string, raw: seq<Entry>, n: nat, e: Entry)
    requires n < |raw| && IsFrom(debug, raw, n, e) && !Gives(debug, raw, n, e.key.s)
    ensures IsFrom(debug, raw, n + 1, e)
  {
    var i: nat :| GivesLast(debug, raw, n, i, e.key.s) && e.value == Normalized(debug, raw[i].value);
    assert GivesLast(debug, raw, n + 1, i, e.key.s);
  }

  lemma StillInOrder(debug: Value -> string, raw: seq<Entry>, n: nat, a: Entry, b: Entry)
    requires n < |raw| && InOrder(debug, raw, n, a, b)
    ensures InOrder(debug, raw, n + 1, a, b) && a.key != b.key
  {
    var i: nat, j: nat :| GivesFirst(debug, raw, n, i, a.key.s) && GivesFirst(debug, raw, n, j, b.key.s) && i < j;
    assert GivesFirst(debug, raw, n + 1, i, a.key.s) && GivesFirst(debug, raw, n + 1, j, b.key.s);
    assert Gives(debug, raw, i, a.key.s) && !Gives(debug, raw, i, b.key.s);
  }

  lemma NothingNew(debug: Value -> string, raw: seq<Entry>, n: nat, built: seq<Entry>)
    requires n < |raw| && Shows(debug, raw, n, built) && Nothing(raw[n].value)
    ensures Shows(debug, raw, n + 1, built)
  {
    forall e | e in built ensures IsFrom(debug, raw, n + 1, e) {
      StillFrom(debug, raw, n, e);
    }
    StillOrdered(debug, raw, n, built);
  }

  lemma StillOrdered(debug: Value -> string, raw: seq<Entry>, n: nat, built: seq<Entry>)
    requires n < |raw| && Ordered(debug, raw, n, built)
    ensures Ordered(debug, raw, n + 1, built)
    ensures forall j, k | 0 <= j < k < |built| :: built[j].key != built[k].key
  {
    forall j, k | 0 <= j < k < |built|
      ensures InOrder(debug, raw, n + 1, built[j], built[k]) && built[j].key != built[k].key
    {
      StillInOrder(debug, raw, n, built[j], built[k]);
    }
  }

  lemma {:induction false} FirstGiven(debug: Value -> string, raw: seq<Entry>, n: nat, k: nat, name: string)
    returns (i: nat)
    requires k < n <= |raw| && Gives(debug, raw, k, name)
    ensures GivesFirst(debug, raw, n, i, name)
    decreases k
  {
    if j: nat :| j < k && Gives(debug, raw, j, name) {
      i := FirstGiven(debug, raw, n, j, name);
    } else {
      i := k;
    }
  }

  /** A name that was there already gets the new value, in its old place. */
  lemma NewValue(debug: Value -> string, raw: seq<Entry>, n: nat, built: seq<Entry>, p: nat, e: Entry)
    requires n < |raw| && Shows(debug, raw, n, built) && e.key.Str? && Gives(debug, raw, n, e.key.s)
    requires p < |built| && built[p].key == e.key && e.value == Normalized(debug, raw[n].value)
    ensures Shows(debug, raw, n + 1, built[p := e])
  {
    StillOrdered(debug, raw, n, built);
    NewValueFrom(debug, raw, n, built, p, e);
    NewValueHasAll(debug, raw, n, built, p, e);
    var r := built[p := e];
    forall j, k | 0 <= j < k < |r| ensures InOrder(debug, raw, n + 1, r[j], r[k]) {
      assert r[j].key == built[j].key && r[k].key == built[k].key && InOrder(debug, raw, n + 1, built[j], built[k]);
    }
  }

  lemma NewValueFrom(debug: Value -> string, raw: seq<Entry>, n: nat, built: seq<Entry>, p: nat, e: Entry)
    requires n < |raw| && AllFrom(debug, raw, n, built) && e.key.Str? && Gives(debug, raw, n, e.key.s)
    requires p < |built| && built[p].key == e.key && e.value == Normalized(debug, raw[n].value)
    requires forall j, k | 0 <= j < k < |built| :: built[j].key != built[k].key
    ensures AllFrom(debug, raw, n + 1, built[p := e])
  {
    assert GivesLast(debug, raw, n + 1, n, e.key.s);
    var r := built[p := e];
    forall x | x in r ensures IsFrom(debug, raw, n + 1, x) {
      if x != e {
        var k :| 0 <= k < |built| && built[k] == x && k != p;
        assert x.key != e.key && x in built;
        OthersStillFrom(debug, raw, n, x, e.key.s);
      }
    }
  }

  lemma OthersStillFrom(debug: Value -> string, raw: seq<Entry>, n: nat, x: Entry, name: string)
    requires n < |raw| && IsFrom(debug, raw, n, x) && Gives(debug, raw, n, name) && x.key != Str(name)
    ensures IsFrom(debug, raw, n + 1, x)
  {
    if Gives(debug, raw, n, x.key.s) {
      GivesOnlyOne(debug, raw, n, name, x.key.s);
    }
    StillFrom(debug, raw, n, x);
  }

  lemma NewValueHasAll(debug: Value -> string, raw: seq<Entry>, n: nat, built: seq<Entry>, p: nat, e: Entry)
    requires n < |raw| && HasAll(debug, raw, n, built) && e.key.Str? && Gives(debug, raw, n, e.key.s)
    requires p < |built| && built[p].key == e.key
    ensures HasAll(debug, raw, n + 1, built[p := e])
  {
    var r := built[p := e];
    assert r[p] in r;
    forall i, name | 0 <= i < n + 1 && Gives(debug, raw, i, name) ensures HasKey(r, name) {
      if i == n {
        GivesOnlyOne(debug, raw, n, e.key.s, name);
      } else {
        var x :| x in built && x.key == Str(name);
        var k :| 0 <= k < |built| && built[k] == x;
        assert r[k].key == x.key && r[k] in r;
      }
    }
  }

  /** A new name comes last. */
  lemma NewName(debug: Value -> string, raw: seq<Entry>, n: nat, built: seq<Entry>, e: Entry)
    requires n < |raw| && Shows(debug, raw, n, built) && e.key.Str? && Gives(debug, raw, n, e.key.s)
    requires !HasKey(built, e.key.s) && e.value == Normalized(debug, raw[n].value)
    ensures Shows(debug, raw, n + 1, built + [e])
  {
    var r := built + [e];
    assert GivesLast(debug, raw, n + 1, n, e.key.s) && GivesFirst(debug, raw, n + 1, n, e.key.s);
    forall x | x in built ensures IsFrom(debug, raw, n + 1, x) {
      OthersStillFrom(debug, raw, n, x, e.key.s);
    }
    NewNameHasAll(debug, raw, n, built, e);
    StillOrdered(debug, raw, n, built);
    forall j, k | 0 <= j < k < |r| ensures InOrder(debug, raw, n + 1, r[j], r[k]) {
      if k < |built| {
        assert InOrder(debug, raw, n + 1, built[j], built[k]);
      } else {
        assert built[j] in built;
        BeforeLast(debug, raw, n, built[j], e.key.s);
      }
    }
  }

  lemma NewNameHasAll(debug: Value -> string, raw: seq<Entry>, n: nat, built: seq<Entry>, e: Entry)
    requires n < |raw| && HasAll(debug, raw, n, built) && e.key.Str? && Gives(debug, raw, n, e.key.s)
    ensures HasAll(debug, raw, n + 1, built + [e])
  {
    var r := built + [e];
    assert r[|built|] in r;
    forall i, name | 0 <= i < n + 1 && Gives(debug, raw, i, name) ensures HasKey(r, name) {
      if i == n {
        GivesOnlyOne(debug, raw, n, e.key.s, name);
      } else {
        var x :| x in built && x.key == Str(name);
        assert x in r;
      }
    }
  }

  lemma BeforeLast(debug: Value -> string, raw: seq<Entry>, n: nat, x: Entry, name: string)
    requires n < |raw| && IsFrom(debug, raw, n, x) && GivesFirst(debug, raw, n + 1, n, name)
    ensures Earlier(debug, raw, n + 1, x.key.s, name)
  {
    var i: nat :| GivesLast(debug, raw, n, i, x.key.s);
    var j := FirstGiven(debug, raw, n + 1, i, x.key.s);
  }

  lemma {:induction false} EntriesShow(debug: Value -> string, v: Value, n: nat)
    requires v.Mapping? && n <= |v.entries|
    ensures Shows(debug, v.entries, n, NormalizedEntries(debug, v, n))
    decreases n
  {
    if n > 0 {
      var m := n - 1;
      var before, e := NormalizedEntries(debug, v, m), v.entries[m];
      EntriesShow(debug, v, m);
      NothingMeans(e.value);
      if IsNull(e.value) {
        NothingNew(debug, v.entries, m, before);
      } else {
        var name := KeyText(debug, e.key);
        PrintsMeans(debug, e.key, name);
        var p := PutMeans(before, Str(name), Normalized(debug, e.value));
        if p < |before| {
          NewValue(debug, v.entries, m, before, p, Entry(Str(name), Normalized(debug, e.value)));
        } else {
          NewName(debug, v.entries, m, before, Entry(Str(name), Normalized(debug, e.value)));
        }
      }
    }
  }

  /**
   A mapping becomes one that has each name its entries give, once, in the order in which they were first given,
   with the value given last, normalised; null values give nothing. The items of a list are normalised each. All
   else, tagged values too, stays as it is.
   */
  lemma NormalizedMeans(debug: Value -> string, v: Value)
    ensures v.Mapping? ==>
              Normalized(debug, v).Mapping?
              && Shows(debug, v.entries, |v.entries|, Normalized(debug, v).entries)
    ensures v.Sequence? ==>
              && Normalized(debug, v).Sequence? && |Normalized(debug, v).items| == |v.items|
              && forall i | 0 <= i < |v.items| :: Normalized(debug, v).items[i] == Normalized(debug, v.items[i])
    ensures !v.Mapping? && !v.Sequence? ==> Normalized(debug, v) == v
  {
    if v.Mapping? {
      EntriesShow(debug, v, |v.entries|);
    }
  }

  // ---------------------------------------------------------------- sections

  lemma {:induction false} LastEntryMeans(debug: Value -> string, entries: seq<Entry>, n: nat, name: string)
    ensures n <= |entries| ==>
              match LastEntry(debug, entries, n, name)
              case Some(x) => exists i: nat :: GivesLast(debug, entries, n, i, name) && x == entries[i].value
              case None => forall i | 0 <= i < n :: !Gives(debug, entries, i, name)
    decreases n
  {
    if 0 < n <= |entries| {
      var m := n - 1;
      LastEntryMeans(debug, entries, m, name);
      NothingMeans(entries[m].value);
      PrintsMeans(debug, entries[m].key, name);
      if Gives(debug, entries, m, name) {
        assert GivesLast(debug, entries, n, m, name);
      } else if LastEntry(debug, entries, m, name).Some? {
        var i: nat :| GivesLast(debug, entries, m, i, name)
                      && LastEntry(debug, entries, m, name).value == entries[i].value;
        assert GivesLast(debug, entries, n, i, name);
      }
    }
  }

  /** A section of a file is what was given last under its name, normalised; if nothing was, it is empty. */
  lemma SectionMeans(debug: Value -> string, entries: seq<Entry>, name: string)
    ensures forall i: nat | GivesLast(debug, entries, |entries|, i, name) ::
              SectionValue(Normalized(debug, Mapping(entries)), name) == Normalized(debug, entries[i].value)
    ensures (forall i | 0 <= i < |entries| :: !Gives(debug, entries, i, name)) ==>
              SectionValue(Normalized(debug, Mapping(entries)), name) == Mapping([])
  {
    SectionIsLastEntry(debug, entries, name);
    LastEntryMeans(debug, entries, |entries|, name);
  }

  lemma {:induction false} FindMeans(entries: seq<Entry>, key: Value)
    ensures match Find(entries, key)
            case Some(x) =>
              exists i: nat :: i < |entries| && entries[i] == Entry(key, x)
                               && forall k | 0 <= k < i :: entries[k].key != key
            case None => forall e | e in entries :: e.key != key
    decreases |entries|
  {
    if entries != [] {
      FindMeans(entries[1..], key);
      assert entries == [entries[0]] + entries[1..];
      if entries[0].key == key {
        assert entries[0] == Entry(key, entries[0].value);
      } else if Find(entries[1..], key).Some? {
        var i: nat :| i < |entries[1..]| && entries[1..][i] == Entry(key, Find(entries[1..], key).value)
                      && forall k | 0 <= k < i :: entries[1..][k].key != key;
        assert entries[i + 1] == entries[1..][i] && forall k | 0 < k < i + 1 :: entries[k] == entries[1..][k - 1];
      }
    }
  }

  /**
   Looking a section up goes through tags; in a mapping it takes the first entry whose key is the name as a
   string, and what is no mapping has empty sections only.
   */
  lemma LookupMeans(v: Value, name: string)
    ensures v.Tagged? ==> SectionValue(v, name) == SectionValue(v.inner, name)
    ensures v.Mapping? ==>
              || (exists i: nat :: i < |v.entries| && v.entries[i] == Entry(Str(name), SectionValue(v, name))
                                   && forall k | 0 <= k < i :: v.entries[k].key != Str(name))
              || (SectionValue(v, name) == Mapping([]) && forall e | e in v.entries :: e.key != Str(name))
    ensures !v.Tagged? && !v.Mapping? ==> SectionValue(v, name) == Mapping([])
  {
    if v.Mapping? {
      FindMeans(v.entries, Str(name));
    }
  }
}
