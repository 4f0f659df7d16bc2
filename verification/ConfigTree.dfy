/** The trees `config` prints: dropping what is unset, and putting keys in order. */
module ConfigTree {
  import opened Prelude
  import opened TextOrder

  // ----- entries, whatever they hold -----

  type Entries<K, V> = seq<(K, V)>

  /** What a list of entries says; a later one replaces an earlier one. */
  function MapOf<K(==), V>(e: Entries<K, V>): map<K, V> {
    if e == [] then map[] else MapOf(e[..|e| - 1])[e[|e| - 1].0 := e[|e| - 1].1]
  }

  ghost predicate DistinctKeys<K, V>(e: Entries<K, V>) {
    forall i, j :: 0 <= i < j < |e| ==> e[i].0 != e[j].0
  }

  ghost predicate InOrder<V>(e: Entries<string, V>) {
    forall i, j :: 0 <= i < j < |e| ==> Less(e[i].0, e[j].0)
  }

  /** `BTreeMap::insert` */
  function Insert<V>(e: Entries<string, V>, k: string, v: V): Entries<string, V> {
    if e == [] || Less(k, e[0].0) then [(k, v)] + e
    else if e[0].0 == k then [(k, v)] + e[1..]
    else [e[0]] + Insert(e[1..], k, v)
  }

  /** Collecting into a `BTreeMap`. */
  function SortEntries<V>(e: Entries<string, V>): Entries<string, V> {
    if e == [] then [] else Insert(SortEntries(e[..|e| - 1]), e[|e| - 1].0, e[|e| - 1].1)
  }

  lemma MapOfFront<K, V>(first: (K, V), rest: Entries<K, V>, k: K)
    ensures (k in MapOf([first] + rest) <==> k == first.0 || k in MapOf(rest))
    ensures k in MapOf(rest) ==> MapOf([first] + rest)[k] == MapOf(rest)[k]
    ensures k == first.0 && k !in MapOf(rest) ==> MapOf([first] + rest)[k] == first.1
  {
    var e := [first] + rest;
    if rest == [] {
      assert e[..0] == [];
    } else {
      assert e[..|e| - 1] == [first] + rest[..|rest| - 1];
      MapOfFront(first, rest[..|rest| - 1], k);
    }
  }

  lemma {:induction false} MapOfKeys<K, V>(e: Entries<K, V>, k: K)
    ensures k in MapOf(e) <==> exists i :: 0 <= i < |e| && e[i].0 == k
  {
    if e != [] {
      var n := |e| - 1;
      MapOfKeys(e[..n], k);
      if k in MapOf(e[..n]) {
        var i :| 0 <= i < n && e[..n][i].0 == k;
        assert e[i].0 == k;
      }
      if i :| 0 <= i < |e| && e[i].0 == k {
        assert i < n ==> e[..n][i].0 == k;
      }
    }
  }

  /** With distinct keys each entry is what the map says of its key. */
  lemma {:induction false} MapOfAt<K, V>(e: Entries<K, V>, i: nat)
    requires DistinctKeys(e) && i < |e|
    ensures e[i].0 in MapOf(e) && MapOf(e)[e[i].0] == e[i].1
  {
    var n := |e| - 1;
    if i < n {
      MapOfAt(e[..n], i);
      assert e[..n][i] == e[i];
    }
  }

  lemma OrderIsDistinct<V>(e: Entries<string, V>)
    requires InOrder(e)
    ensures DistinctKeys(e)
  {
    hide Less;
    forall i, j | 0 <= i < j < |e| ensures e[i].0 != e[j].0 {
      LessIsTotal(e[i].0, e[j].0);
    }
  }

  lemma {:induction false} InsertKeys<V>(e: Entries<string, V>, k: string, v: V, i: nat)
    requires i < |Insert(e, k, v)|
    ensures Insert(e, k, v)[i].0 == k || exists j :: 0 <= j < |e| && e[j].0 == Insert(e, k, v)[i].0
  {
    hide Less;
    var r := Insert(e, k, v);
    if e == [] || Less(k, e[0].0) {
      assert i > 0 ==> r[i] == e[i - 1];
    } else if e[0].0 == k {
      assert i > 0 ==> r[i] == e[i];
    } else if i == 0 {
      assert r[0] == e[0];
    } else {
      InsertKeys(e[1..], k, v, i - 1);
      assert r[i] == Insert(e[1..], k, v)[i - 1];
      if r[i].0 != k {
        var j :| 0 <= j < |e[1..]| && e[1..][j].0 == r[i].0;
        assert e[j + 1].0 == r[i].0;
      }
    }
  }

  lemma {:induction false} InsertInOrder<V>(e: Entries<string, V>, k: string, v: V)
    requires InOrder(e)
    ensures InOrder(Insert(e, k, v))
  {
    hide Less;
    var r := Insert(e, k, v);
    if e == [] {
    } else if Less(k, e[0].0) {
      LeastComesFirst(e, k, v);
    } else if e[0].0 == k {
      assert forall i :: 0 < i < |r| ==> r[i] == e[i];
    } else {
      hide Insert;
      LessIsTotal(k, e[0].0);
      var rest := Insert(e[1..], k, v);
      InsertInOrder(e[1..], k, v);
      forall i | 0 <= i < |rest| ensures Less(e[0].0, rest[i].0) {
        InsertKeys(e[1..], k, v, i);
        if rest[i].0 != k {
          var j :| 0 <= j < |e[1..]| && e[1..][j].0 == rest[i].0;
          assert e[j + 1].0 == rest[i].0;
        }
      }
      assert r == [e[0]] + rest by { InsertLater(e, k, v); }
      assert forall i :: 0 < i < |r| ==> r[i] == rest[i - 1];
    }
  }

  lemma InsertLater<V>(e: Entries<string, V>, k: string, v: V)
    requires e != [] && e[0].0 != k && !Less(k, e[0].0)
    ensures Insert(e, k, v) == [e[0]] + Insert(e[1..], k, v)
  {}

  lemma LeastComesFirst<V>(e: Entries<string, V>, k: string, v: V)
    requires InOrder(e) && e != [] && Less(k, e[0].0)
    ensures InOrder([(k, v)] + e)
  {
    hide Less;
    var r := [(k, v)] + e;
    forall j | 0 <= j < |e| ensures Less(k, e[j].0) {
      if j > 0 {
        LessIsTransitive(k, e[0].0, e[j].0);
      }
    }
    assert forall i :: 0 < i < |r| ==> r[i] == e[i - 1];
  }

  lemma {:induction false} InsertSays<V>(e: Entries<string, V>, k: string, v: V)
    requires InOrder(e)
    ensures MapOf(Insert(e, k, v)) == MapOf(e)[k := v]
  {
    hide Less;
    if e == [] {
      assert [(k, v)][..0] == [];
    } else {
      assert e == [e[0]] + e[1..];
      forall j: string ensures (j in MapOf(Insert(e, k, v)) <==> j in MapOf(e)[k := v])
                       ensures j in MapOf(e)[k := v] && j in MapOf(Insert(e, k, v)) ==> MapOf(Insert(e, k, v))[j] == MapOf(e)[k := v][j] {
        MapOfFront(e[0], e[1..], j);
        MapOfKeys(e, j);
        MapOfKeys(e[1..], j);
        if Less(k, e[0].0) {
          BelowAll(e, k);
          MapOfKeys(e, k);
          MapOfFront((k, v), e, j);
        } else if e[0].0 == k {
          FirstIsAlone(e);
          MapOfKeys(e[1..], k);
          MapOfFront((k, v), e[1..], j);
        } else {
          InsertSays(e[1..], k, v);
          FirstIsAlone(e);
          MapOfFront(e[0], Insert(e[1..], k, v), j);
        }
      }
    }
  }

  lemma BelowAll<V>(e: Entries<string, V>, k: string)
    requires InOrder(e) && e != [] && Less(k, e[0].0)
    ensures forall i :: 0 <= i < |e| ==> e[i].0 != k
  {
    hide Less;
    forall i | 0 <= i < |e| ensures e[i].0 != k {
      if i > 0 {
        LessIsTransitive(k, e[0].0, e[i].0);
      }
      LessIsTotal(k, e[i].0);
    }
  }

  lemma FirstIsAlone<V>(e: Entries<string, V>)
    requires InOrder(e) && e != []
    ensures forall i :: 0 <= i < |e[1..]| ==> e[1..][i].0 != e[0].0
  {
    OrderIsDistinct(e);
  }

  /** Sorting puts the keys in order and keeps what the entries say. */
  lemma {:induction false} SortEntriesSays<V>(e: Entries<string, V>)
    ensures InOrder(SortEntries(e)) && MapOf(SortEntries(e)) == MapOf(e)
  {
    hide Less, Insert;
    if e != [] {
      var n := |e| - 1;
      SortEntriesSays(e[..n]);
      InsertInOrder(SortEntries(e[..n]), e[n].0, e[n].1);
      InsertSays(SortEntries(e[..n]), e[n].0, e[n].1);
    }
  }

  /** In order there is one way to say it. */
  lemma {:induction false} OrderedIsUnique<V>(a: Entries<string, V>, b: Entries<string, V>)
    requires InOrder(a) && InOrder(b) && MapOf(a) == MapOf(b)
    ensures a == b
  {
    hide Less;
    var (x, y) := (KeysOf(a), KeysOf(b));
    forall k ensures k in SetOf(x) <==> k in SetOf(y) {
      MapOfKeys(a, k);
      MapOfKeys(b, k);
      InKeys(a, k);
      InKeys(b, k);
    }
    SortedIsUnique(x, y);
    OrderIsDistinct(a);
    OrderIsDistinct(b);
    forall i | 0 <= i < |a| ensures a[i] == b[i] {
      assert x[i] == y[i];
      MapOfAt(a, i);
      MapOfAt(b, i);
    }
  }

  function KeysOf<V>(e: Entries<string, V>): seq<string> {
    seq(|e|, i requires 0 <= i < |e| => e[i].0)
  }

  lemma InKeys<V>(e: Entries<string, V>, k: string)
    ensures k in SetOf(KeysOf(e)) <==> exists i :: 0 <= i < |e| && e[i].0 == k
  {
    if k in SetOf(KeysOf(e)) {
      var i :| 0 <= i < |KeysOf(e)| && KeysOf(e)[i] == k;
      assert e[i].0 == k;
    }
    if i :| 0 <= i < |e| && e[i].0 == k {
      assert KeysOf(e)[i] == k;
    }
  }

  // ----- JSON -----

  datatype Json =
    | JNull
    | JBool(b: bool)
    | JNumber(text: string)
    | JString(s: string)
    | JArray(items: seq<Json>)
    | JObject(entries: Entries<string, Json>)

  predicate IsEmptyJson(v: Json) {
    v.JNull? || (v.JObject? && v.entries == [])
  }

  predicate KeepsNulls(key: string) {
    key == "environment" || key == "networks"
  }

  /** `retain(|_, val| !is_empty_json(val))` */
  function Retain(e: Entries<string, Json>): Entries<string, Json> {
    if e == [] then []
    else Retain(e[..|e| - 1]) + if IsEmptyJson(e[|e| - 1].1) then [] else [e[|e| - 1]]
  }

  /** `prune_json` */
  function PruneJson(v: Json, preserve: bool): Json {
    match v
    case JObject(m) =>
      var pruned := seq(|m|, i requires 0 <= i < |m| => (m[i].0, PruneJson(m[i].1, KeepsNulls(m[i].0))));
      JObject(if preserve then pruned else Retain(pruned))
    case JArray(a) => JArray(seq(|a|, i requires 0 <= i < |a| => PruneJson(a[i], false)))
    case _ => v
  }

  /** Nothing is left to prune: no null and no empty object is an entry, except
      directly under `environment` or `networks`. */
  predicate Pruned(v: Json, preserve: bool) {
    match v
    case JObject(m) =>
      && (!preserve ==> forall i :: 0 <= i < |m| ==> !IsEmptyJson(m[i].1))
      && forall i :: 0 <= i < |m| ==> Pruned(m[i].1, KeepsNulls(m[i].0))
    case JArray(a) => forall i :: 0 <= i < |a| ==> Pruned(a[i], false)
    case _ => true
  }

  lemma {:induction false} RetainKeeps(e: Entries<string, Json>)
    ensures forall i :: 0 <= i < |Retain(e)| ==> !IsEmptyJson(Retain(e)[i].1) && Retain(e)[i] in e
    ensures (forall i :: 0 <= i < |e| ==> !IsEmptyJson(e[i].1)) ==> Retain(e) == e
  {
    if e != [] {
      var n := |e| - 1;
      RetainKeeps(e[..n]);
      assert e == e[..n] + [e[n]];
    }
  }

  function PrunedEntries(m: Entries<string, Json>): Entries<string, Json> {
    seq(|m|, i requires 0 <= i < |m| => (m[i].0, PruneJson(m[i].1, KeepsNulls(m[i].0))))
  }

  lemma PruneObject(m: Entries<string, Json>, preserve: bool)
    ensures PruneJson(JObject(m), preserve) == JObject(if preserve then PrunedEntries(m) else Retain(PrunedEntries(m)))
  {
    var v := JObject(m);
    assert PrunedEntries(m) == seq(|v.entries|, i requires 0 <= i < |v.entries| => (v.entries[i].0, PruneJson(v.entries[i].1, KeepsNulls(v.entries[i].0))));
  }

  /** A null under a key, and one level above it: kept directly under `environment` and
      `networks`, gone with all that is left of its object anywhere else; an empty array
      is never nothing. */
  lemma NullsAreKeptOnlyUnder(name: string, k: string)
    ensures var v := JObject([(name, JObject([(k, JNull)]))]);
            PruneJson(v, false) == if name == "environment" || name == "networks" then v else JObject([])
    ensures PruneJson(JObject([(name, JArray([]))]), false) == JObject([(name, JArray([]))])
  {
    hide PruneJson, KeepsNulls;
    PruneLeaves();
    KeepsNullsIs(name);
    PruneOne(k, JNull, KeepsNulls(name));
    PruneOne(name, JObject([(k, JNull)]), false);
    PruneOne(name, JArray([]), false);
  }

  lemma KeepsNullsIs(name: string)
    ensures KeepsNulls(name) <==> name == "environment" || name == "networks"
  {}

  lemma PruneLeaves()
    ensures forall preserve :: PruneJson(JNull, preserve) == JNull && PruneJson(JArray([]), preserve) == JArray([])
  {}

  /** An object of one entry. */
  lemma PruneOne(name: string, v: Json, preserve: bool)
    ensures var w := PruneJson(v, KeepsNulls(name));
            PruneJson(JObject([(name, v)]), preserve) == JObject(if !preserve && (w == JNull || w == JObject([])) then [] else [(name, w)])
  {
    hide PruneJson, KeepsNulls, Retain;
    var (m, w) := ([(name, v)], PruneJson(v, KeepsNulls(name)));
    PruneObject(m, preserve);
    assert PrunedEntries(m) == [(name, w)];
    RetainOne((name, w));
  }

  lemma RetainOne(e: (string, Json))
    ensures Retain([e]) == if e.1 == JNull || e.1 == JObject([]) then [] else [e]
  {
    assert [e][..0] == [];
  }

  /** What pruning leaves has nothing left to prune. */
  lemma {:induction false} PruneLeavesNothingEmpty(v: Json, preserve: bool)
    ensures Pruned(PruneJson(v, preserve), preserve)
  {
    match v
    case JObject(m) =>
      hide PruneJson, IsEmptyJson;
      var e := PrunedEntries(m);
      PruneObject(m, preserve);
      forall i | 0 <= i < |e| ensures Pruned(e[i].1, KeepsNulls(e[i].0)) {
        PruneLeavesNothingEmpty(m[i].1, KeepsNulls(m[i].0));
      }
      if !preserve {
        RetainKeeps(e);
        forall i | 0 <= i < |Retain(e)| ensures Pruned(Retain(e)[i].1, KeepsNulls(Retain(e)[i].0)) {
          var j :| 0 <= j < |e| && e[j] == Retain(e)[i];
        }
      }
    case JArray(a) =>
      forall i | 0 <= i < |a| ensures Pruned(PruneJson(a[i], false), false) {
        PruneLeavesNothingEmpty(a[i], false);
      }
    case _ =>
  }

  /** Pruning changes exactly the trees that have something to prune. */
  lemma {:induction false} PruneFixes(v: Json, preserve: bool)
    ensures PruneJson(v, preserve) == v <==> Pruned(v, preserve)
  {
    if Pruned(v, preserve) {
      PruneOfPruned(v, preserve);
    }
    if PruneJson(v, preserve) == v {
      PruneLeavesNothingEmpty(v, preserve);
    }
  }

  lemma {:induction false} PruneOfPruned(v: Json, preserve: bool)
    requires Pruned(v, preserve)
    ensures PruneJson(v, preserve) == v
  {
    match v
    case JObject(m) =>
      hide PruneJson, IsEmptyJson;
      var e := PrunedEntries(m);
      PruneObject(m, preserve);
      forall i | 0 <= i < |m| ensures e[i] == m[i] {
        PruneOfPruned(m[i].1, KeepsNulls(m[i].0));
      }
      assert e == m;
      RetainKeeps(e);
    case JArray(a) =>
      forall i | 0 <= i < |a| ensures PruneJson(a[i], false) == a[i] {
        PruneOfPruned(a[i], false);
      }
      assert PruneJson(v, preserve).items == a;
    case _ =>
  }

  /** Pruning twice is pruning once. */
  lemma PruneTwice(v: Json, preserve: bool)
    ensures PruneJson(PruneJson(v, preserve), preserve) == PruneJson(v, preserve)
  {
    PruneLeavesNothingEmpty(v, preserve);
    PruneOfPruned(PruneJson(v, preserve), preserve);
  }

  // ----- values under the same keys -----

  function MapValues<K, V, W>(e: Entries<K, V>, f: (K, V) -> W): (r: Entries<K, W>)
    ensures |r| == |e|
  {
    seq(|e|, i requires 0 <= i < |e| => (e[i].0, f(e[i].0, e[i].1)))
  }

  lemma {:induction false} MapValuesSays<K, V, W>(e: Entries<K, V>, f: (K, V) -> W, k: K)
    ensures k in MapOf(MapValues(e, f)) <==> k in MapOf(e)
    ensures k in MapOf(e) && k in MapOf(MapValues(e, f)) ==> MapOf(MapValues(e, f))[k] == f(k, MapOf(e)[k])
  {
    if e != [] {
      var n := |e| - 1;
      MapValuesSays(e[..n], f, k);
      assert MapValues(e, f)[..n] == MapValues(e[..n], f);
    }
  }

  lemma MapValuesInOrder<V, W>(e: Entries<string, V>, f: (string, V) -> W)
    ensures InOrder(e) ==> InOrder(MapValues(e, f))
    ensures DistinctKeys(e) ==> DistinctKeys(MapValues(e, f))
  {
    hide Less;
  }

  lemma {:induction false} RetainSays(e: Entries<string, Json>, k: string)
    requires DistinctKeys(e)
    ensures k in MapOf(Retain(e)) <==> k in MapOf(e) && !IsEmptyJson(MapOf(e)[k])
    ensures k in MapOf(Retain(e)) && k in MapOf(e) ==> MapOf(Retain(e))[k] == MapOf(e)[k]
  {
    if e != [] {
      hide IsEmptyJson;
      var n := |e| - 1;
      RetainSays(e[..n], k);
      MapOfKeys(e[..n], e[n].0);
      assert e[n].0 !in MapOf(e[..n]);
      if !IsEmptyJson(e[n].1) {
        assert Retain(e) == Retain(e[..n]) + [e[n]];
        assert Retain(e)[..|Retain(e)| - 1] == Retain(e[..n]);
      } else {
        assert Retain(e) == Retain(e[..n]);
      }
    }
  }

  lemma {:induction false} RetainInOrder(e: Entries<string, Json>)
    requires InOrder(e)
    ensures InOrder(Retain(e))
  {
    hide Less, IsEmptyJson;
    if e != [] {
      var n := |e| - 1;
      RetainInOrder(e[..n]);
      RetainIsBelow(e[..n], e[n].0);
    }
  }

  lemma RetainIsBelow(e: Entries<string, Json>, k: string)
    requires forall i :: 0 <= i < |e| ==> Less(e[i].0, k)
    ensures forall i :: 0 <= i < |Retain(e)| ==> Less(Retain(e)[i].0, k)
  {
    hide Less, IsEmptyJson, Retain;
    RetainKeeps(e);
    forall i | 0 <= i < |Retain(e)| ensures Less(Retain(e)[i].0, k) {
      var j :| 0 <= j < |e| && e[j] == Retain(e)[i];
    }
  }

  // ----- sorting -----

  /** `sorted_keys` */
  function SortKeys(v: Json): Json {
    match v
    case JObject(m) => JObject(SortEntries(seq(|m|, i requires 0 <= i < |m| => (m[i].0, SortKeys(m[i].1)))))
    case JArray(a) => JArray(seq(|a|, i requires 0 <= i < |a| => SortKeys(a[i])))
    case _ => v
  }

  /** A value with no order among its keys. */
  datatype Tree =
    | TNull
    | TBool(b: bool)
    | TNumber(text: string)
    | TString(s: string)
    | TArray(items: seq<Tree>)
    | TObject(fields: map<string, Tree>)

  function AsTree(v: Json): Tree {
    match v
    case JNull => TNull
    case JBool(b) => TBool(b)
    case JNumber(text) => TNumber(text)
    case JString(s) => TString(s)
    case JArray(a) => TArray(seq(|a|, i requires 0 <= i < |a| => AsTree(a[i])))
    case JObject(m) => TObject(MapOf(seq(|m|, i requires 0 <= i < |m| => (m[i].0, AsTree(m[i].1)))))
  }

  function Sorting(): (string, Json) -> Json {
    (k, v) => SortKeys(v)
  }

  function Treeing(): (string, Json) -> Tree {
    (k, v) => AsTree(v)
  }

  function Pruning(): (string, Json) -> Json {
    (k, v) => PruneJson(v, KeepsNulls(k))
  }

  lemma SortObject(m: Entries<string, Json>)
    ensures SortKeys(JObject(m)) == JObject(SortEntries(MapValues(m, Sorting())))
  {
    var v := JObject(m);
    assert MapValues(m, Sorting()) == seq(|v.entries|, i requires 0 <= i < |v.entries| => (v.entries[i].0, SortKeys(v.entries[i].1)));
  }

  lemma TreeObject(m: Entries<string, Json>)
    ensures AsTree(JObject(m)) == TObject(MapOf(MapValues(m, Treeing())))
  {
    var v := JObject(m);
    assert MapValues(m, Treeing()) == seq(|v.entries|, i requires 0 <= i < |v.entries| => (v.entries[i].0, AsTree(v.entries[i].1)));
  }

  lemma PruneObjectValues(m: Entries<string, Json>, preserve: bool)
    ensures PruneJson(JObject(m), preserve) ==
            JObject(if preserve then MapValues(m, Pruning()) else Retain(MapValues(m, Pruning())))
  {
    PruneObject(m, preserve);
    assert PrunedEntries(m) == MapValues(m, Pruning());
  }

  /** Where in the entries a value of the map stands. */
  lemma {:induction false} ValueIsAnEntry<K, V>(e: Entries<K, V>, k: K)
    requires k in MapOf(e)
    ensures exists i :: 0 <= i < |e| && e[i] == (k, MapOf(e)[k])
  {
    var n := |e| - 1;
    if e[n].0 != k {
      ValueIsAnEntry(e[..n], k);
      var i :| 0 <= i < n && e[..n][i] == (k, MapOf(e[..n])[k]);
      assert e[i] == (k, MapOf(e)[k]);
    } else {
      assert e[n] == (k, MapOf(e)[k]);
    }
  }

  lemma SortedEntriesSayTheSame(m: Entries<string, Json>)
    requires forall i :: 0 <= i < |m| ==> AsTree(SortKeys(m[i].1)) == AsTree(m[i].1)
    ensures MapOf(MapValues(SortEntries(MapValues(m, Sorting())), Treeing())) == MapOf(MapValues(m, Treeing()))
  {
    hide SortKeys, AsTree, MapOf, SortEntries, InOrder;
    var sorted := SortEntries(MapValues(m, Sorting()));
    SortEntriesSays(MapValues(m, Sorting()));
    forall k: string
      ensures k in MapOf(MapValues(sorted, Treeing())) <==> k in MapOf(MapValues(m, Treeing()))
      ensures k in MapOf(MapValues(sorted, Treeing())) && k in MapOf(MapValues(m, Treeing())) ==>
                MapOf(MapValues(sorted, Treeing()))[k] == MapOf(MapValues(m, Treeing()))[k]
    {
      MapValuesSays(sorted, Treeing(), k);
      MapValuesSays(m, Sorting(), k);
      MapValuesSays(m, Treeing(), k);
      if k in MapOf(m) {
        ValueIsAnEntry(m, k);
        var i :| 0 <= i < |m| && m[i] == (k, MapOf(m)[k]);
      }
    }
    assert MapOf(MapValues(sorted, Treeing())) == MapOf(MapValues(m, Treeing()));
  }

  /** Sorting keeps what the value says. */
  lemma {:induction false} SortingKeepsTheTree(v: Json)
    ensures AsTree(SortKeys(v)) == AsTree(v)
  {
    match v
    case JObject(m) =>
      forall i | 0 <= i < |m| ensures AsTree(SortKeys(m[i].1)) == AsTree(m[i].1) {
        SortingKeepsTheTree(m[i].1);
      }
      hide SortKeys, AsTree, MapOf, SortEntries, InOrder;
      SortObject(m);
      TreeObject(m);
      TreeObject(SortEntries(MapValues(m, Sorting())));
      SortedEntriesSayTheSame(m);
    case JArray(a) =>
      forall i | 0 <= i < |a| ensures AsTree(SortKeys(a[i])) == AsTree(a[i]) {
        SortingKeepsTheTree(a[i]);
      }
      assert AsTree(SortKeys(v)).items == AsTree(v).items;
    case _ =>
  }

  /** Values that say the same sort to the same text. */
  lemma {:induction false} SameTreeSortsAlike(a: Json, b: Json)
    requires AsTree(a) == AsTree(b)
    ensures SortKeys(a) == SortKeys(b)
    decreases a
  {
    match a
    case JObject(m) =>
      assert b.JObject?;
      SameFieldsSortAlike(m, b.entries);
    case JArray(x) =>
      var y := b.items;
      assert |AsTree(a).items| == |x| && |AsTree(b).items| == |y|;
      forall i | 0 <= i < |x| ensures SortKeys(x[i]) == SortKeys(y[i]) {
        assert AsTree(a).items[i] == AsTree(b).items[i];
        SameTreeSortsAlike(x[i], y[i]);
      }
      assert SortKeys(a).items == SortKeys(b).items;
    case _ =>
  }

  lemma {:induction false} SameFieldsSortAlike(m: Entries<string, Json>, n: Entries<string, Json>)
    requires AsTree(JObject(m)) == AsTree(JObject(n))
    ensures SortKeys(JObject(m)) == SortKeys(JObject(n))
    decreases JObject(m), 0
  {
    hide SortKeys, AsTree, MapOf, SortEntries;
    SortObject(m);
    SortObject(n);
    TreeObject(m);
    TreeObject(n);
    var (x, y) := (MapValues(m, Sorting()), MapValues(n, Sorting()));
    forall k: string
      ensures k in MapOf(x) <==> k in MapOf(y)
      ensures k in MapOf(x) && k in MapOf(y) ==> MapOf(x)[k] == MapOf(y)[k]
    {
      MapValuesSays(m, Treeing(), k);
      MapValuesSays(n, Treeing(), k);
      MapValuesSays(m, Sorting(), k);
      MapValuesSays(n, Sorting(), k);
      if k in MapOf(m) {
        ValueIsAnEntry(m, k);
        var i :| 0 <= i < |m| && m[i] == (k, MapOf(m)[k]);
        assert JObject(m).entries[i].1 == MapOf(m)[k];
        SameTreeSortsAlike(m[i].1, MapOf(n)[k]);
      }
    }
    assert MapOf(x) == MapOf(y);
    SortEntriesSays(x);
    SortEntriesSays(y);
    OrderedIsUnique(SortEntries(x), SortEntries(y));
  }

  /** Two values sort to the same text exactly when they are equal up to the order of
      their keys, which is what makes the hash of a service stable and telling. */
  lemma SortsAlikeIffSameTree(a: Json, b: Json)
    ensures SortKeys(a) == SortKeys(b) <==> AsTree(a) == AsTree(b)
  {
    SortingKeepsTheTree(a);
    SortingKeepsTheTree(b);
    if AsTree(a) == AsTree(b) {
      SameTreeSortsAlike(a, b);
    }
  }

  // ----- pruning and sorting -----

  /** No object has a key twice, as no `serde_json::Map` does. */
  ghost predicate WellFormed(v: Json) {
    match v
    case JObject(m) => DistinctKeys(m) && forall i :: 0 <= i < |m| ==> WellFormed(m[i].1)
    case JArray(a) => forall i :: 0 <= i < |a| ==> WellFormed(a[i])
    case _ => true
  }

  lemma {:induction false} SortingKeepsEmptiness(v: Json)
    ensures IsEmptyJson(SortKeys(v)) <==> IsEmptyJson(v)
  {
    if v.JObject? {
      SortObject(v.entries);
      SortEntriesLength(MapValues(v.entries, Sorting()));
    }
  }

  lemma SortEntriesLength<V>(e: Entries<string, V>)
    ensures SortEntries(e) == [] <==> e == []
  {
    if e != [] {
      var n := |e| - 1;
      assert Insert(SortEntries(e[..n]), e[n].0, e[n].1) != [];
    }
  }

  /** It does not matter whether a value is pruned first or sorted first. */
  lemma {:induction false} PruningCommutesWithSorting(v: Json, preserve: bool)
    requires WellFormed(v)
    ensures PruneJson(SortKeys(v), preserve) == SortKeys(PruneJson(v, preserve))
  {
    match v
    case JObject(m) =>
      forall i | 0 <= i < |m| ensures PruneJson(SortKeys(m[i].1), KeepsNulls(m[i].0)) == SortKeys(PruneJson(m[i].1, KeepsNulls(m[i].0))) {
        PruningCommutesWithSorting(m[i].1, KeepsNulls(m[i].0));
      }
      ObjectsCommute(m, preserve);
    case JArray(a) =>
      forall i | 0 <= i < |a| ensures PruneJson(SortKeys(a[i]), false) == SortKeys(PruneJson(a[i], false)) {
        PruningCommutesWithSorting(a[i], false);
      }
      assert PruneJson(SortKeys(v), preserve).items == SortKeys(PruneJson(v, preserve)).items;
    case _ =>
  }

  lemma ObjectsCommute(m: Entries<string, Json>, preserve: bool)
    requires DistinctKeys(m)
    requires forall i :: 0 <= i < |m| ==> PruneJson(SortKeys(m[i].1), KeepsNulls(m[i].0)) == SortKeys(PruneJson(m[i].1, KeepsNulls(m[i].0)))
    ensures PruneJson(SortKeys(JObject(m)), preserve) == SortKeys(PruneJson(JObject(m), preserve))
  {
    hide SortKeys, PruneJson, MapOf, SortEntries, Less, IsEmptyJson, Retain;
    var sorted := SortEntries(MapValues(m, Sorting()));
    var pruned := MapValues(m, Pruning());
    var x := MapValues(sorted, Pruning());
    var (l, e) := (if preserve then x else Retain(x), if preserve then pruned else Retain(pruned));
    var y := MapValues(e, Sorting());
    SortObject(m);
    PruneObjectValues(sorted, preserve);
    PruneObjectValues(m, preserve);
    SortObject(e);
    SortEntriesSays(MapValues(m, Sorting()));
    MapValuesInOrder(sorted, Pruning());
    OrderIsDistinct(x);
    MapValuesInOrder(m, Pruning());
    if !preserve {
      RetainInOrder(x);
    }
    forall k: string
      ensures k in MapOf(l) <==> k in MapOf(y)
      ensures k in MapOf(l) && k in MapOf(y) ==> MapOf(l)[k] == MapOf(y)[k]
    {
      MapValuesSays(m, Sorting(), k);
      MapValuesSays(sorted, Pruning(), k);
      MapValuesSays(m, Pruning(), k);
      MapValuesSays(e, Sorting(), k);
      if k in MapOf(m) {
        ValueIsAnEntry(m, k);
        var i :| 0 <= i < |m| && m[i] == (k, MapOf(m)[k]);
        assert PruneJson(SortKeys(m[i].1), KeepsNulls(m[i].0)) == SortKeys(PruneJson(m[i].1, KeepsNulls(m[i].0)));
        SortingKeepsEmptiness(PruneJson(m[i].1, KeepsNulls(m[i].0)));
      }
      if !preserve {
        RetainSays(x, k);
        RetainSays(pruned, k);
      }
    }
    assert MapOf(l) == MapOf(y);
    SortEntriesSays(y);
    OrderedIsUnique(l, SortEntries(y));
  }

  // ----- what pruning does along a path -----

  datatype Step = Key(k: string) | Index(i: nat)

  function At(v: Json, path: seq<Step>): Option<Json>
    decreases |path|
  {
    if path == [] then Some(v)
    else if path[0].Key? && v.JObject? && path[0].k in MapOf(v.entries) then At(MapOf(v.entries)[path[0].k], path[1..])
    else if path[0].Index? && v.JArray? && path[0].i < |v.items| then At(v.items[path[0].i], path[1..])
    else None
  }

  /** Whether nulls are kept in the value a path leads to. */
  function Exempt(preserve: bool, path: seq<Step>): bool {
    if path == [] then preserve
    else
      match path[|path| - 1]
      case Key(k) => KeepsNulls(k)
      case Index(_) => false
  }

  /** The value after one step is the pruned value before it, if it is still there. */
  lemma StepPruned(v: Json, preserve: bool, step: Step)
    requires WellFormed(v)
    ensures At(v, [step]).Some? ==> WellFormed(At(v, [step]).value)
    ensures At(PruneJson(v, preserve), [step]) ==
            match At(v, [step])
            case None => None
            case Some(w) =>
              var pruned := PruneJson(w, Exempt(preserve, [step]));
              if step.Key? && !preserve && IsEmptyJson(pruned) then None else Some(pruned)
  {
    assert [step][1..] == [];
    match v
    case JObject(m) =>
      PruneObjectValues(m, preserve);
      if step.Key? {
        MapValuesSays(m, Pruning(), step.k);
        if step.k in MapOf(m) {
          ValueIsAnEntry(m, step.k);
        }
        MapValuesInOrder(m, Pruning());
        if !preserve {
          RetainSays(MapValues(m, Pruning()), step.k);
        }
      }
    case JArray(a) =>
    case _ =>
  }

  lemma AtSteps(v: Json, path: seq<Step>)
    requires path != []
    ensures At(v, path) == match At(v, [path[0]]) case None => None case Some(w) => At(w, path[1..])
  {
    assert [path[0]][1..] == [];
  }

  /** Whatever is still there is the pruned form of what stood in the same place; so
      an array keeps its length and each item its index. */
  lemma {:induction false} WhatStaysIsPruned(v: Json, preserve: bool, path: seq<Step>)
    requires WellFormed(v) && At(PruneJson(v, preserve), path).Some?
    ensures At(v, path).Some?
    ensures At(PruneJson(v, preserve), path).value == PruneJson(At(v, path).value, Exempt(preserve, path))
    ensures At(v, path).value.JArray? <==> At(PruneJson(v, preserve), path).value.JArray?
    ensures At(v, path).value.JArray? ==> |At(PruneJson(v, preserve), path).value.items| == |At(v, path).value.items|
    decreases |path|
  {
    if path != [] {
      hide PruneJson, At, WellFormed;
      StepPruned(v, preserve, path[0]);
      AtSteps(v, path);
      AtSteps(PruneJson(v, preserve), path);
      var w := At(v, [path[0]]).value;
      var flag := Exempt(preserve, [path[0]]);
      WhatStaysIsPruned(w, flag, path[1..]);
      assert Exempt(flag, path[1..]) == Exempt(preserve, path);
    }
  }

  /** On the way to what is gone stands an entry that came to nothing: null or an empty
      object once pruned, and not exempt. */
  predicate ComesToNothing(v: Json, preserve: bool, path: seq<Step>, n: nat)
    requires 0 < n <= |path|
  {
    && path[n - 1].Key? && !Exempt(preserve, path[..n - 1])
    && At(v, path[..n]).Some?
    && IsEmptyJson(PruneJson(At(v, path[..n]).value, Exempt(preserve, path[..n])))
  }

  lemma {:induction false} WhatGoesCameToNothing(v: Json, preserve: bool, path: seq<Step>) returns (n: nat)
    requires WellFormed(v) && At(v, path).Some? && At(PruneJson(v, preserve), path).None?
    ensures 0 < n <= |path| && ComesToNothing(v, preserve, path, n)
    decreases |path|
  {
    hide PruneJson, At, WellFormed;
    assert path != [] by { AtNothing(v); AtNothing(PruneJson(v, preserve)); }
    StepPruned(v, preserve, path[0]);
    AtSteps(v, path);
    AtSteps(PruneJson(v, preserve), path);
    var w := At(v, [path[0]]).value;
    var flag := Exempt(preserve, [path[0]]);
    assert path[..1] == [path[0]] && path[..0] == [];
    if path[0].Key? && !preserve && IsEmptyJson(PruneJson(w, flag)) {
      return 1;
    }
    var rest := path[1..];
    var j := WhatGoesCameToNothing(w, flag, rest);
    n := j + 1;
    AtSteps(v, path[..n]);
    assert path[..n][1..] == rest[..j];
    assert path[..n][0] == path[0];
    assert path[n - 1] == rest[j - 1];
    assert Exempt(preserve, path[..n]) == Exempt(flag, rest[..j]);
    assert path[..n - 1] == [path[0]] + rest[..j - 1];
    assert Exempt(preserve, path[..n - 1]) == Exempt(flag, rest[..j - 1]);
  }

  lemma AtNothing(v: Json)
    ensures At(v, []) == Some(v)
  {}

  // ----- YAML -----

  datatype Yaml =
    | YNull
    | YBool(b: bool)
    | YNumber(text: string)
    | YString(s: string)
    | YSequence(items: seq<Yaml>)
    | YMapping(entries: Entries<Yaml, Yaml>)
    | YTagged(tag: string, value: Yaml)

  /** `Value::as_str`, which looks through tags. */
  function AsStr(k: Yaml): Option<string> {
    match k case YString(s) => Some(s) case YTagged(_, v) => AsStr(v) case _ => None
  }

  predicate IsEmptyYaml(v: Yaml) {
    v.YNull? || (v.YMapping? && v.entries == [])
  }

  predicate YamlKeepsNulls(k: Yaml) {
    AsStr(k) == Some("environment") || AsStr(k) == Some("networks")
  }

  /** A mapping with no order among its keys. */
  datatype YamlTree =
    | Leaf(v: Yaml)
    | Items(items: seq<YamlTree>)
    | Fields(fields: map<Yaml, YamlTree>)

  function AsYamlTree(v: Yaml): YamlTree {
    match v
    case YSequence(a) => Items(seq(|a|, i requires 0 <= i < |a| => AsYamlTree(a[i])))
    case YMapping(m) => Fields(MapOf(seq(|m|, i requires 0 <= i < |m| => (m[i].0, AsYamlTree(m[i].1)))))
    case _ => Leaf(v)
  }

  ghost predicate WellFormedYaml(v: Yaml) {
    match v
    case YMapping(m) => DistinctKeys(m) && forall i :: 0 <= i < |m| ==> WellFormedYaml(m[i].1)
    case YSequence(a) => forall i :: 0 <= i < |a| ==> WellFormedYaml(a[i])
    case _ => true
  }

  /** What pruning should leave of a mapping: the entries that hold something. */
  function RetainYaml(e: Entries<Yaml, Yaml>): Entries<Yaml, Yaml> {
    if e == [] then []
    else RetainYaml(e[..|e| - 1]) + if IsEmptyYaml(e[|e| - 1].1) then [] else [e[|e| - 1]]
  }

  /** Pruning as the JSON form does it, on YAML: a tag is not looked through. */
  function PruneYaml(v: Yaml, preserve: bool): Yaml {
    match v
    case YMapping(m) =>
      var pruned := seq(|m|, i requires 0 <= i < |m| => (m[i].0, PruneYaml(m[i].1, YamlKeepsNulls(m[i].0))));
      YMapping(if preserve then pruned else RetainYaml(pruned))
    case YSequence(a) => YSequence(seq(|a|, i requires 0 <= i < |a| => PruneYaml(a[i], false)))
    case _ => v
  }

  /** JSON written as YAML. */
  function ToYaml(v: Json): Yaml {
    match v
    case JNull => YNull
    case JBool(b) => YBool(b)
    case JNumber(text) => YNumber(text)
    case JString(s) => YString(s)
    case JArray(a) => YSequence(seq(|a|, i requires 0 <= i < |a| => ToYaml(a[i])))
    case JObject(m) => YMapping(EntriesToYaml(seq(|m|, i requires 0 <= i < |m| => (m[i].0, ToYaml(m[i].1)))))
  }

  function EntriesToYaml(e: Entries<string, Yaml>): Entries<Yaml, Yaml> {
    seq(|e|, i requires 0 <= i < |e| => (YString(e[i].0), e[i].1))
  }

  function YamlEntry(e: (string, Json)): (Yaml, Yaml) {
    (YString(e.0), ToYaml(e.1))
  }

  function YamlEntries(m: Entries<string, Json>): Entries<Yaml, Yaml> {
    seq(|m|, i requires 0 <= i < |m| => YamlEntry(m[i]))
  }

  lemma YamlOfObject(m: Entries<string, Json>)
    ensures ToYaml(JObject(m)) == YMapping(YamlEntries(m))
  {
    var v := JObject(m);
    var e := seq(|v.entries|, i requires 0 <= i < |v.entries| => (v.entries[i].0, ToYaml(v.entries[i].1)));
    assert ToYaml(v) == YMapping(EntriesToYaml(e));
    assert EntriesToYaml(e) == YamlEntries(m);
  }

  lemma YamlKeepsEmptiness(v: Json)
    ensures IsEmptyYaml(ToYaml(v)) <==> IsEmptyJson(v)
  {
    if v.JObject? {
      YamlOfObject(v.entries);
    }
  }

  lemma {:induction false} YamlOfRetained(e: Entries<string, Json>)
    ensures RetainYaml(YamlEntries(e)) == YamlEntries(Retain(e))
  {
    if e != [] {
      hide IsEmptyJson, IsEmptyYaml, ToYaml;
      var n := |e| - 1;
      YamlOfRetained(e[..n]);
      assert YamlEntries(e)[..n] == YamlEntries(e[..n]);
      YamlKeepsEmptiness(e[n].1);
      assert Retain(e) == Retain(e[..n]) + if IsEmptyJson(e[n].1) then [] else [e[n]];
    }
  }

  /** The two forms agree: pruning a value and writing it as YAML is writing it as
      YAML and pruning that. */
  lemma {:induction false} YamlPrunesAsJson(v: Json, preserve: bool)
    ensures PruneYaml(ToYaml(v), preserve) == ToYaml(PruneJson(v, preserve))
  {
    match v
    case JObject(m) =>
      forall i | 0 <= i < |m| ensures PruneYaml(ToYaml(m[i].1), KeepsNulls(m[i].0)) == ToYaml(PruneJson(m[i].1, KeepsNulls(m[i].0))) {
        YamlPrunesAsJson(m[i].1, KeepsNulls(m[i].0));
      }
      MappingsAgree(m, preserve);
    case JArray(a) =>
      forall i | 0 <= i < |a| ensures PruneYaml(ToYaml(a[i]), false) == ToYaml(PruneJson(a[i], false)) {
        YamlPrunesAsJson(a[i], false);
      }
      assert PruneYaml(ToYaml(v), preserve).items == ToYaml(PruneJson(v, preserve)).items;
    case _ =>
  }

  lemma MappingsAgree(m: Entries<string, Json>, preserve: bool)
    requires forall i :: 0 <= i < |m| ==> PruneYaml(ToYaml(m[i].1), KeepsNulls(m[i].0)) == ToYaml(PruneJson(m[i].1, KeepsNulls(m[i].0)))
    ensures PruneYaml(ToYaml(JObject(m)), preserve) == ToYaml(PruneJson(JObject(m), preserve))
  {
    hide PruneJson, ToYaml, PruneYaml;
    var y := YamlEntries(m);
    YamlOfObject(m);
    PruneMapping(y, preserve);
    PruneObject(m, preserve);
    var e := PrunedEntries(m);
    assert PrunedYamlEntries(y) == YamlEntries(e);
    YamlOfRetained(e);
    YamlOfObject(if preserve then e else Retain(e));
  }

  function PrunedYamlEntries(m: Entries<Yaml, Yaml>): (r: Entries<Yaml, Yaml>)
    ensures |r| == |m|
  {
    seq(|m|, i requires 0 <= i < |m| => (m[i].0, PruneYaml(m[i].1, YamlKeepsNulls(m[i].0))))
  }

  lemma PruneMapping(m: Entries<Yaml, Yaml>, preserve: bool)
    ensures PruneYaml(YMapping(m), preserve) == YMapping(if preserve then PrunedYamlEntries(m) else RetainYaml(PrunedYamlEntries(m)))
  {
    var v := YMapping(m);
    assert PrunedYamlEntries(m) == seq(|v.entries|, i requires 0 <= i < |v.entries| => (v.entries[i].0, PruneYaml(v.entries[i].1, YamlKeepsNulls(v.entries[i].0))));
  }

  // ----- pruning in place -----

  method PruneJsonInPlace(v: Json, preserve: bool) returns (r: Json)
    ensures r == PruneJson(v, preserve)
    decreases v
  {
    hide IsEmptyJson, Retain;
    match v {
      case JObject(m) =>
        var entries := m;
        var i := 0;
        while i < |entries|
          invariant |entries| == |m| && i <= |m|
          invariant forall j :: 0 <= j < i ==> entries[j] == (m[j].0, PruneJson(m[j].1, KeepsNulls(m[j].0)))
          invariant forall j :: i <= j < |m| ==> entries[j] == m[j]
        {
          var k := entries[i].0;
          var pruned := PruneJsonInPlace(m[i].1, k == "environment" || k == "networks");
          entries := entries[i := (k, pruned)];
          i := i + 1;
        }
        assert entries == PrunedEntries(m);
        PruneObject(m, preserve);
        if !preserve {
          entries := RetainFull(entries);
        }
        r := JObject(entries);
      case JArray(a) =>
        var items := a;
        var i := 0;
        while i < |items|
          invariant |items| == |a| && i <= |a|
          invariant forall j :: 0 <= j < i ==> items[j] == PruneJson(a[j], false)
          invariant forall j :: i <= j < |a| ==> items[j] == a[j]
        {
          var pruned := PruneJsonInPlace(a[i], false);
          items := items[i := pruned];
          i := i + 1;
        }
        r := JArray(items);
        assert items == PruneJson(v, preserve).items;
      case _ =>
        r := v;
    }
  }

  method RetainFull(e: Entries<string, Json>) returns (r: Entries<string, Json>)
    ensures r == Retain(e)
  {
    hide IsEmptyJson;
    r := [];
    var i := 0;
    while i < |e|
      invariant i <= |e| && r == Retain(e[..i])
    {
      assert e[..i + 1][..i] == e[..i];
      if !IsEmptyJson(e[i].1) {
        r := r + [e[i]];
      }
      i := i + 1;
    }
    assert e[..i] == e;
  }

  lemma ShiftedOut<K, V>(e: Entries<K, V>, i: nat)
    requires DistinctKeys(e) && i < |e|
    ensures var r := e[..i] + e[i + 1..]; DistinctKeys(r) && forall x :: x in r <==> x in e && x.0 != e[i].0
  {
    var r := e[..i] + e[i + 1..];
    assert forall j :: 0 <= j < |r| ==> r[j] == e[if j < i then j else j + 1];
    forall x ensures x in r <==> x in e && x.0 != e[i].0 {
      if x in e && x.0 != e[i].0 {
        var j :| 0 <= j < |e| && e[j] == x;
        assert r[if j < i then j else j - 1] == x;
      }
    }
  }

  lemma SwappedOut<K, V>(e: Entries<K, V>, i: nat)
    requires DistinctKeys(e) && i < |e|
    ensures var r := e[i := e[|e| - 1]][..|e| - 1]; DistinctKeys(r) && forall x :: x in r <==> x in e && x.0 != e[i].0
  {
    var n := |e| - 1;
    var r := e[i := e[n]][..n];
    assert forall j :: 0 <= j < n ==> r[j] == e[if j == i then n else j];
    forall x ensures x in r <==> x in e && x.0 != e[i].0 {
      if x in e && x.0 != e[i].0 {
        var j :| 0 <= j < |e| && e[j] == x;
        assert r[if j == n then i else j] == x;
      }
    }
  }

  /** `Mapping::remove`: the entry goes, and the last one may take its place. */
  method Remove(e: Entries<Yaml, Yaml>, k: Yaml) returns (r: Entries<Yaml, Yaml>)
    requires DistinctKeys(e) && exists i :: 0 <= i < |e| && e[i].0 == k
    ensures DistinctKeys(r)
    ensures forall x :: x in r <==> x in e && x.0 != k
  {
    var i := 0;
    while e[i].0 != k
      invariant i < |e| && forall j :: 0 <= j < i ==> e[j].0 != k
      decreases |e| - i
    {
      i := i + 1;
    }
    if * {
      ShiftedOut(e, i);
      r := e[..i] + e[i + 1..];
    } else {
      SwappedOut(e, i);
      r := e[i := e[|e| - 1]][..|e| - 1];
    }
  }

  function EmptyKeys(e: Entries<Yaml, Yaml>): seq<Yaml> {
    if e == [] then []
    else EmptyKeys(e[..|e| - 1]) + if IsEmptyYaml(e[|e| - 1].1) then [e[|e| - 1].0] else []
  }

  lemma {:induction false} EmptyKeysAre(e: Entries<Yaml, Yaml>, k: Yaml)
    ensures k in EmptyKeys(e) <==> exists i :: 0 <= i < |e| && e[i].0 == k && IsEmptyYaml(e[i].1)
  {
    if e != [] {
      hide IsEmptyYaml;
      var n := |e| - 1;
      EmptyKeysAre(e[..n], k);
      if k in EmptyKeys(e[..n]) {
        var i :| 0 <= i < n && e[..n][i].0 == k && IsEmptyYaml(e[..n][i].1);
        assert e[i].0 == k;
      }
      if i :| 0 <= i < |e| && e[i].0 == k && IsEmptyYaml(e[i].1) {
        assert i < n ==> e[..n][i] == e[i];
      }
    }
  }

  lemma {:induction false} EmptyKeysAreDistinct(e: Entries<Yaml, Yaml>)
    requires DistinctKeys(e)
    ensures forall i, j :: 0 <= i < j < |EmptyKeys(e)| ==> EmptyKeys(e)[i] != EmptyKeys(e)[j]
  {
    if e != [] {
      hide IsEmptyYaml;
      var n := |e| - 1;
      EmptyKeysAreDistinct(e[..n]);
      EmptyKeysAre(e[..n], e[n].0);
    }
  }

  method CollectEmptyKeys(e: Entries<Yaml, Yaml>) returns (drop: seq<Yaml>)
    ensures drop == EmptyKeys(e)
  {
    hide IsEmptyYaml;
    drop := [];
    var i := 0;
    while i < |e|
      invariant i <= |e| && drop == EmptyKeys(e[..i])
    {
      assert e[..i + 1][..i] == e[..i];
      if IsEmptyYaml(e[i].1) {
        drop := drop + [e[i].0];
      }
      i := i + 1;
    }
    assert e[..i] == e;
  }

  lemma EmptyEntries(e: Entries<Yaml, Yaml>, x: (Yaml, Yaml))
    requires DistinctKeys(e) && x in e
    ensures x.0 in EmptyKeys(e) <==> IsEmptyYaml(x.1)
  {
    hide IsEmptyYaml;
    EmptyKeysAre(e, x.0);
    var i :| 0 <= i < |e| && e[i] == x;
  }

  /** Collecting the keys to drop, then removing them one by one. */
  method DropEmpty(e: Entries<Yaml, Yaml>) returns (r: Entries<Yaml, Yaml>)
    requires DistinctKeys(e)
    ensures DistinctKeys(r)
    ensures forall x :: x in r <==> x in e && !IsEmptyYaml(x.1)
  {
    hide IsEmptyYaml, EmptyKeys;
    var drop := CollectEmptyKeys(e);
    EmptyKeysAreDistinct(e);
    r := e;
    var i := 0;
    while i < |drop|
      invariant i <= |drop| && DistinctKeys(r)
      invariant forall x :: x in r <==> x in e && x.0 !in drop[..i]
    {
      assert drop[i] in drop;
      EmptyKeysAre(e, drop[i]);
      var k :| 0 <= k < |e| && e[k].0 == drop[i];
      assert e[k] in r;
      r := Remove(r, drop[i]);
      assert drop[..i + 1] == drop[..i] + [drop[i]];
      i := i + 1;
    }
    assert drop[..i] == drop;
    forall x ensures x in r <==> x in e && !IsEmptyYaml(x.1) {
      if x in e {
        EmptyEntries(e, x);
      }
    }
  }

  /** `prune_yaml`: however `remove` reorders what is left, the result says what the
      JSON form's `retain` would leave. */
  method PruneYamlInPlace(v: Yaml, preserve: bool) returns (r: Yaml)
    requires WellFormedYaml(v)
    ensures AsYamlTree(r) == AsYamlTree(PruneYaml(v, preserve))
    decreases v
  {
    hide PruneYaml, AsYamlTree, RetainYaml, IsEmptyYaml;
    match v {
      case YMapping(m) =>
        var entries := m;
        var i := 0;
        while i < |entries|
          invariant |entries| == |m| && i <= |m|
          invariant forall j :: 0 <= j < |m| ==> entries[j].0 == m[j].0
          invariant forall j :: 0 <= j < i ==> AsYamlTree(entries[j].1) == AsYamlTree(PruneYaml(m[j].1, YamlKeepsNulls(m[j].0)))
          invariant forall j :: i <= j < |m| ==> entries[j] == m[j]
        {
          var k := entries[i].0;
          var pruned := PruneYamlInPlace(m[i].1, AsStr(k) == Some("environment") || AsStr(k) == Some("networks"));
          entries := entries[i := (k, pruned)];
          i := i + 1;
        }
        PruneMapping(m, preserve);
        if !preserve {
          var kept := DropEmpty(entries);
          SameFieldsKept(entries, PrunedYamlEntries(m), kept);
          entries := kept;
        } else {
          SameFields(entries, PrunedYamlEntries(m));
        }
        r := YMapping(entries);
      case YSequence(a) =>
        var items := a;
        var i := 0;
        while i < |items|
          invariant |items| == |a| && i <= |a|
          invariant forall j :: 0 <= j < i ==> AsYamlTree(items[j]) == AsYamlTree(PruneYaml(a[j], false))
          invariant forall j :: i <= j < |a| ==> items[j] == a[j]
        {
          var pruned := PruneYamlInPlace(a[i], false);
          items := items[i := pruned];
          i := i + 1;
        }
        r := YSequence(items);
        SameItems(a, items, preserve);
      case _ =>
        r := v;
        ScalarsStay(v, preserve);
    }
  }

  lemma ScalarsStay(v: Yaml, preserve: bool)
    requires !v.YMapping? && !v.YSequence?
    ensures PruneYaml(v, preserve) == v
  {}

  lemma SameItems(a: seq<Yaml>, items: seq<Yaml>, preserve: bool)
    requires |items| == |a| && forall j :: 0 <= j < |a| ==> AsYamlTree(items[j]) == AsYamlTree(PruneYaml(a[j], false))
    ensures AsYamlTree(YSequence(items)) == AsYamlTree(PruneYaml(YSequence(a), preserve))
  {
    var pruned := PruneYaml(YSequence(a), preserve);
    forall j | 0 <= j < |a| ensures AsYamlTree(YSequence(items)).items[j] == AsYamlTree(pruned).items[j] {
      assert pruned.items[j] == PruneYaml(YSequence(a).items[j], false);
    }
    assert AsYamlTree(YSequence(items)).items == AsYamlTree(pruned).items;
  }

  function YamlTreeing(): (Yaml, Yaml) -> YamlTree {
    (k, v) => AsYamlTree(v)
  }

  lemma TreeMapping(m: Entries<Yaml, Yaml>)
    ensures AsYamlTree(YMapping(m)) == Fields(MapOf(MapValues(m, YamlTreeing())))
  {
    var v := YMapping(m);
    assert MapValues(m, YamlTreeing()) == seq(|v.entries|, i requires 0 <= i < |v.entries| => (v.entries[i].0, AsYamlTree(v.entries[i].1)));
  }

  lemma SameFields(a: Entries<Yaml, Yaml>, b: Entries<Yaml, Yaml>)
    requires |a| == |b| && forall j :: 0 <= j < |a| ==> a[j].0 == b[j].0 && AsYamlTree(a[j].1) == AsYamlTree(b[j].1)
    ensures AsYamlTree(YMapping(a)) == AsYamlTree(YMapping(b))
  {
    hide AsYamlTree;
    TreeMapping(a);
    TreeMapping(b);
    assert MapValues(a, YamlTreeing()) == MapValues(b, YamlTreeing());
  }

  /** Emptiness does not depend on the order of the keys. */
  lemma SameTreeSameEmptiness(a: Yaml, b: Yaml)
    requires AsYamlTree(a) == AsYamlTree(b)
    ensures IsEmptyYaml(a) <==> IsEmptyYaml(b)
  {
    if a.YMapping? && b.YMapping? {
      TreeMapping(a.entries);
      TreeMapping(b.entries);
      MapOfNothing(MapValues(a.entries, YamlTreeing()));
      MapOfNothing(MapValues(b.entries, YamlTreeing()));
    }
  }

  lemma MapOfNothing<K, V>(e: Entries<K, V>)
    ensures MapOf(e) == map[] <==> e == []
  {
    if e != [] {
      assert e[|e| - 1].0 in MapOf(e);
    }
  }

  lemma {:induction false} RetainYamlSays(e: Entries<Yaml, Yaml>, k: Yaml)
    requires DistinctKeys(e)
    ensures k in MapOf(RetainYaml(e)) <==> k in MapOf(e) && !IsEmptyYaml(MapOf(e)[k])
    ensures k in MapOf(RetainYaml(e)) && k in MapOf(e) ==> MapOf(RetainYaml(e))[k] == MapOf(e)[k]
  {
    if e != [] {
      hide IsEmptyYaml;
      var n := |e| - 1;
      RetainYamlSays(e[..n], k);
      MapOfKeys(e[..n], e[n].0);
      assert e[n].0 !in MapOf(e[..n]);
      if !IsEmptyYaml(e[n].1) {
        assert RetainYaml(e) == RetainYaml(e[..n]) + [e[n]];
        assert RetainYaml(e)[..|RetainYaml(e)| - 1] == RetainYaml(e[..n]);
      } else {
        assert RetainYaml(e) == RetainYaml(e[..n]);
      }
    }
  }

  /** With distinct keys the map is the entries, whatever their order. */
  lemma MapOfMembers<K, V>(e: Entries<K, V>, k: K, v: V)
    requires DistinctKeys(e)
    ensures k in MapOf(e) && MapOf(e)[k] == v <==> (k, v) in e
  {
    if (k, v) in e {
      var i :| 0 <= i < |e| && e[i] == (k, v);
      MapOfAt(e, i);
    }
    if k in MapOf(e) {
      ValueIsAnEntry(e, k);
    }
  }

  lemma SameFieldsKept(a: Entries<Yaml, Yaml>, b: Entries<Yaml, Yaml>, kept: Entries<Yaml, Yaml>)
    requires DistinctKeys(a) && DistinctKeys(kept)
    requires |a| == |b| && forall j :: 0 <= j < |a| ==> a[j].0 == b[j].0 && AsYamlTree(a[j].1) == AsYamlTree(b[j].1)
    requires forall x :: x in kept <==> x in a && !IsEmptyYaml(x.1)
    ensures AsYamlTree(YMapping(kept)) == AsYamlTree(YMapping(RetainYaml(b)))
  {
    hide AsYamlTree, RetainYaml, MapOf, IsEmptyYaml;
    TreeMapping(kept);
    TreeMapping(RetainYaml(b));
    var (x, y) := (MapValues(kept, YamlTreeing()), MapValues(RetainYaml(b), YamlTreeing()));
    forall k: Yaml
      ensures k in MapOf(x) <==> k in MapOf(y)
      ensures k in MapOf(x) && k in MapOf(y) ==> MapOf(x)[k] == MapOf(y)[k]
    {
      MapValuesSays(kept, YamlTreeing(), k);
      MapValuesSays(RetainYaml(b), YamlTreeing(), k);
      RetainYamlSays(b, k);
      MapOfKeys(a, k);
      MapOfKeys(b, k);
      if k in MapOf(a) {
        var i :| 0 <= i < |a| && a[i].0 == k;
        assert b[i].0 == k;
        MapOfAt(a, i);
        MapOfAt(b, i);
        SameTreeSameEmptiness(a[i].1, b[i].1);
        MapOfMembers(kept, k, a[i].1);
        assert a[i] == (k, a[i].1) && a[i] in a;
        if k in MapOf(kept) {
          KeptIsThere(a, kept, k, i);
        }
      } else {
        KeptFrom(a, kept, k);
        assert k !in MapOf(b);
      }
    }
    assert MapOf(x) == MapOf(y);
  }

  lemma KeptFrom<K, V>(a: Entries<K, V>, kept: Entries<K, V>, k: K)
    requires forall x :: x in kept ==> x in a
    ensures k in MapOf(kept) ==> k in MapOf(a)
  {
    if k in MapOf(kept) {
      ValueIsAnEntry(kept, k);
      var x := (k, MapOf(kept)[k]);
      assert x in a;
      var j :| 0 <= j < |a| && a[j] == x;
      MapOfKeys(a, k);
    }
  }

  lemma KeptIsThere(a: Entries<Yaml, Yaml>, kept: Entries<Yaml, Yaml>, k: Yaml, i: nat)
    requires DistinctKeys(a) && DistinctKeys(kept) && i < |a| && a[i].0 == k && k in MapOf(kept)
    requires forall x :: x in kept ==> x in a
    ensures MapOf(kept)[k] == a[i].1 && a[i] in kept
  {
    MapOfMembers(kept, k, MapOf(kept)[k]);
    var x := (k, MapOf(kept)[k]);
    assert x in a;
    var j :| 0 <= j < |a| && a[j] == x;
    assert j == i;
  }
}
