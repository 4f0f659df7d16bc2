/** A service's `env_file:` and `environment:`, merged twice: once for the container
    that runs, once for the model `config` prints. */
module EnvFiles {
  import opened Prelude
  import opened TextOrder
  import Dotenv

  type Assigned = map<string, Option<string>>

  datatype Scalar = Str(text: string) | Num(text: string) | Bool(b: bool) | Null

  datatype EnvVars =
    | Absent
    | List(items: seq<string>)
    | Table(entries: seq<(string, Option<Scalar>)>)

  datatype Entry = Path(path: string) | Config(path: string, need: Option<bool>)

  predicate Required(e: Entry) {
    match e case Path(_) => true case Config(_, need) => need != Some(false)
  }

  datatype EnvFile = NoFile | Single(entry: Entry) | Several(list: seq<Entry>)

  function ToEntries(f: EnvFile): seq<Entry> {
    match f case NoFile => [] case Single(e) => [e] case Several(list) => list
  }

  /** What reading a path gives. */
  datatype FileRead = Missing | Unreadable | Text(content: string)

  datatype EnvError = NotFound(path: string) | Io(path: string) | Malformed(why: Dotenv.DotenvError)

  datatype World = World(host: map<string, string>, read: string -> FileRead)

  // ----- loading -----

  function Insert(m: map<string, string>, pairs: seq<Dotenv.Pair>): map<string, string>
    decreases |pairs|
  {
    if pairs == [] then m else Insert(m[pairs[0].0 := pairs[0].1], pairs[1..])
  }

  /** What one entry adds, or how it fails. */
  function EntryPairs(w: World, e: Entry): Result<seq<Dotenv.Pair>, EnvError> {
    match w.read(e.path)
    case Missing => if Required(e) then Err(NotFound(e.path)) else Ok([])
    case Unreadable => Err(Io(e.path))
    case Text(content) =>
      match Dotenv.Parse(w.host, content, true)
      case Ok(pairs) => Ok(pairs)
      case Err(why) => Err(Malformed(why))
  }

  /** Every pair the files give, in order. */
  function AllPairs(w: World, entries: seq<Entry>): Result<seq<Dotenv.Pair>, EnvError> {
    if entries == [] then Ok([])
    else
      match EntryPairs(w, entries[0])
      case Err(e) => Err(e)
      case Ok(pairs) =>
        match AllPairs(w, entries[1..])
        case Err(e) => Err(e)
        case Ok(rest) => Ok(pairs + rest)
  }

  /** `load_env_file_entries` */
  function LoadEntries(w: World, entries: seq<Entry>): Result<map<string, string>, EnvError> {
    match AllPairs(w, entries) case Err(e) => Err(e) case Ok(pairs) => Ok(Insert(map[], pairs))
  }

  lemma {:induction false} InsertParts(m: map<string, string>, a: seq<Dotenv.Pair>, b: seq<Dotenv.Pair>)
    ensures Insert(m, a + b) == Insert(Insert(m, a), b)
    decreases |a|
  {
    if a == [] {
      assert a + b == b;
    } else {
      assert (a + b)[1..] == a[1..] + b;
      InsertParts(m[a[0].0 := a[0].1], a[1..], b);
    }
  }

  /** The last assignment of `k`, over all the files together. */
  function LastOf(pairs: seq<Dotenv.Pair>, k: string): Option<string> {
    if pairs == [] then None
    else if pairs[|pairs| - 1].0 == k then Some(pairs[|pairs| - 1].1)
    else LastOf(pairs[..|pairs| - 1], k)
  }

  function Get<V>(m: map<string, V>, k: string): Option<V> {
    if k in m then Some(m[k]) else None
  }

  /** The last assignment in the last file wins. */
  lemma {:induction false} LastAssignmentWins(pairs: seq<Dotenv.Pair>, k: string)
    ensures Get(Insert(map[], pairs), k) == LastOf(pairs, k)
  {
    if pairs != [] {
      var n := |pairs| - 1;
      assert pairs == pairs[..n] + [pairs[n]];
      InsertParts(map[], pairs[..n], [pairs[n]]);
      LastAssignmentWins(pairs[..n], k);
    }
  }

  predicate Fails(w: World, e: Entry) {
    match w.read(e.path)
    case Missing => Required(e)
    case Unreadable => true
    case Text(content) => Dotenv.Parse(w.host, content, true).Err?
  }

  /** Loading fails exactly when some entry does, and then with the first one's
      error. */
  lemma {:induction false} LoadFailsWithTheFirst(w: World, entries: seq<Entry>)
    ensures LoadEntries(w, entries).Err? <==> exists i :: 0 <= i < |entries| && Fails(w, entries[i])
    ensures forall i :: 0 <= i < |entries| && Fails(w, entries[i]) && (forall j :: 0 <= j < i ==> !Fails(w, entries[j])) ==>
              LoadEntries(w, entries).Err? && EntryPairs(w, entries[i]) == Err(LoadEntries(w, entries).error)
  {
    if entries != [] {
      LoadFailsWithTheFirst(w, entries[1..]);
      assert EntryPairs(w, entries[0]).Err? <==> Fails(w, entries[0]);
      assert forall i :: 0 < i < |entries| ==> entries[i] == entries[1..][i - 1];
      if EntryPairs(w, entries[0]).Ok? && LoadEntries(w, entries[1..]).Err? {
        var i :| 0 <= i < |entries[1..]| && Fails(w, entries[1..][i]);
        assert Fails(w, entries[i + 1]);
      }
      forall i | 0 <= i < |entries| && Fails(w, entries[i]) && forall j :: 0 <= j < i ==> !Fails(w, entries[j])
        ensures LoadEntries(w, entries).Err? && EntryPairs(w, entries[i]) == Err(LoadEntries(w, entries).error)
      {
        if i > 0 {
          assert !Fails(w, entries[0]);
          assert forall j :: 0 <= j < i - 1 ==> entries[1..][j] == entries[j + 1];
          assert Fails(w, entries[1..][i - 1]);
        }
      }
    }
  }

  // ----- the service's own environment -----

  /** `splitn(2, '=')` */
  function SplitItem(item: string): (string, Option<string>) {
    match IndexOf(item, '=') case None => (item, None) case Some(i) => (item[..i], Some(item[i + 1..]))
  }

  function ScalarText(v: Option<Scalar>): Option<string> {
    match v
    case Some(Str(text)) => Some(text)
    case Some(Num(text)) => Some(text)
    case Some(Bool(b)) => Some(if b then "true" else "false")
    case _ => None
  }

  function CollectItems(items: seq<string>): Assigned {
    if items == [] then map[]
    else
      var (k, v) := SplitItem(items[|items| - 1]);
      CollectItems(items[..|items| - 1])[k := v]
  }

  function CollectTable(entries: seq<(string, Option<Scalar>)>): Assigned {
    if entries == [] then map[]
    else
      var (k, v) := entries[|entries| - 1];
      CollectTable(entries[..|entries| - 1])[k := ScalarText(v)]
  }

  function ToMap(env: EnvVars): Assigned {
    match env case Absent => map[] case List(items) => CollectItems(items) case Table(entries) => CollectTable(entries)
  }

  // ----- merging -----

  /** The environment of a service: its own keys, then the files' for the rest. */
  function Merged(own: Assigned, fromFiles: map<string, string>): Assigned {
    (map k | k in fromFiles :: Some(fromFiles[k])) + own
  }

  /** Explicit keys win, bare ones included; any other key has the last assignment in
      the last file. */
  lemma ExplicitKeysWin(own: Assigned, pairs: seq<Dotenv.Pair>, k: string)
    ensures Get(Merged(own, Insert(map[], pairs)), k) ==
            if k in own then Some(own[k]) else match LastOf(pairs, k) case None => None case Some(v) => Some(Some(v))
  {
    LastAssignmentWins(pairs, k);
  }

  /** The last entry of a key in a map-form `environment:`: a text or a number stands for
      itself, a boolean for its word, and null or nothing leaves the key bare. */
  lemma {:induction false} LastTableEntryWins(front: seq<(string, Option<Scalar>)>, k: string, v: Option<Scalar>, back: seq<(string, Option<Scalar>)>)
    requires forall i :: 0 <= i < |back| ==> back[i].0 != k
    ensures var m := ToMap(Table(front + [(k, v)] + back));
            && k in m
            && (v == None || v == Some(Null) ==> m[k] == None)
            && (v == Some(Bool(true)) ==> m[k] == Some("true")) && (v == Some(Bool(false)) ==> m[k] == Some("false"))
            && (forall text :: v == Some(Str(text)) || v == Some(Num(text)) ==> m[k] == Some(text))
    decreases |back|
  {
    var all := front + [(k, v)] + back;
    if back == [] {
      assert all == front + [(k, v)] && all[..|all| - 1] == front;
    } else {
      var n := |back| - 1;
      assert all[..|all| - 1] == front + [(k, v)] + back[..n] && all[|all| - 1] == back[n];
      LastTableEntryWins(front, k, v, back[..n]);
    }
  }

  /** The last item of a key in a list-form one: what follows its first `=`, or the bare
      key. */
  lemma {:induction false} LastListItemWins(front: seq<string>, k: string, v: Option<string>, back: seq<string>)
    requires '=' !in k
    requires forall i :: 0 <= i < |back| ==> back[i] != k && !(k + "=" <= back[i])
    ensures var m := ToMap(List(front + [if v.Some? then k + "=" + v.value else k] + back));
            k in m && m[k] == v
    decreases |back|
  {
    var item := if v.Some? then k + "=" + v.value else k;
    var all := front + [item] + back;
    if back == [] {
      hide SplitItem;
      assert all == front + [item] && all[..|all| - 1] == front;
      SpelledReadsBack(k, v);
    } else {
      var n := |back| - 1;
      assert all[..|all| - 1] == front + [item] + back[..n] && all[|all| - 1] == back[n];
      LastListItemWins(front, k, v, back[..n]);
      OtherItemsAreOtherKeys(k, back[n]);
      hide SplitItem;
    }
  }

  lemma OtherItemsAreOtherKeys(k: string, item: string)
    requires item != k && !(k + "=" <= item)
    ensures SplitItem(item).0 != k
  {
    var at := IndexOf(item, '=');
    if at.Some? {
      assert item[..at.value] + "=" <= item;
    }
  }

  /** A key nobody writes is not there. */
  lemma {:induction false} OnlyWrittenKeysAreThere(items: seq<string>, entries: seq<(string, Option<Scalar>)>, k: string)
    ensures k in ToMap(List(items)) ==> exists i :: 0 <= i < |items| && (items[i] == k || k + "=" <= items[i])
    ensures k in ToMap(Table(entries)) ==> exists i :: 0 <= i < |entries| && entries[i].0 == k
    ensures ToMap(Absent) == map[]
    decreases |items| + |entries|
  {
    if k in ToMap(List(items)) {
      var n := |items| - 1;
      if items[n] == k || k + "=" <= items[n] {
      } else {
        OtherItemsAreOtherKeys(k, items[n]);
        hide SplitItem;
        OnlyWrittenKeysAreThere(items[..n], [], k);
        var i :| 0 <= i < n && (items[..n][i] == k || k + "=" <= items[..n][i]);
        assert items[i] == items[..n][i];
      }
    }
    if k in ToMap(Table(entries)) {
      var n := |entries| - 1;
      if entries[n].0 != k {
        OnlyWrittenKeysAreThere([], entries[..n], k);
        var i :| 0 <= i < n && entries[..n][i].0 == k;
        assert entries[i].0 == k;
      }
    }
  }

  /** What one variable is in the container: the service's own value, a bare key's from
      the host, else the last assignment in the last file. */
  lemma OneVariable(host: map<string, string>, own: Assigned, pairs: seq<Dotenv.Pair>, k: string)
    ensures Get(Passed(host, Merged(own, Insert(map[], pairs))), k) ==
            if k in own && own[k].Some? then own[k] else if k in own then Get(host, k) else LastOf(pairs, k)
  {
    ExplicitKeysWin(own, pairs, k);
  }

  /** What loads where a file cannot be read: a missing one is left out only where it is
      said not to be required, an unreadable one never. */
  lemma FilesThatCannotBeRead(w: World, path: string, need: Option<bool>, before: seq<Entry>, after: seq<Entry>)
    requires forall i :: 0 <= i < |before| ==> !Fails(w, before[i])
    ensures w.read(path) == Missing ==>
              && LoadEntries(w, before + [Path(path)] + after) == Err(NotFound(path))
              && (need != Some(false) ==> LoadEntries(w, before + [Config(path, need)] + after) == Err(NotFound(path)))
              && LoadEntries(w, before + [Config(path, Some(false))] + after) == LoadEntries(w, before + after)
    ensures w.read(path) == Unreadable ==>
              && LoadEntries(w, before + [Path(path)] + after) == Err(Io(path))
              && LoadEntries(w, before + [Config(path, need)] + after) == Err(Io(path))
  {
    hide Fails;
    PairsOfParts(w, before, Path(path), after);
    PairsOfParts(w, before, Config(path, need), after);
    PairsOfParts(w, before, Config(path, Some(false)), after);
  }

  /** The pairs of the entries before, of one entry, and of those after it. */
  lemma {:induction false} PairsOfParts(w: World, before: seq<Entry>, e: Entry, after: seq<Entry>)
    requires forall i :: 0 <= i < |before| ==> !Fails(w, before[i])
    ensures EntryPairs(w, e).Err? ==> AllPairs(w, before + [e] + after) == Err(EntryPairs(w, e).error)
    ensures EntryPairs(w, e) == Ok([]) ==> AllPairs(w, before + [e] + after) == AllPairs(w, before + after)
    decreases |before|
  {
    hide Dotenv.Parse;
    var all := before + [e] + after;
    if before == [] {
      assert all[0] == e && all[1..] == after && before + after == after;
      var rest := AllPairs(w, after);
      assert rest.Ok? ==> [] + rest.value == rest.value;
    } else {
      assert all[0] == before[0] && all[1..] == before[1..] + [e] + after;
      assert (before + after)[0] == before[0] && (before + after)[1..] == before[1..] + after;
      assert !Fails(w, before[0]);
      PairsOfParts(w, before[1..], e, after);
    }
  }

  function Spelled(k: string, v: Option<string>): string {
    match v case Some(text) => k + "=" + text case None => k
  }

  /** The entries a map becomes, its keys handed out in some order. */
  function SpelledAll(order: seq<string>, m: Assigned): (r: seq<string>)
    requires forall i :: 0 <= i < |order| ==> order[i] in m
    ensures |r| == |order|
  {
    seq(|order|, i requires 0 <= i < |order| => Spelled(order[i], m[order[i]]))
  }

  /** Each key of the map once. */
  ghost predicate IsOrderOf(order: seq<string>, m: Assigned) {
    && (forall i :: 0 <= i < |order| ==> order[i] in m)
    && (forall i, j :: 0 <= i < j < |order| ==> order[i] != order[j])
    && (forall k :: k in m ==> k in order)
  }

  /** What the entries say, read at their first `=`. */
  function ReadBack(list: seq<string>): Assigned {
    if list == [] then map[]
    else
      var (k, v) := SplitItem(list[|list| - 1]);
      ReadBack(list[..|list| - 1])[k := v]
  }

  lemma SpelledReadsBack(k: string, v: Option<string>)
    requires '=' !in k
    ensures SplitItem(Spelled(k, v)) == (k, v)
  {
    if v.Some? {
      IndexOfFirst(k, '=', v.value);
      assert k + "=" + v.value == k + ['='] + v.value;
      assert (k + "=" + v.value)[..|k|] == k && (k + "=" + v.value)[|k| + 1..] == v.value;
    } else {
      assert IndexOf(k, '=').None?;
    }
  }

  lemma KeysHaveNoEquals(item: string)
    ensures '=' !in SplitItem(item).0
  {}

  lemma {:induction false} ReadBackKeys(list: seq<string>)
    ensures forall k :: k in ReadBack(list) ==> '=' !in k
  {
    if list != [] {
      ReadBackKeys(list[..|list| - 1]);
      KeysHaveNoEquals(list[|list| - 1]);
    }
  }

  lemma {:induction false} ReadBackOfOrder(order: seq<string>, m: Assigned)
    requires forall i :: 0 <= i < |order| ==> order[i] in m && '=' !in order[i]
    ensures ReadBack(SpelledAll(order, m)) == map k | k in order :: m[k]
  {
    if order != [] {
      hide SplitItem, Spelled;
      var n := |order| - 1;
      ReadBackOfOrder(order[..n], m);
      assert SpelledAll(order, m)[..n] == SpelledAll(order[..n], m);
      SpelledReadsBack(order[n], m[order[n]]);
      assert order == order[..n] + [order[n]];
    }
  }

  ghost predicate PlainKeys(m: Assigned) {
    forall k :: k in m ==> '=' !in k
  }

  /** The list handed to the engine says what the map said, in whatever order the map
      hands its keys out, exactly when no key contains `=`. */
  lemma ListSaysTheMapIffKeysArePlain(order: seq<string>, m: Assigned)
    requires IsOrderOf(order, m)
    ensures ReadBack(SpelledAll(order, m)) == m <==> PlainKeys(m)
  {
    hide ReadBack, SpelledAll;
    ReadBackKeys(SpelledAll(order, m));
    if PlainKeys(m) {
      ReadBackOfOrder(order, m);
    }
  }

  /** A bare key takes its value from the host, or is dropped. */
  function Passed(host: map<string, string>, m: Assigned): map<string, string> {
    map k | k in m && (m[k].Some? || k in host) :: if m[k].Some? then m[k].value else host[k]
  }

  /** `effective_env`, from the merged list: a bare key the host does not set leaves
      what was there. */
  function Effective(host: map<string, string>, list: seq<string>): map<string, string> {
    if list == [] then map[]
    else
      var rest := Effective(host, list[..|list| - 1]);
      match SplitItem(list[|list| - 1])
      case (k, Some(v)) => rest[k := v]
      case (k, None) => if k in host then rest[k := host[k]] else rest
  }

  /** The item says nothing but what `p` has. */
  predicate Agrees(host: map<string, string>, p: map<string, string>, item: string) {
    match SplitItem(item)
    case (k, Some(v)) => Get(p, k) == Some(v)
    case (k, None) => k in host ==> Get(p, k) == Some(host[k])
  }

  /** Entries that agree with one map, in any order, come to the part of it they
      name. */
  lemma {:induction false} EffectiveOfAgreeing(host: map<string, string>, list: seq<string>, p: map<string, string>)
    requires forall i :: 0 <= i < |list| ==> Agrees(host, p, list[i])
    ensures forall k :: k in Effective(host, list) ==> Get(p, k) == Some(Effective(host, list)[k])
    ensures forall i :: 0 <= i < |list| && (SplitItem(list[i]).1.Some? || SplitItem(list[i]).0 in host) ==>
              SplitItem(list[i]).0 in Effective(host, list)
  {
    hide SplitItem;
    if list != [] {
      EffectiveOfAgreeing(host, list[..|list| - 1], p);
    }
  }

  lemma {:induction false} EffectiveKeys(host: map<string, string>, list: seq<string>)
    ensures forall k :: k in Effective(host, list) ==> '=' !in k
  {
    hide SplitItem;
    if list != [] {
      EffectiveKeys(host, list[..|list| - 1]);
      KeysHaveNoEquals(list[|list| - 1]);
    }
  }

  /** A key with `=` that passes no value itself and, read at its `=`, says again what
      is passed anyway. */
  predicate SaysAgain(host: map<string, string>, m: Assigned, k: string) {
    var (front, rest) := SplitItem(k);
    k !in Passed(host, m) && rest.Some? && Get(Passed(host, m), front) == rest
  }

  ghost predicate OddKeysSayAgain(host: map<string, string>, m: Assigned) {
    forall k :: k in m && '=' in k ==> SaysAgain(host, m, k)
  }

  ghost predicate RunsAsWritten(host: map<string, string>, m: Assigned) {
    forall order :: IsOrderOf(order, m) ==> Effective(host, SpelledAll(order, m)) == Passed(host, m)
  }

  /** The container runs with what the merged map says, host values filled in, in
      whatever order the map hands its keys out, exactly when each key that contains
      `=` only says again what is passed anyway. */
  lemma RunsWithTheMergedMap(host: map<string, string>, m: Assigned)
    ensures RunsAsWritten(host, m) <==> OddKeysSayAgain(host, m)
  {
    hide Effective, SpelledAll, Passed, SaysAgain;
    if OddKeysSayAgain(host, m) {
      forall order | IsOrderOf(order, m) ensures Effective(host, SpelledAll(order, m)) == Passed(host, m) {
        OrderRunsAsWritten(host, order, m);
      }
    }
    if RunsAsWritten(host, m) {
      forall k | k in m && '=' in k ensures SaysAgain(host, m, k) {
        var order := OrderEndingIn(m, k);
        LastKeySaysAgain(host, order, m);
      }
    }
  }

  lemma OrderRunsAsWritten(host: map<string, string>, order: seq<string>, m: Assigned)
    requires IsOrderOf(order, m) && OddKeysSayAgain(host, m)
    ensures Effective(host, SpelledAll(order, m)) == Passed(host, m)
  {
    hide Effective, SplitItem, Spelled, Agrees, Passed, SaysAgain;
    var (list, p) := (SpelledAll(order, m), Passed(host, m));
    forall i | 0 <= i < |order|
      ensures Agrees(host, p, list[i]) && (order[i] in p ==> SplitItem(list[i]) == (order[i], m[order[i]]))
    {
      ItemAgrees(host, m, order[i]);
    }
    EffectiveOfAgreeing(host, list, p);
    forall k | k in p ensures k in Effective(host, list) {
      PassedKeysAreGiven(host, m, k);
      assert k in order;
      var i :| 0 <= i < |order| && order[i] == k;
      assert SplitItem(list[i]) == (k, m[k]);
    }
  }

  lemma PassedKeysAreGiven(host: map<string, string>, m: Assigned, k: string)
    requires k in Passed(host, m)
    ensures k in m && (m[k].Some? || k in host)
  {}

  lemma ItemAgrees(host: map<string, string>, m: Assigned, k: string)
    requires k in m && ('=' in k ==> SaysAgain(host, m, k))
    ensures var item := Spelled(k, m[k]);
            Agrees(host, Passed(host, m), item) && (k in Passed(host, m) ==> SplitItem(item) == (k, m[k]))
  {
    hide SplitItem;
    if '=' !in k {
      SpelledReadsBack(k, m[k]);
    }
  }

  lemma {:induction false} ListOf(keys: set<string>) returns (order: seq<string>)
    ensures forall i, j :: 0 <= i < j < |order| ==> order[i] != order[j]
    ensures forall k :: k in order <==> k in keys
  {
    order := [];
    if keys != {} {
      var k :| k in keys;
      order := ListOf(keys - {k});
      order := order + [k];
    }
  }

  lemma OrderEndingIn(m: Assigned, k: string) returns (order: seq<string>)
    requires k in m
    ensures IsOrderOf(order, m) && order != [] && order[|order| - 1] == k
  {
    var others := ListOf(m.Keys - {k});
    order := others + [k];
    assert forall i :: 0 <= i < |others| ==> others[i] in others;
    assert forall o :: o in others ==> o in order;
    assert order[|others|] == k;
  }

  lemma LastKeySaysAgain(host: map<string, string>, order: seq<string>, m: Assigned)
    requires IsOrderOf(order, m) && order != [] && '=' in order[|order| - 1]
    requires Effective(host, SpelledAll(order, m)) == Passed(host, m)
    ensures SaysAgain(host, m, order[|order| - 1])
  {
    var k := order[|order| - 1];
    EffectiveKeys(host, SpelledAll(order, m));
    assert k !in Passed(host, m);
    assert m[k].None? && Spelled(k, m[k]) == k;
  }

  /** One key with `=` runs as another variable. */
  lemma AKeyWithEqualsRunsAsAnother()
    ensures var m := map["A=B" := Some("x")];
            && IsOrderOf(["A=B"], m) && Passed(map[], m) == map["A=B" := "x"]
            && Effective(map[], SpelledAll(["A=B"], m)) == map["A" := "B=x"]
  {
    var m := map["A=B" := Some("x")];
    var item := Spelled("A=B", Some("x"));
    var list := SpelledAll(["A=B"], m);
    assert item == "A" + ['='] + "B=x";
    IndexOfFirst("A", '=', "B=x");
    assert item[..1] == "A" && item[2..] == "B=x";
    hide IndexOf, Spelled;
    assert list == [item] && list[..0] == [];
    assert SplitItem(item) == ("A", Some("B=x"));
  }

  // ----- the model `config` prints -----

  function AsTable(keys: seq<string>, m: Assigned): seq<(string, Option<Scalar>)>
    requires forall i :: 0 <= i < |keys| ==> keys[i] in m
  {
    seq(|keys|, i requires 0 <= i < |keys| =>
      (keys[i], match m[keys[i]] case Some(v) => Some(Str(v)) case None => None))
  }

  lemma {:induction false} TableSaysTheMap(keys: seq<string>, m: Assigned)
    requires forall i :: 0 <= i < |keys| ==> keys[i] in m
    ensures CollectTable(AsTable(keys, m)) == map k | k in keys :: m[k]
  {
    if keys != [] {
      var n := |keys| - 1;
      TableSaysTheMap(keys[..n], m);
      assert AsTable(keys, m)[..n] == AsTable(keys[..n], m);
      assert keys == keys[..n] + [keys[n]];
    }
  }

  /** `env` is the map `m`, its keys in order. */
  ghost predicate IsSortedTable(env: EnvVars, m: Assigned) {
    exists keys :: Sorted(keys) && SetOf(keys) == m.Keys && env == Table(AsTable(keys, m))
  }

  /** There is one such rendering, so `config` prints the same text every time. */
  lemma SortedTableIsUnique(a: EnvVars, b: EnvVars, m: Assigned)
    requires IsSortedTable(a, m) && IsSortedTable(b, m)
    ensures a == b
  {
    var x :| Sorted(x) && SetOf(x) == m.Keys && a == Table(AsTable(x, m));
    var y :| Sorted(y) && SetOf(y) == m.Keys && b == Table(AsTable(y, m));
    SortedIsUnique(x, y);
  }

  lemma SortedTableSaysTheMap(env: EnvVars, m: Assigned)
    requires IsSortedTable(env, m)
    ensures ToMap(env) == m
  {
    var keys :| Sorted(keys) && SetOf(keys) == m.Keys && env == Table(AsTable(keys, m));
    TableSaysTheMap(keys, m);
    forall k ensures k in keys <==> k in m {
      if k in m {
        assert k in SetOf(keys);
      }
      if k in keys {
        var i :| 0 <= i < |keys| && keys[i] == k;
        assert keys[i] in SetOf(keys);
      }
    }
  }

  datatype Model = Model(environment: EnvVars, envFile: EnvFile)

  /** What `materialize_service_env_files` may leave behind. */
  ghost predicate Materialized(w: World, before: Model, after: Model) {
    if ToEntries(before.envFile) == [] then after == before
    else
      && LoadEntries(w, ToEntries(before.envFile)).Ok?
      && after.envFile == NoFile
      && IsSortedTable(after.environment, Merged(ToMap(before.environment), LoadEntries(w, ToEntries(before.envFile)).value))
  }

  /** The map a service runs with, before the host fills in its bare keys. */
  function RunMap(w: World, s: Model): Result<Assigned, EnvError> {
    match LoadEntries(w, ToEntries(s.envFile))
    case Err(e) => Err(e)
    case Ok(fromFiles) => Ok(Merged(ToMap(s.environment), fromFiles))
  }

  /** What `config` prints is what runs: the same map, before and after; and
      materializing again changes nothing. */
  lemma ConfigAgreesWithRun(w: World, before: Model, after: Model)
    requires Materialized(w, before, after)
    ensures RunMap(w, after) == RunMap(w, before)
    ensures ToEntries(after.envFile) == [] ==> RunMap(w, after) == Ok(ToMap(after.environment))
    ensures forall again :: Materialized(w, after, again) ==> again == after
  {
    hide CollectItems, CollectTable;
    if ToEntries(before.envFile) != [] {
      var m := Merged(ToMap(before.environment), LoadEntries(w, ToEntries(before.envFile)).value);
      SortedTableSaysTheMap(after.environment, m);
      assert LoadEntries(w, []) == Ok(map[]);
      assert Merged(m, map[]) == m;
    } else {
      assert LoadEntries(w, []) == Ok(map[]);
      assert Merged(ToMap(after.environment), map[]) == ToMap(after.environment);
    }
  }

  /** Only a key of a map-form `environment:` can contain `=`: a list item is cut at
      its first one, and a dotenv key never has one. */
  lemma OnlyTableKeysHaveEquals(w: World, s: Model)
    requires RunMap(w, s).Ok?
    requires s.environment.Table? ==> PlainKeys(ToMap(s.environment))
    ensures PlainKeys(RunMap(w, s).value)
  {
    var entries := ToEntries(s.envFile);
    if s.environment.List? {
      ItemKeysArePlain(s.environment.items);
    }
    FileKeysArePlain(w, entries, AllPairs(w, entries).value);
    InsertKeys(AllPairs(w, entries).value);
  }

  lemma {:induction false} ItemKeysArePlain(items: seq<string>)
    ensures PlainKeys(CollectItems(items))
  {
    if items != [] {
      ItemKeysArePlain(items[..|items| - 1]);
      KeysHaveNoEquals(items[|items| - 1]);
    }
  }

  lemma {:induction false} FileKeysArePlain(w: World, entries: seq<Entry>, pairs: seq<Dotenv.Pair>)
    requires AllPairs(w, entries) == Ok(pairs)
    ensures forall i :: 0 <= i < |pairs| ==> '=' !in pairs[i].0
  {
    hide Dotenv.Parse, Dotenv.GoodKeys;
    if entries != [] {
      FileKeysArePlain(w, entries[1..], AllPairs(w, entries[1..]).value);
      var first := w.read(entries[0].path);
      if first.Text? {
        var own := Dotenv.Parse(w.host, first.content, true).value;
        Dotenv.FilesSpellExactlyTheGoodKeys(w.host, own, true);
        GoodKeysArePlain(own);
      }
    }
  }

  lemma GoodKeysArePlain(pairs: seq<Dotenv.Pair>)
    requires Dotenv.GoodKeys(pairs)
    ensures forall i :: 0 <= i < |pairs| ==> '=' !in pairs[i].0
  {
    forall i | 0 <= i < |pairs| ensures '=' !in pairs[i].0 {
      assert Dotenv.GoodKey(pairs[i].0);
    }
  }

  lemma {:induction false} InsertKeys(pairs: seq<Dotenv.Pair>)
    requires forall i :: 0 <= i < |pairs| ==> '=' !in pairs[i].0
    ensures forall k :: k in Insert(map[], pairs) ==> '=' !in k
  {
    forall k | k in Insert(map[], pairs) ensures '=' !in k {
      LastAssignmentWins(pairs, k);
      LastIsThere(pairs, k);
    }
  }

  lemma {:induction false} LastIsThere(pairs: seq<Dotenv.Pair>, k: string)
    ensures LastOf(pairs, k).Some? ==> exists i :: 0 <= i < |pairs| && pairs[i].0 == k
  {
    if pairs != [] && pairs[|pairs| - 1].0 != k {
      LastIsThere(pairs[..|pairs| - 1], k);
      if LastOf(pairs, k).Some? {
        var i :| 0 <= i < |pairs| - 1 && pairs[..|pairs| - 1][i].0 == k;
        assert pairs[i].0 == k;
      }
    }
  }

  // ----- as it runs -----

  method LoadEnvFileEntries(w: World, entries: seq<Entry>) returns (r: Result<map<string, string>, EnvError>)
    ensures r == LoadEntries(w, entries)
  {
    hide Dotenv.Parse;
    var result: map<string, string> := map[];
    var i := 0;
    ghost var seen: seq<Dotenv.Pair> := [];
    assert entries[0..] == entries;
    assert AllPairs(w, entries).Ok? ==> [] + AllPairs(w, entries).value == AllPairs(w, entries).value;
    while i < |entries|
      invariant i <= |entries|
      invariant result == Insert(map[], seen)
      invariant LoadEntries(w, entries) ==
                match AllPairs(w, entries[i..]) case Err(e) => Err(e) case Ok(rest) => Ok(Insert(map[], seen + rest))
    {
      var entry := entries[i];
      assert entries[i..][0] == entry && entries[i..][1..] == entries[i + 1..];
      ghost var later := AllPairs(w, entries[i + 1..]);
      var content := w.read(entry.path);
      match content {
        case Missing =>
          if Required(entry) {
            return Err(NotFound(entry.path));
          }
          assert later.Ok? ==> [] + later.value == later.value;
        case Unreadable =>
          return Err(Io(entry.path));
        case Text(text) =>
          var pairs := Dotenv.ParseInner(w.host, text, true);
          if pairs.Err? {
            return Err(Malformed(pairs.error));
          }
          InsertParts(map[], seen, pairs.value);
          assert later.Ok? ==> seen + (pairs.value + later.value) == seen + pairs.value + later.value;
          result := InsertAll(result, pairs.value);
          seen := seen + pairs.value;
      }
      i := i + 1;
    }
    assert entries[i..] == [] && seen + [] == seen;
    return Ok(result);
  }

  method InsertAll(m: map<string, string>, pairs: seq<Dotenv.Pair>) returns (r: map<string, string>)
    ensures r == Insert(m, pairs)
  {
    r := m;
    var i := 0;
    assert pairs[0..] == pairs;
    while i < |pairs|
      invariant i <= |pairs| && Insert(m, pairs) == Insert(r, pairs[i..])
    {
      assert pairs[i..][1..] == pairs[i + 1..];
      r := r[pairs[i].0 := pairs[i].1];
      i := i + 1;
    }
  }

  /** `or_insert` for every value the files carry, in any order. */
  method MergeOver(own: Assigned, fromFiles: map<string, string>) returns (r: Assigned)
    ensures r == Merged(own, fromFiles)
  {
    r := own;
    var left := fromFiles.Keys;
    while left != {}
      invariant left <= fromFiles.Keys
      invariant r == Merged(own, map k | k in fromFiles && k !in left :: fromFiles[k])
      decreases left
    {
      var k :| k in left;
      if k !in r {
        r := r[k := Some(fromFiles[k])];
      }
      left := left - {k};
    }
    assert (map k | k in fromFiles && k !in left :: fromFiles[k]) == fromFiles;
  }

  method MergeEnv(own: Assigned, fromFiles: map<string, string>) returns (list: seq<string>, ghost order: seq<string>)
    ensures IsOrderOf(order, Merged(own, fromFiles))
    ensures list == SpelledAll(order, Merged(own, fromFiles))
  {
    var m := MergeOver(own, fromFiles);
    list, order := [], [];
    var left := m.Keys;
    while left != {}
      invariant left <= m.Keys
      invariant forall i :: 0 <= i < |order| ==> order[i] in m && order[i] !in left
      invariant forall i, j :: 0 <= i < j < |order| ==> order[i] != order[j]
      invariant forall k :: k in m && k !in left ==> k in order
      invariant list == SpelledAll(order, m)
      decreases left
    {
      var k :| k in left;
      list := list + [match m[k] case Some(v) => k + "=" + v case None => k];
      order := order + [k];
      left := left - {k};
    }
  }

  /** Reads the merged list back, entry by entry. */
  method ReadEntries(host: map<string, string>, list: seq<string>) returns (env: map<string, string>)
    ensures env == Effective(host, list)
  {
    env := map[];
    var i := 0;
    while i < |list|
      invariant i <= |list| && env == Effective(host, list[..i])
    {
      assert list[..i + 1][..i] == list[..i];
      match IndexOf(list[i], '=') {
        case Some(at) => env := env[list[i][..at] := list[i][at + 1..]];
        case None =>
          if list[i] in host {
            env := env[list[i] := host[list[i]]];
          }
      }
      i := i + 1;
    }
    assert list[..i] == list;
  }

  /** `env` is what `m` comes to when its keys are handed out in some order. */
  ghost predicate RunsAs(host: map<string, string>, m: Assigned, env: map<string, string>) {
    exists order :: IsOrderOf(order, m) && env == Effective(host, SpelledAll(order, m))
  }

  /** `effective_env`: the environment the container runs with. With a `=` in a key
      it can depend on the order of the keys; it is what the map says unless such a
      key says something else. */
  method EffectiveEnv(w: World, s: Model) returns (r: Result<map<string, string>, EnvError>)
    ensures r.Err? <==> RunMap(w, s).Err?
    ensures r.Err? ==> r.error == RunMap(w, s).error
    ensures r.Ok? ==> RunsAs(w.host, RunMap(w, s).value, r.value)
    ensures r.Ok? && OddKeysSayAgain(w.host, RunMap(w, s).value) ==> r.value == Passed(w.host, RunMap(w, s).value)
  {
    hide LoadEntries, ToMap, Effective, Passed, Merged, SpelledAll, IsOrderOf, OddKeysSayAgain;
    var entries := ToEntries(s.envFile);
    var fromFiles: map<string, string> := map[];
    if entries != [] {
      var loaded := LoadEnvFileEntries(w, entries);
      if loaded.Err? {
        return Err(loaded.error);
      }
      fromFiles := loaded.value;
    } else {
      NothingToLoad(w);
    }
    ghost var m := Merged(ToMap(s.environment), fromFiles);
    var list, order := MergeEnv(ToMap(s.environment), fromFiles);
    var env := ReadEntries(w.host, list);
    assert RunsAs(w.host, m, env);
    RunsWithTheMergedMap(w.host, m);
    return Ok(env);
  }

  lemma NothingToLoad(w: World)
    ensures LoadEntries(w, []) == Ok(map[])
  {}

  /** A service of the compose file, as far as its environment goes. */
  class Service {
    var environment: EnvVars
    var envFile: EnvFile

    constructor (m: Model)
      ensures Contents() == m
    {
      environment, envFile := m.environment, m.envFile;
    }

    ghost function Contents(): Model
      reads this
    {
      Model(environment, envFile)
    }

    method MaterializeEnvFiles(w: World) returns (r: Option<EnvError>)
      modifies this
      ensures r.None? ==> Materialized(w, old(Contents()), Contents())
      ensures r.Some? <==> LoadEntries(w, ToEntries(old(envFile))).Err?
      ensures r.Some? ==> r.value == LoadEntries(w, ToEntries(old(envFile))).error && Contents() == old(Contents())
    {
      hide ToMap, Sorted;
      var entries := ToEntries(envFile);
      if entries == [] {
        NothingToLoad(w);
        return None;
      }
      var fromFiles := LoadEnvFileEntries(w, entries);
      if fromFiles.Err? {
        return Some(fromFiles.error);
      }
      var merged := MergeOver(ToMap(environment), fromFiles.value);
      var keys := SortKeys(merged.Keys);
      assert forall i :: 0 <= i < |keys| ==> keys[i] in SetOf(keys);
      environment := Table(AsTable(keys, merged));
      envFile := NoFile;
      assert IsSortedTable(environment, merged);
      return None;
    }
  }
}
