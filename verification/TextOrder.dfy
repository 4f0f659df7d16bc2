/** The order Rust's `String` has: that of the bytes. */
module TextOrder {
  import opened Prelude
  import opened Utf8

  predicate BytesLess(a: Bytes, b: Bytes) {
    b != [] && (a == [] || a[0] < b[0] || (a[0] == b[0] && BytesLess(a[1..], b[1..])))
  }

  lemma {:induction false} BytesLessIsTransitive(a: Bytes, b: Bytes, c: Bytes)
    requires BytesLess(a, b) && BytesLess(b, c)
    ensures BytesLess(a, c)
  {
    if a != [] && a[0] == b[0] == c[0] {
      BytesLessIsTransitive(a[1..], b[1..], c[1..]);
    }
  }

  lemma {:induction false} BytesLessIsTotal(a: Bytes, b: Bytes)
    ensures a == b || BytesLess(a, b) || BytesLess(b, a)
    ensures !(BytesLess(a, b) && BytesLess(b, a))
    ensures a == b ==> !BytesLess(a, b)
  {
    if a != [] && b != [] {
      BytesLessIsTotal(a[1..], b[1..]);
      assert a == [a[0]] + a[1..] && b == [b[0]] + b[1..];
    }
  }

  predicate Less(a: string, b: string) {
    BytesLess(Encode(a), Encode(b))
  }

  lemma LessIsTransitive(a: string, b: string, c: string)
    requires Less(a, b) && Less(b, c)
    ensures Less(a, c)
  {
    BytesLessIsTransitive(Encode(a), Encode(b), Encode(c));
  }

  lemma LessIsTotal(a: string, b: string)
    ensures a == b || Less(a, b) || Less(b, a)
    ensures !(Less(a, b) && Less(b, a)) && !Less(a, a)
  {
    hide BytesLess, Encode;
    BytesLessIsTotal(Encode(a), Encode(b));
    BytesLessIsTotal(Encode(a), Encode(a));
    if Encode(a) == Encode(b) {
      EncodeIsFaithful(a, b);
    }
  }

  ghost predicate Sorted(keys: seq<string>) {
    forall i, j :: 0 <= i < j < |keys| ==> Less(keys[i], keys[j])
  }

  ghost function SetOf(keys: seq<string>): set<string> {
    set i | 0 <= i < |keys| :: keys[i]
  }

  lemma NothingListed(a: seq<string>)
    ensures SetOf(a) == {} <==> a == []
  {
    if a != [] {
      assert a[0] in SetOf(a);
    }
  }

  /** There is one way to list a set of keys in order. */
  lemma {:induction false} SortedIsUnique(a: seq<string>, b: seq<string>)
    requires Sorted(a) && Sorted(b) && SetOf(a) == SetOf(b)
    ensures a == b
  {
    hide Less;
    NothingListed(a);
    NothingListed(b);
    if a != [] {
      assert a[0] in SetOf(b);
      assert b[0] in SetOf(a);
      FirstIsLeast(a, b);
      assert SetOf(a[1..]) == SetOf(b[1..]) by { RestOfSorted(a); RestOfSorted(b); }
      SortedIsUnique(a[1..], b[1..]);
      assert a == [a[0]] + a[1..] && b == [b[0]] + b[1..];
    }
  }

  lemma FirstIsLeast(a: seq<string>, b: seq<string>)
    requires Sorted(a) && Sorted(b) && a != [] && b != [] && a[0] in SetOf(b) && b[0] in SetOf(a)
    ensures a[0] == b[0]
  {
    hide Less;
    var i :| 0 <= i < |b| && b[i] == a[0];
    var j :| 0 <= j < |a| && a[j] == b[0];
    LessIsTotal(a[0], b[0]);
  }

  lemma RestOfSorted(a: seq<string>)
    requires Sorted(a) && a != []
    ensures SetOf(a[1..]) == SetOf(a) - {a[0]}
    ensures Sorted(a[1..])
  {
    hide Less;
    forall k ensures k in SetOf(a[1..]) <==> k in SetOf(a) - {a[0]} {
      if k in SetOf(a[1..]) {
        var i :| 0 <= i < |a[1..]| && a[1..][i] == k;
        assert a[i + 1] == k && Less(a[0], a[i + 1]);
        LessIsTotal(a[0], k);
      }
      if k in SetOf(a) - {a[0]} {
        var i :| 0 <= i < |a| && a[i] == k;
        assert a[1..][i - 1] == k;
      }
    }
  }

  /** Where a key goes in a sorted list. */
  method InsertSorted(keys: seq<string>, k: string) returns (r: seq<string>)
    requires Sorted(keys) && k !in SetOf(keys)
    ensures Sorted(r) && SetOf(r) == SetOf(keys) + {k}
  {
    hide Less;
    var i := 0;
    while i < |keys| && Less(keys[i], k)
      invariant i <= |keys|
      invariant forall j :: 0 <= j < i ==> Less(keys[j], k)
    {
      i := i + 1;
    }
    r := keys[..i] + [k] + keys[i..];
    forall j | i <= j < |keys| ensures Less(k, keys[j]) {
      assert keys[i] in SetOf(keys);
      LessIsTotal(k, keys[i]);
      if j > i {
        LessIsTransitive(k, keys[i], keys[j]);
      }
    }
    assert forall j :: 0 <= j < |keys| ==> keys[j] == r[if j < i then j else j + 1];
    assert r[i] == k;
  }

  /** `keys().cloned().collect()` then `sort()`: the map hands its keys out in any
      order. */
  method SortKeys(keys: set<string>) returns (r: seq<string>)
    ensures Sorted(r) && SetOf(r) == keys
  {
    r := [];
    var left := keys;
    while left != {}
      invariant left <= keys && Sorted(r) && SetOf(r) == keys - left
      decreases left
    {
      var k :| k in left;
      r := InsertSorted(r, k);
      left := left - {k};
    }
  }
}
