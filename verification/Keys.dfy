/** Map keys in byte order, whatever order the map hands them out in. */
module Keys {
  import opened Bytes

  predicate Less(a: Bytes, b: Bytes) {
    if |b| == 0 then false
    else if |a| == 0 then true
    else if a[0] != b[0] then a[0] < b[0]
    else Less(a[1..], b[1..])
  }

  /** The strings agree up to some place, and there the first has ended or has the smaller byte. */
  ghost predicate Precedes(a: Bytes, b: Bytes) {
    exists k: nat :: PrecedesAt(a, b, k)
  }

  predicate PrecedesAt(a: Bytes, b: Bytes, k: nat) {
    && k <= |a| && k < |b| && a[..k] == b[..k]
    && (k < |a| ==> a[k] < b[k])
  }

  lemma SameHead(a: Bytes, b: Bytes, k: nat)
    requires PrecedesAt(a, b, k) && k > 0
    ensures |a| > 0 && |b| > 0 && a[0] == b[0]
  {
    assert a[..k][0] == b[..k][0];
  }

  lemma {:induction false} LessIs(a: Bytes, b: Bytes)
    ensures Less(a, b) <==> Precedes(a, b)
    decreases |a|
  {
    if |a| == 0 || |b| == 0 || a[0] != b[0] {
      if Less(a, b) {
        assert PrecedesAt(a, b, 0);
      }
      if k: nat :| PrecedesAt(a, b, k) {
        if k > 0 {
          SameHead(a, b, k);
        }
      }
    } else {
      LessIs(a[1..], b[1..]);
      if k: nat :| PrecedesAt(a[1..], b[1..], k) {
        assert a[..k + 1] == [a[0]] + a[1..][..k] && b[..k + 1] == [b[0]] + b[1..][..k];
        assert PrecedesAt(a, b, k + 1);
      }
      if k: nat :| PrecedesAt(a, b, k) {
        assert a[1..][..k - 1] == a[..k][1..] && b[1..][..k - 1] == b[..k][1..];
        assert PrecedesAt(a[1..], b[1..], k - 1);
      }
    }
  }

  /** byteLess compares up to the shorter length, then by length. */
  method ByteLess(a: Bytes, b: Bytes) returns (less: bool)
    ensures less == Less(a, b)
    ensures less <==> Precedes(a, b)
  {
    LessIs(a, b);
    var n := |a|;
    if |b| < n {
      n := |b|;
    }
    var i := 0;
    while i < n
      invariant 0 <= i <= n
      invariant Less(a, b) == Less(a[i..], b[i..])
    {
      if a[i] != b[i] {
        return a[i] < b[i];
      }
      assert a[i..][1..] == a[i + 1..] && b[i..][1..] == b[i + 1..];
      i := i + 1;
    }
    return |a| < |b|;
  }

  /** A strict total order: exactly one of less, equal, greater. */
  lemma {:induction false} LessIsTotal(a: Bytes, b: Bytes)
    ensures if a == b then !Less(a, b) && !Less(b, a) else Less(a, b) != Less(b, a)
    decreases |a|
  {
    if |a| > 0 && |b| > 0 {
      LessIsTotal(a[1..], b[1..]);
      assert a == [a[0]] + a[1..] && b == [b[0]] + b[1..];
    }
  }

  lemma {:induction false} LessIsTransitive(a: Bytes, b: Bytes, c: Bytes)
    requires Less(a, b) && Less(b, c)
    ensures Less(a, c)
    decreases |a|
  {
    if |a| > 0 && a[0] == b[0] == c[0] {
      LessIsTransitive(a[1..], b[1..], c[1..]);
    }
  }

  /** What precedes something neither equals nor follows it. */
  lemma PrecedesOnce(a: Bytes, b: Bytes)
    requires Precedes(a, b)
    ensures a != b && !Precedes(b, a)
  {
    LessIs(a, b);
    LessIs(b, a);
    LessIsTotal(a, b);
  }

  predicate Ascending(ks: seq<Bytes>) {
    forall i, j :: 0 <= i < j < |ks| ==> Less(ks[i], ks[j])
  }

  function Elements(ks: seq<Bytes>): set<Bytes> {
    set k | k in ks
  }

  lemma HeadIsElement(ks: seq<Bytes>)
    ensures |ks| > 0 ==> ks[0] in Elements(ks)
  {
  }

  /** The ascending listing of a set is unique. */
  lemma {:induction false} OneListing(ks: seq<Bytes>, ls: seq<Bytes>)
    requires Ascending(ks) && Ascending(ls) && Elements(ks) == Elements(ls)
    ensures ks == ls
  {
    if |ks| == 0 {
      HeadIsElement(ls);
    } else {
      assert ks[0] in Elements(ls);
      var i :| 0 <= i < |ls| && ls[i] == ks[0];
      var j :| 0 <= j < |ks| && ks[j] == ls[0] by { assert ls[0] in Elements(ks); }
      LessIsTotal(ks[0], ls[0]);
      assert ks[0] == ls[0];
      forall k
        ensures k in Elements(ks[1..]) <==> k in Elements(ls[1..])
      {
        Rest(ks, k);
        Rest(ls, k);
      }
      OneListing(ks[1..], ls[1..]);
    }
  }

  lemma Rest(ks: seq<Bytes>, k: Bytes)
    requires |ks| > 0 && Ascending(ks)
    ensures k in Elements(ks[1..]) <==> k in Elements(ks) && k != ks[0]
  {
    LessIsTotal(ks[0], ks[0]);
    if k in Elements(ks) && k != ks[0] {
      var i :| 0 <= i < |ks| && ks[i] == k;
      assert ks[1..][i - 1] == k;
    }
  }

  ghost predicate Lists(ks: seq<Bytes>, s: set<Bytes>) {
    Ascending(ks) && Elements(ks) == s
  }

  function InsertKey(k: Bytes, ks: seq<Bytes>): (r: seq<Bytes>)
    requires Ascending(ks) && k !in ks
    ensures Ascending(r) && Elements(r) == Elements(ks) + {k} && |r| == |ks| + 1
  {
    if |ks| == 0 then [k]
    else if Less(k, ks[0]) then
      assert forall j :: 0 <= j < |ks| ==> Less(k, ks[j]) by {
        forall j | 0 < j < |ks|
          ensures Less(k, ks[j])
        {
          LessIsTransitive(k, ks[0], ks[j]);
        }
      }
      [k] + ks
    else
      LessIsTotal(k, ks[0]);
      var r := InsertKey(k, ks[1..]);
      assert forall j :: 0 <= j < |r| ==> r[j] in Elements(r);
      [ks[0]] + r
  }

  lemma {:induction false} HasListing(s: set<Bytes>)
    ensures exists ks :: Lists(ks, s)
  {
    if s == {} {
      assert Lists([], s);
    } else {
      var k :| k in s;
      HasListing(s - {k});
      var ks :| Lists(ks, s - {k});
      assert k !in Elements(ks);
      assert Lists(InsertKey(k, ks), s);
    }
  }

  ghost function Sorted(s: set<Bytes>): (ks: seq<Bytes>)
    ensures Lists(ks, s)
  {
    HasListing(s);
    var ks :| Lists(ks, s);
    ks
  }

  lemma SortedIsOnly(ks: seq<Bytes>, s: set<Bytes>)
    requires Lists(ks, s)
    ensures Sorted(s) == ks
  {
    OneListing(Sorted(s), ks);
  }

  /** What a listing is, told without the comparison function. */
  lemma Ordered(ks: seq<Bytes>, s: set<Bytes>)
    ensures Lists(ks, s) <==> (forall i, j :: 0 <= i < j < |ks| ==> Precedes(ks[i], ks[j])) && (forall k :: k in ks <==> k in s)
  {
    hide Less, Precedes;
    forall i, j | 0 <= i < j < |ks|
      ensures Less(ks[i], ks[j]) <==> Precedes(ks[i], ks[j])
    {
      LessIs(ks[i], ks[j]);
    }
    assert forall k :: k in Elements(ks) <==> k in ks;
  }

  ghost predicate Distinct(ks: seq<Bytes>) {
    forall i, j :: 0 <= i < j < |ks| ==> ks[i] != ks[j]
  }

  /** sortedKeys: the keys in the map's own order, then an insertion sort in place. */
  method SortedKeys(m: map<Bytes, Bytes>) returns (r: seq<Bytes>)
    ensures r == Sorted(m.Keys)
    ensures (forall i, j :: 0 <= i < j < |r| ==> Precedes(r[i], r[j])) && (forall k :: k in r <==> k in m)
  {
    var keys := Collect(m);
    assert keys[..0] == [];
    var i := 0;
    if keys.Length > 0 {
      i := 1;
    }
    while i < keys.Length
      invariant 0 <= i <= keys.Length
      invariant Ascending(keys[..i])
      invariant Distinct(keys[..]) && Elements(keys[..]) == m.Keys
    {
      Sink(keys, i);
      i := i + 1;
    }
    assert keys[..i] == keys[..];
    SortedIsOnly(keys[..], m.Keys);
    Ordered(keys[..], m.Keys);
    return keys[..];
  }

  lemma SnocElements(ks: seq<Bytes>, k: Bytes)
    ensures Elements(ks + [k]) == Elements(ks) + {k}
  {
    assert forall x :: x in ks + [k] <==> x in ks || x == k;
  }

  method Collect(m: map<Bytes, Bytes>) returns (keys: array<Bytes>)
    ensures fresh(keys) && Distinct(keys[..]) && Elements(keys[..]) == m.Keys
  {
    var found: seq<Bytes> := [];
    var rest := m.Keys;
    while rest != {}
      invariant rest <= m.Keys && Elements(found) == m.Keys - rest
      invariant Distinct(found)
      decreases |rest|
    {
      var k :| k in rest;
      assert k !in Elements(found);
      SnocElements(found, k);
      found := found + [k];
      rest := rest - {k};
    }
    keys := new Bytes[|found|](i requires 0 <= i < |found| => found[i]);
    assert keys[..] == found;
  }

  /** Everything before i is in order except that the key at j may still have to move down. */
  ghost predicate OrderedBut(ks: seq<Bytes>, j: nat) {
    forall a, b :: 0 <= a < b < |ks| && b != j ==> Less(ks[a], ks[b])
  }

  lemma SwapKeepsElements(ks: seq<Bytes>, ls: seq<Bytes>, j: nat)
    requires 0 < j < |ks| == |ls| && ls == ks[j := ks[j - 1]][j - 1 := ks[j]]
    ensures Elements(ls) == Elements(ks)
    ensures Distinct(ks) ==> Distinct(ls)
  {
    forall k
      ensures k in ls <==> k in ks
    {
      if k in ks {
        var i :| 0 <= i < |ks| && ks[i] == k;
        assert ls[if i == j then j - 1 else if i == j - 1 then j else i] == k;
      }
      if k in ls {
        var i :| 0 <= i < |ls| && ls[i] == k;
        assert ks[if i == j then j - 1 else if i == j - 1 then j else i] == k;
      }
    }
  }

  /** The inner loop: the key at i sinks to its place. */
  method Sink(keys: array<Bytes>, i: nat)
    requires 0 < i < keys.Length && Ascending(keys[..i]) && Distinct(keys[..])
    modifies keys
    ensures Ascending(keys[..i + 1])
    ensures Distinct(keys[..]) && Elements(keys[..]) == old(Elements(keys[..]))
  {
    var j := i;
    while j > 0
      invariant 0 <= j <= i
      invariant Distinct(keys[..]) && Elements(keys[..]) == old(Elements(keys[..]))
      invariant OrderedBut(keys[..i + 1], j)
      invariant forall b :: j < b <= i ==> Less(keys[j], keys[b])
    {
      var less := ByteLess(keys[j], keys[j - 1]);
      if !less {
        break;
      }
      ghost var was := keys[..];
      keys[j], keys[j - 1] := keys[j - 1], keys[j];
      SwapKeepsElements(was, keys[..], j);
      j := j - 1;
    }
    forall a | 0 <= a < j
      ensures Less(keys[a], keys[j])
    {
      LessIsTotal(keys[j], keys[j - 1]);
      assert keys[..][j - 1] != keys[..][j];
      if a < j - 1 {
        LessIsTransitive(keys[a], keys[j - 1], keys[j]);
      }
    }
  }
}
