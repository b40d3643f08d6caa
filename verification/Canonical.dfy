/**
 * Encodings tell their values apart, whatever bytes the strings hold: no encoding of one value
 * stands where the encoding of another does.
 */
module Canonical {
  import opened Bytes
  import opened Records
  import opened Strings
  import Integers
  import Keys
  import L = Lockstep
  import S = Schemas
  import Skip
  import T = RoundTrip

  // ---------------------------------------------------------------- scalars

  lemma IntegersTellApart(b: Bytes, p: nat, n: int, m: int)
    requires p <= |b| && Integers.MIN64 <= n <= Integers.MAX64 && Integers.MIN64 <= m <= Integers.MAX64
    requires StartsAt(b, p, Integers.Num(n)) && !Integers.Continues(At(b, p + |Integers.Num(n)|))
    requires StartsAt(b, p, Integers.Num(m)) && !Integers.Continues(At(b, p + |Integers.Num(m)|))
    ensures n == m
  {
    hide Integers.Num, StartsAt;
    Integers.NumReadsBack(b, p, Integers.MIN64, Integers.MAX64, n);
    Integers.NumReadsBack(b, p, Integers.MIN64, Integers.MAX64, m);
  }

  lemma BooleansTellApart(b: Bytes, p: nat, t: bool, u: bool)
    requires StartsAt(b, p, if t then Skip.TRUE else Skip.FALSE)
    requires StartsAt(b, p, if u then Skip.TRUE else Skip.FALSE)
    ensures t == u
  {
    Skip.FirstByte(b, p, if t then Skip.TRUE else Skip.FALSE);
    Skip.FirstByte(b, p, if u then Skip.TRUE else Skip.FALSE);
  }

  // ------------------------------------------------------------------- maps

  /** Where the name of a member stands, from where its line begins. */
  function NameAt(q: nat, depth: nat): nat {
    q + 1 + |Pad(depth + 1)|
  }

  lemma LabelledParts(b: Bytes, q: nat, key: Bytes, depth: nat, rest: Bytes)
    requires StartsAt(b, q, Label(key, depth) + rest)
    ensures StartsAt(b, NameAt(q, depth), Esc(key)) && StartsAt(b, NameAt(q, depth) + |Esc(key)| + 2, rest)
    ensures |Label(key, depth)| == NameAt(0, depth) + |Esc(key)| + 2
  {
    hide StartsAt, Esc, Pad;
    T.LabelParts(b, q, key, depth, rest);
  }

  /** Where a line stands, and where its parts do. */
  lemma LineParts(b: Bytes, p: nat, i: nat, depth: nat, key: Bytes, x: Bytes, next: Bytes)
    requires StartsAt(b, p, (if i == 0 then [] else [Skip.COMMA]) + (Label(key, depth) + (x + next)))
    ensures i > 0 ==> At(b, p) == Skip.COMMA
    ensures StartsAt(b, NameAt(if i == 0 then p else p + 1, depth), Esc(key))
    ensures var v := ValueAt(p, i, key, depth); StartsAt(b, v, x) && StartsAt(b, v + |x|, next)
  {
    var comma: Bytes := if i == 0 then [] else [Skip.COMMA];
    hide StartsAt, Esc, Label, Pad;
    StartsCat(b, p, comma, Label(key, depth) + (x + next));
    if i > 0 {
      StartsOne(b, p, Skip.COMMA);
    }
    LabelledParts(b, if i == 0 then p else p + 1, key, depth, x + next);
    StartsCat(b, ValueAt(p, i, key, depth), x, next);
  }

  ghost predicate Has(ks: seq<Bytes>, m: map<Bytes, Bytes>) {
    forall x :: x in ks ==> x in m
  }

  /** Where the value of the entry in front stands. */
  function ValueAt(p: nat, i: nat, key: Bytes, depth: nat): nat {
    NameAt(if i == 0 then p else p + 1, depth) + |Esc(key)| + 2
  }

  lemma MapUnfolds(ks: seq<Bytes>, m: map<Bytes, Bytes>, i: nat, depth: nat)
    requires Has(ks, m) && i < |ks|
    ensures MapRest(ks, m, i, depth) ==
      (if i == 0 then [] else [Skip.COMMA]) + (Label(ks[i], depth) + (Esc(m[ks[i]]) + MapRest(ks, m, i + 1, depth)))
  {
    hide Label, Esc;
  }

  lemma EntryParts(b: Bytes, p: nat, ks: seq<Bytes>, m: map<Bytes, Bytes>, i: nat, depth: nat)
    requires Has(ks, m) && i < |ks| && StartsAt(b, p, MapRest(ks, m, i, depth))
    ensures i > 0 ==> At(b, p) == Skip.COMMA
    ensures StartsAt(b, NameAt(if i == 0 then p else p + 1, depth), Esc(ks[i]))
    ensures var v := ValueAt(p, i, ks[i], depth);
      StartsAt(b, v, Esc(m[ks[i]])) && StartsAt(b, v + |Esc(m[ks[i]])|, MapRest(ks, m, i + 1, depth))
  {
    MapUnfolds(ks, m, i, depth);
    hide StartsAt, Esc, Label, MapRest, NameAt, ValueAt;
    LineParts(b, p, i, depth, ks[i], Esc(m[ks[i]]), MapRest(ks, m, i + 1, depth));
  }

  lemma CloseAt(b: Bytes, p: nat, depth: nat)
    requires StartsAt(b, p, Close(depth))
    ensures At(b, p) == NEWLINE
  {
    Skip.FirstByte(b, p, Close(depth));
  }

  lemma EntriesEnd(b: Bytes, p: nat, ks: seq<Bytes>, m: map<Bytes, Bytes>, i: nat, depth: nat)
    requires Has(ks, m) && 0 < i <= |ks| && StartsAt(b, p, MapRest(ks, m, i, depth))
    ensures At(b, p) == if i == |ks| then NEWLINE else Skip.COMMA
  {
    if i == |ks| {
      CloseAt(b, p, depth);
    } else {
      EntryParts(b, p, ks, m, i, depth);
    }
  }

  /** A name, its colon and its value stand at q. */
  predicate Entry(b: Bytes, q: nat, key: Bytes, x: Bytes) {
    StartsAt(b, q, Esc(key)) && StartsAt(b, q + |Esc(key)|, [Skip.COLON, SPACE]) && StartsAt(b, q + |Esc(key)| + 2, Esc(x))
  }

  lemma EntryAtLabel(b: Bytes, q: nat, key: Bytes, depth: nat, x: Bytes, next: Bytes)
    requires StartsAt(b, q, Label(key, depth) + (Esc(x) + next))
    ensures Entry(b, NameAt(q, depth), key, x)
  {
    hide StartsAt, Esc, Label, Pad;
    T.LabelParts(b, q, key, depth, Esc(x) + next);
    var c := NameAt(q, depth) + |Esc(key)|;
    StartsCat(b, c + 2, Esc(x), next);
    TwoBytes(b, c);
  }

  lemma EntryHere(b: Bytes, p: nat, ks: seq<Bytes>, m: map<Bytes, Bytes>, i: nat, depth: nat)
    requires Has(ks, m) && i < |ks| && StartsAt(b, p, MapRest(ks, m, i, depth))
    ensures Entry(b, NameAt(if i == 0 then p else p + 1, depth), ks[i], m[ks[i]])
  {
    hide StartsAt, Esc, Label, Pad, MapRest, Entry, NameAt;
    MapUnfolds(ks, m, i, depth);
    StartsCat(b, p, if i == 0 then [] else [Skip.COMMA], Label(ks[i], depth) + (Esc(m[ks[i]]) + MapRest(ks, m, i + 1, depth)));
    EntryAtLabel(b, if i == 0 then p else p + 1, ks[i], depth, m[ks[i]], MapRest(ks, m, i + 1, depth));
  }

  lemma TwoBytes(b: Bytes, c: nat)
    requires c + 1 < |b| && b[c] == Skip.COLON && b[c + 1] == SPACE
    ensures StartsAt(b, c, [Skip.COLON, SPACE])
  {
    assert b[c..c + 2] == [b[c], b[c + 1]];
  }

  /** Where the j-th entry stands, past the i-th. */
  lemma {:induction false} EntryLater(b: Bytes, p: nat, ks: seq<Bytes>, m: map<Bytes, Bytes>, i: nat, j: nat, depth: nat)
    returns (q: nat)
    requires Has(ks, m) && i < j < |ks| && StartsAt(b, p, MapRest(ks, m, i, depth))
    ensures q > NameAt(if i == 0 then p else p + 1, depth) && Entry(b, q, ks[j], m[ks[j]])
    decreases j - i
  {
    hide StartsAt, Esc, MapRest, Entry, Pad;
    EntryParts(b, p, ks, m, i, depth);
    var e := ValueAt(p, i, ks[i], depth) + |Esc(m[ks[i]])|;
    if i + 1 == j {
      EntryHere(b, e, ks, m, j, depth);
      q := NameAt(e + 1, depth);
    } else {
      q := EntryLater(b, e, ks, m, i + 1, j, depth);
    }
  }

  /** The i-th entry, and the text from it on. */
  lemma {:induction false} EntryReached(b: Bytes, p: nat, ks: seq<Bytes>, m: map<Bytes, Bytes>, i: nat, j: nat, depth: nat)
    returns (q: nat)
    requires Has(ks, m) && i <= j < |ks| && StartsAt(b, p, MapRest(ks, m, i, depth))
    ensures StartsAt(b, q, MapRest(ks, m, j, depth))
    decreases j - i
  {
    hide StartsAt, Esc, MapRest;
    if i == j {
      q := p;
    } else {
      EntryParts(b, p, ks, m, i, depth);
      q := EntryReached(b, ValueAt(p, i, ks[i], depth) + |Esc(m[ks[i]])|, ks, m, i + 1, j, depth);
    }
  }

  /** A map is written with its keys ascending: of two of them, the one that precedes stands first, its value with it. */
  lemma EntriesInOrder(m: map<Bytes, Bytes>, depth: nat, x: Bytes, y: Bytes) returns (p: nat, q: nat)
    requires x in m && y in m && Keys.Precedes(x, y)
    ensures p < q && Entry(EncMap(m, depth), p, x, m[x]) && Entry(EncMap(m, depth), q, y, m[y])
  {
    hide StartsAt, Esc, MapRest, Entry, Keys.Precedes, Pad;
    var ks, b := Keys.Sorted(m.Keys), EncMap(m, depth);
    Keys.Ordered(ks, m.Keys);
    var i :| 0 <= i < |ks| && ks[i] == x;
    var j :| 0 <= j < |ks| && ks[j] == y;
    Keys.PrecedesOnce(x, y);
    L.StartsItself(b);
    StartsCat(b, 0, [LBRACE], MapRest(ks, m, 0, depth));
    var r := EntryReached(b, 1, ks, m, 0, i, depth);
    EntryHere(b, r, ks, m, i, depth);
    p := NameAt(if i == 0 then r else r + 1, depth);
    q := EntryLater(b, r, ks, m, i, j, depth);
  }

  lemma {:induction false} EntriesTellApart(b: Bytes, p: nat, ks: seq<Bytes>, m: map<Bytes, Bytes>,
                                            ls: seq<Bytes>, n: map<Bytes, Bytes>, i: nat, depth: nat)
    requires Has(ks, m) && Has(ls, n) && i <= |ks| && i <= |ls| && (i == 0 ==> |ks| > 0 && |ls| > 0)
    requires StartsAt(b, p, MapRest(ks, m, i, depth)) && StartsAt(b, p, MapRest(ls, n, i, depth))
    ensures |ks| == |ls| && forall j :: i <= j < |ks| ==> ks[j] == ls[j] && m[ks[j]] == n[ks[j]]
    decreases |ks| - i
  {
    hide StartsAt, MapRest, Esc, Label, Pad;
    if i > 0 {
      EntriesEnd(b, p, ks, m, i, depth);
      EntriesEnd(b, p, ls, n, i, depth);
    }
    if i < |ks| {
      EntryParts(b, p, ks, m, i, depth);
      EntryParts(b, p, ls, n, i, depth);
      EscPrefixFree(b, NameAt(if i == 0 then p else p + 1, depth), ks[i], ls[i]);
      var v := ValueAt(p, i, ks[i], depth);
      EscPrefixFree(b, v, m[ks[i]], n[ls[i]]);
      EntriesTellApart(b, v + |Esc(m[ks[i]])|, ks, m, ls, n, i + 1, depth);
    }
  }

  /** The written form of a map, opened. */
  lemma MapOpened(b: Bytes, p: nat, m: map<Bytes, Bytes>, depth: nat)
    requires StartsAt(b, p, EncMap(m, depth))
    ensures var ks := Keys.Sorted(m.Keys); Has(ks, m) && (forall x :: x in ks <==> x in m)
    ensures |Keys.Sorted(m.Keys)| == 0 ==> At(b, p + 1) == RBRACE
    ensures |Keys.Sorted(m.Keys)| > 0 ==> StartsAt(b, p + 1, MapRest(Keys.Sorted(m.Keys), m, 0, depth)) && At(b, p + 1) == NEWLINE
  {
    T.SortedKeysOf(m);
    var ks := Keys.Sorted(m.Keys);
    if |ks| == 0 {
      T.EmptyBraces(b, p);
    } else {
      StartsCat(b, p, [LBRACE], MapRest(ks, m, 0, depth));
      Skip.FirstByte(b, p + 1, MapRest(ks, m, 0, depth));
    }
  }

  lemma MapsTellApart(b: Bytes, p: nat, m: map<Bytes, Bytes>, n: map<Bytes, Bytes>, depth: nat)
    requires StartsAt(b, p, EncMap(m, depth)) && StartsAt(b, p, EncMap(n, depth))
    ensures m == n
  {
    hide StartsAt, MapRest, EncMap, Keys.Lists;
    MapOpened(b, p, m, depth);
    MapOpened(b, p, n, depth);
    var ks, ls := Keys.Sorted(m.Keys), Keys.Sorted(n.Keys);
    if |ks| > 0 {
      EntriesTellApart(b, p + 1, ks, m, ls, n, 0, depth);
      assert ks == ls;
    }
    SameMap(ks, m, n);
  }

  lemma SameMap(ks: seq<Bytes>, m: map<Bytes, Bytes>, n: map<Bytes, Bytes>)
    requires (forall x :: x in ks <==> x in m) && (forall x :: x in ks <==> x in n)
    requires forall j :: 0 <= j < |ks| ==> ks[j] in m && ks[j] in n && m[ks[j]] == n[ks[j]]
    ensures m == n
  {
    forall x | x in m
      ensures x in n && m[x] == n[x]
    {
      assert x in ks;
    }
    assert m.Keys == n.Keys;
  }

  // ---------------------------------------------------------------- records

  /** Every opaque part is a whole value; nothing is asked of the strings. */
  ghost predicate Carried(k: Kind, v: Value, d: nat)
    requires Typed(k, v)
  {
    match k
    case KRaw => Whole(v.text, d)
    case KRec(fields) => forall i :: 0 <= i < |fields| && v.vals[i].Some? ==> Carried(fields[i].kind, v.vals[i].value, d + 1)
    case _ => true
  }

  lemma {:induction false} InterpretedIsCarried(k: Kind, v: Value, d: nat)
    requires S.Interpreted(k) && Typed(k, v)
    ensures Carried(k, v, d)
    decreases k
  {
    if k.KRec? {
      forall i | 0 <= i < |k.fields| && v.vals[i].Some?
        ensures Carried(k.fields[i].kind, v.vals[i].value, d + 1)
      {
        InterpretedIsCarried(k.fields[i].kind, v.vals[i].value, d + 1);
      }
    }
  }

  /** A value that can be written, of a schema the generator can have emitted. */
  ghost predicate Written(k: Kind, v: Value, d: nat) {
    GoodKind(k) && Typed(k, v) && Known(k, v) && Carried(k, v, d)
  }

  lemma PartWritten(fields: seq<Field>, vals: seq<Option<Value>>, i: nat, d: nat)
    requires Written(KRec(fields), VRec(vals), d) && i < |fields| && vals[i].Some?
    ensures Written(fields[i].kind, vals[i].value, d + 1)
    ensures Typed(fields[i].kind, vals[i].value) && Known(fields[i].kind, vals[i].value)
    ensures Typed(KRec(fields), VRec(vals)) && Known(KRec(fields), VRec(vals)) && |vals| == |fields|
  {
  }

  /** The member in front, when the i-th field is there. */
  lemma MemberParts(b: Bytes, p: nat, depth: nat, d: nat, fields: seq<Field>, vals: seq<Option<Value>>, i: nat)
    requires Written(KRec(fields), VRec(vals), d) && i < |fields| && vals[i].Some?
    requires StartsAt(b, p, EncRest(fields, vals, i, depth))
    ensures i > 0 ==> At(b, p) == Skip.COMMA
    ensures Written(fields[i].kind, vals[i].value, d + 1)
    ensures StartsAt(b, NameAt(if i == 0 then p else p + 1, depth), Esc(fields[i].key))
    ensures var v := ValueAt(p, i, fields[i].key, depth); var x := Enc(fields[i].kind, vals[i].value, depth + 1);
      && StartsAt(b, v, x) && StartsAt(b, v + |x|, EncRest(fields, vals, i + 1, depth))
      && !Integers.Continues(At(b, v + |x|))
  {
    hide *;
    PartWritten(fields, vals, i, d);
    var x, next := Enc(fields[i].kind, vals[i].value, depth + 1), EncRest(fields, vals, i + 1, depth);
    RestUnfolds(fields, vals, i, depth);
    LineParts(b, p, i, depth, fields[i].key, x, next);
    RestStops(b, ValueAt(p, i, fields[i].key, depth) + |x|, depth, d, fields, vals, i + 1);
  }

  lemma RestUnfolds(fields: seq<Field>, vals: seq<Option<Value>>, i: nat, depth: nat)
    requires i < |fields| && Typed(KRec(fields), VRec(vals)) && Known(KRec(fields), VRec(vals))
    ensures EncRest(fields, vals, i, depth) ==
      if vals[i].None? then EncRest(fields, vals, i + 1, depth)
      else
        (if i == 0 then [] else [Skip.COMMA])
        + (Label(fields[i].key, depth) + (Enc(fields[i].kind, vals[i].value, depth + 1) + EncRest(fields, vals, i + 1, depth)))
  {
    hide Label, Enc;
  }

  lemma RestStops(b: Bytes, p: nat, depth: nat, d: nat, fields: seq<Field>, vals: seq<Option<Value>>, i: nat)
    requires Written(KRec(fields), VRec(vals), d) && 0 < i <= |fields| && StartsAt(b, p, EncRest(fields, vals, i, depth))
    ensures !Integers.Continues(At(b, p))
  {
    hide StartsAt, EncRest;
    T.RestStart(fields, vals, i, depth);
    Skip.FirstByte(b, p, EncRest(fields, vals, i, depth));
    T.EndsStops(At(b, p));
  }

  /** The next field that is there, from the i-th on. */
  function Following(vals: seq<Option<Value>>, i: nat): (l: nat)
    requires i <= |vals|
    ensures i <= l <= |vals| && (l < |vals| ==> vals[l].Some?)
    decreases |vals| - i
  {
    if i == |vals| || vals[i].Some? then i else Following(vals, i + 1)
  }

  lemma {:induction false} RestFollows(fields: seq<Field>, vals: seq<Option<Value>>, i: nat, depth: nat)
    requires i <= |fields| && Typed(KRec(fields), VRec(vals)) && Known(KRec(fields), VRec(vals))
    ensures EncRest(fields, vals, i, depth) == EncRest(fields, vals, Following(vals, i), depth)
    decreases |fields| - i
  {
    hide Enc, EncRest;
    if i < |fields| && vals[i].None? {
      RestUnfolds(fields, vals, i, depth);
      RestFollows(fields, vals, i + 1, depth);
    }
  }

  /** What stands in front tells which field comes next, or that none does. */
  lemma NextField(b: Bytes, p: nat, depth: nat, d: nat, fields: seq<Field>, vals: seq<Option<Value>>, i: nat)
    requires Written(KRec(fields), VRec(vals), d) && 0 < i <= |fields| && StartsAt(b, p, EncRest(fields, vals, i, depth))
    ensures var l := Following(vals, i);
      if l == |fields| then At(b, p) == NEWLINE
      else At(b, p) == Skip.COMMA && StartsAt(b, NameAt(p + 1, depth), Esc(fields[l].key))
  {
    hide StartsAt, Esc, Enc, EncRest, Label, Pad;
    var l := Following(vals, i);
    RestFollows(fields, vals, i, depth);
    if l == |fields| {
      RestEnds(fields, vals, depth);
      CloseAt(b, p, depth);
    } else {
      MemberParts(b, p, depth, d, fields, vals, l);
    }
  }

  lemma RestEnds(fields: seq<Field>, vals: seq<Option<Value>>, depth: nat)
    requires Typed(KRec(fields), VRec(vals)) && Known(KRec(fields), VRec(vals))
    ensures EncRest(fields, vals, |fields|, depth) == Close(depth)
  {
  }

  /** Two records whose rests stand at one place go on with the same field. */
  lemma SameField(b: Bytes, p: nat, depth: nat, d: nat, fields: seq<Field>, vals: seq<Option<Value>>, wals: seq<Option<Value>>, i: nat)
    requires Written(KRec(fields), VRec(vals), d) && Written(KRec(fields), VRec(wals), d) && 0 < i <= |fields|
    requires StartsAt(b, p, EncRest(fields, vals, i, depth)) && StartsAt(b, p, EncRest(fields, wals, i, depth))
    ensures Following(vals, i) == Following(wals, i)
  {
    hide StartsAt, Esc, Enc, EncRest;
    NextField(b, p, depth, d, fields, vals, i);
    NextField(b, p, depth, d, fields, wals, i);
    var l, k := Following(vals, i), Following(wals, i);
    if l < |fields| && k < |fields| {
      EscPrefixFree(b, NameAt(p + 1, depth), fields[l].key, fields[k].key);
    }
  }

  lemma SameThere(b: Bytes, p: nat, depth: nat, d: nat, fields: seq<Field>, vals: seq<Option<Value>>, wals: seq<Option<Value>>, i: nat)
    requires Written(KRec(fields), VRec(vals), d) && Written(KRec(fields), VRec(wals), d) && i < |fields|
    requires StartsAt(b, p, EncRest(fields, vals, i, depth)) && StartsAt(b, p, EncRest(fields, wals, i, depth))
    ensures vals[i].Some? <==> wals[i].Some?
  {
    Aligned(fields, vals, wals, d);
    hide StartsAt, EncRest, Written;
    if i > 0 {
      SameField(b, p, depth, d, fields, vals, wals, i);
    }
  }

  lemma {:induction false} RestTellsApart(b: Bytes, p: nat, depth: nat, d: nat, fields: seq<Field>,
                                          vals: seq<Option<Value>>, wals: seq<Option<Value>>, i: nat)
    requires Written(KRec(fields), VRec(vals), d) && Written(KRec(fields), VRec(wals), d) && i <= |fields| && p <= |b|
    requires StartsAt(b, p, EncRest(fields, vals, i, depth)) && StartsAt(b, p, EncRest(fields, wals, i, depth))
    ensures |vals| == |wals| == |fields| && forall j :: i <= j < |fields| ==> vals[j] == wals[j]
    decreases fields, |fields| - i
  {
    hide *;
    Aligned(fields, vals, wals, d);
    if i < |fields| {
      SameThere(b, p, depth, d, fields, vals, wals, i);
      if vals[i].None? {
        NoneThere(b, p, depth, d, fields, vals, i);
        NoneThere(b, p, depth, d, fields, wals, i);
        RestTellsApart(b, p, depth, d, fields, vals, wals, i + 1);
      } else {
        var q := FieldTellsApart(b, p, depth, d, fields, vals, wals, i);
        RestTellsApart(b, q, depth, d, fields, vals, wals, i + 1);
      }
    }
  }

  lemma NoneThere(b: Bytes, p: nat, depth: nat, d: nat, fields: seq<Field>, vals: seq<Option<Value>>, i: nat)
    requires Written(KRec(fields), VRec(vals), d) && i < |fields| && vals[i].None?
    requires StartsAt(b, p, EncRest(fields, vals, i, depth))
    ensures StartsAt(b, p, EncRest(fields, vals, i + 1, depth))
  {
    hide StartsAt, Enc;
  }

  /** The field in front is the same in both, and so is the place where the rest goes on. */
  lemma {:induction false} FieldTellsApart(b: Bytes, p: nat, depth: nat, d: nat, fields: seq<Field>,
                                           vals: seq<Option<Value>>, wals: seq<Option<Value>>, i: nat) returns (q: nat)
    requires Written(KRec(fields), VRec(vals), d) && Written(KRec(fields), VRec(wals), d) && i < |fields|
    requires vals[i].Some? && wals[i].Some?
    requires StartsAt(b, p, EncRest(fields, vals, i, depth)) && StartsAt(b, p, EncRest(fields, wals, i, depth))
    ensures vals[i] == wals[i] && q <= |b|
    ensures StartsAt(b, q, EncRest(fields, vals, i + 1, depth)) && StartsAt(b, q, EncRest(fields, wals, i + 1, depth))
    decreases fields, 0
  {
    hide StartsAt, Esc, Enc, EncRest, Carried, GoodKind, NameAt, ValueAt, Integers.Continues;
    MemberParts(b, p, depth, d, fields, vals, i);
    MemberParts(b, p, depth, d, fields, wals, i);
    var v := ValueAt(p, i, fields[i].key, depth);
    q := v + |Enc(fields[i].kind, vals[i].value, depth + 1)|;
    Skip.StartsBound(b, v, Enc(fields[i].kind, vals[i].value, depth + 1));
    EncTellsApart(b, v, depth + 1, d + 1, fields[i].kind, vals[i].value, wals[i].value);
  }

  lemma Aligned(fields: seq<Field>, vals: seq<Option<Value>>, wals: seq<Option<Value>>, d: nat)
    requires Written(KRec(fields), VRec(vals), d) && Written(KRec(fields), VRec(wals), d)
    ensures |vals| == |wals| == |fields| && (|fields| > 0 ==> vals[0].Some? && wals[0].Some?)
  {
  }

  lemma WordsTellApart(b: Bytes, p: nat, words: seq<Bytes>, i: nat, j: nat)
    requires GoodKind(KEnum(words)) && i < |words| && j < |words|
    requires StartsAt(b, p, Esc(words[i])) && StartsAt(b, p, Esc(words[j]))
    ensures i == j
  {
    hide StartsAt, Esc;
    EscPrefixFree(b, p, words[i], words[j]);
  }

  lemma OpaquesTellApart(b: Bytes, p: nat, d: nat, s: Bytes, t: Bytes)
    requires p <= |b| && Whole(s, d) && Whole(t, d) && StartsAt(b, p, s) && StartsAt(b, p, t)
    requires !Integers.Continues(At(b, p + |s|)) && !Integers.Continues(At(b, p + |t|))
    ensures s == t
  {
    hide Skip.SkipValue;
    assert Skip.SkipValue(b, p, d) == Skip.Step(p + |s|) == Skip.Step(p + |t|);
  }

  /**
   * Where encodings of two values of one schema stand at one place, neither cut short by a longer
   * number, the values are equal: invalid strings included.
   */
  lemma {:induction false} EncTellsApart(b: Bytes, p: nat, depth: nat, d: nat, k: Kind, v: Value, w: Value)
    requires Written(k, v, d) && Written(k, w, d) && p <= |b|
    requires StartsAt(b, p, Enc(k, v, depth)) && !Integers.Continues(At(b, p + |Enc(k, v, depth)|))
    requires StartsAt(b, p, Enc(k, w, depth)) && !Integers.Continues(At(b, p + |Enc(k, w, depth)|))
    ensures v == w
    decreases k
  {
    hide StartsAt, Esc, EncRest, EncMap, Whole, Integers.Num;
    match k
    case KStr => EscPrefixFree(b, p, v.s, w.s);
    case KInt(_, _) => IntegersTellApart(b, p, v.n, w.n);
    case KBool => BooleansTellApart(b, p, v.t, w.t);
    case KMap => MapsTellApart(b, p, v.m, w.m, depth);
    case KEnum(words) => WordsTellApart(b, p, words, v.tag - 1, w.tag - 1);
    case KRaw => OpaquesTellApart(b, p, d, v.text, w.text);
    case KRec(fields) =>
      if |fields| > 0 {
        StartsCat(b, p, [LBRACE], EncRest(fields, v.vals, 0, depth));
        StartsCat(b, p, [LBRACE], EncRest(fields, w.vals, 0, depth));
        Skip.StartsBound(b, p + 1, EncRest(fields, v.vals, 0, depth));
        RestTellsApart(b, p + 1, depth, d, fields, v.vals, w.vals, 0);
      }
      assert v.vals == w.vals;
  }

  /** Equal encodings come from equal values. */
  lemma EncIsInjective(k: Kind, v: Value, w: Value, depth: nat, d: nat)
    requires Written(k, v, d) && Written(k, w, d) && Enc(k, v, depth) == Enc(k, w, depth)
    ensures v == w
  {
    hide Enc, Carried, StartsAt;
    L.StartsItself(Enc(k, v, depth));
    EncTellsApart(Enc(k, v, depth), 0, depth, d, k, v, w);
  }
}
