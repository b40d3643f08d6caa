/** Which records are accepted: the account of their members, told apart from the loop that keeps it. */
module Accounting {
  import opened Bytes
  import opened Records
  import L = Lockstep
  import Reader
  import Skip

  /** A member as it stands in the text: its name, and where its value begins. */
  datatype Entry = Entry(name: Bytes, at: nat)

  /** The members of an object from p up to its brace, names read and values walked over. */
  function Entries(b: Bytes, p: nat, d: nat): (r: Res<seq<Entry>>)
    requires p <= |b|
    ensures r.Ok? ==> r.pos <= |b| && |r.value| > 0 && forall i :: 0 <= i < |r.value| ==> r.value[i].at <= |b|
    decreases |b| - p
  {
    match Name(b, p)
    case Err(w, o) => Err(w, o)
    case Ok(name, c) =>
      var v := Ws(b, c + 1);
      match Skip.SkipValue(b, v, d)
      case Err(w, o) => Err(w, o)
      case Ok(_, e) =>
        var n := Ws(b, e);
        if At(b, n) == RBRACE then Ok([Entry(name, v)], n + 1)
        else if At(b, n) != Skip.COMMA then Err(Malformed, n)
        else
          match Entries(b, n + 1, d)
          case Err(w, o) => Err(w, o)
          case Ok(es, q) => Ok([Entry(name, v)] + es, q)
  }

  /** The entry names a field, and its value is of that field's kind. */
  predicate Suits(b: Bytes, d: nat, fields: seq<Field>, e: Entry)
    requires e.at <= |b|
  {
    var k := FieldIndex(fields, e.name, 0);
    k < |fields| && Dec(b, e.at, d, fields[k].kind).Ok?
  }

  /** The value of a kind that stands at a place, if one does. */
  function ValueAt(b: Bytes, p: nat, d: nat, k: Kind): Option<Value>
    requires p <= |b|
  {
    match Dec(b, p, d, k)
    case Ok(v, _) => Some(v)
    case Err(_, _) => None
  }

  predicate InText(b: Bytes, es: seq<Entry>) {
    forall i :: 0 <= i < |es| ==> es[i].at <= |b|
  }

  /** No field is named twice, and none that is already there. */
  predicate Fresh(fields: seq<Field>, es: seq<Entry>, vals: seq<Option<Value>>)
    requires |vals| == |fields|
  {
    && (forall i, j :: 0 <= i < j < |es| ==> es[i].name != es[j].name)
    && (forall i, k :: 0 <= i < |es| && 0 <= k < |fields| && fields[k].key == es[i].name ==> vals[k].None?)
  }

  /** The values the entries give, put into the places of their fields. */
  function Gather(b: Bytes, d: nat, fields: seq<Field>, es: seq<Entry>, vals: seq<Option<Value>>): (r: Option<seq<Option<Value>>>)
    requires |vals| == |fields| && InText(b, es)
    ensures r.Some? ==> |r.value| == |fields|
  {
    if |es| == 0 then Some(vals)
    else
      var k := FieldIndex(fields, es[0].name, 0);
      if !Suits(b, d, fields, es[0]) || vals[k].Some? then None
      else Gather(b, d, fields, es[1..], vals[k := Some(Dec(b, es[0].at, d, fields[k].kind).value)])
  }

  lemma FieldOf(fields: seq<Field>, name: Bytes, k: nat)
    requires GoodKind(KRec(fields)) && k < |fields|
    ensures fields[k].key == name <==> FieldIndex(fields, name, 0) == k
  {
  }

  /** The entries gather exactly when every one suits a field and no field is named twice. */
  lemma {:induction false} GatherIs(b: Bytes, d: nat, fields: seq<Field>, es: seq<Entry>, vals: seq<Option<Value>>)
    requires GoodKind(KRec(fields)) && |vals| == |fields| && InText(b, es)
    ensures Gather(b, d, fields, es, vals).Some? <==>
              (forall i :: 0 <= i < |es| ==> Suits(b, d, fields, es[i])) && Fresh(fields, es, vals)
    decreases |es|
  {
    hide GoodKind, Dec, FieldIndex;
    if |es| > 0 && Suits(b, d, fields, es[0]) {
      var k := FieldIndex(fields, es[0].name, 0);
      FieldOf(fields, es[0].name, k);
      FreshSplit(fields, es, vals, k, Dec(b, es[0].at, d, fields[k].kind).value);
      if vals[k].None? {
        GatherIs(b, d, fields, es[1..], vals[k := Some(Dec(b, es[0].at, d, fields[k].kind).value)]);
      }
      assert forall i :: 0 <= i < |es| - 1 ==> es[1..][i] == es[i + 1];
      assert forall i :: 0 < i < |es| ==> es[i] == es[1..][i - 1];
    }
  }

  lemma FreshSplit(fields: seq<Field>, es: seq<Entry>, vals: seq<Option<Value>>, k: nat, x: Value)
    requires GoodKind(KRec(fields)) && |vals| == |fields| && |es| > 0 && k < |fields| && fields[k].key == es[0].name
    ensures Fresh(fields, es, vals) <==> vals[k].None? && Fresh(fields, es[1..], vals[k := Some(x)])
  {
    var next := vals[k := Some(x)];
    if vals[k].None? && Fresh(fields, es[1..], next) {
      forall i | 0 < i < |es|
        ensures es[0].name != es[i].name
      {
        assert es[1..][i - 1] == es[i];
        assert next[k].Some?;
      }
      forall i, j | 0 <= i < j < |es|
        ensures es[i].name != es[j].name
      {
        if i > 0 {
          assert es[1..][i - 1].name != es[1..][j - 1].name;
        }
      }
      forall i, l | 0 <= i < |es| && 0 <= l < |fields| && fields[l].key == es[i].name
        ensures vals[l].None?
      {
        FieldOf(fields, es[i].name, l);
        if i > 0 {
          assert es[1..][i - 1] == es[i];
        } else {
          FieldOf(fields, es[0].name, k);
        }
      }
    }
    if Fresh(fields, es, vals) {
      forall i, l | 0 <= i < |es| - 1 && 0 <= l < |fields| && fields[l].key == es[1..][i].name
        ensures next[l].None?
      {
        assert es[1..][i] == es[i + 1];
      }
    }
  }

  /** Where a field's value comes from: the entry of its name, or what was there before. */
  lemma {:induction false} GatheredAt(b: Bytes, d: nat, fields: seq<Field>, es: seq<Entry>, vals: seq<Option<Value>>, k: nat)
    requires GoodKind(KRec(fields)) && |vals| == |fields| && InText(b, es) && Gather(b, d, fields, es, vals).Some? && k < |fields|
    ensures var r := Gather(b, d, fields, es, vals).value[k];
      && ((forall i :: 0 <= i < |es| ==> es[i].name != fields[k].key) ==> r == vals[k])
      && (forall i :: 0 <= i < |es| && es[i].name == fields[k].key ==> r == ValueAt(b, es[i].at, d, fields[k].kind))
    decreases |es|
  {
    hide GoodKind, Dec, FieldIndex;
    if |es| > 0 {
      var l := FieldIndex(fields, es[0].name, 0);
      FieldOf(fields, es[0].name, k);
      GatherIs(b, d, fields, es, vals);
      GatheredAt(b, d, fields, es[1..], vals[l := Some(Dec(b, es[0].at, d, fields[l].kind).value)], k);
      assert forall i :: 0 < i < |es| ==> es[i] == es[1..][i - 1];
      assert forall i :: 0 <= i < |es| - 1 ==> es[1..][i] == es[i + 1];
    }
  }

  /** The loop, once the members stand there, is the gathering of them and the account at the end. */
  lemma {:induction false} LoopGathers(b: Bytes, p: nat, d: nat, fields: seq<Field>, vals: seq<Option<Value>>)
    requires p <= |b| && GoodKind(KRec(fields)) && |vals| == |fields| > 0
    ensures DecFields(b, p, d, fields, vals).Ok? ==> Entries(b, p, d).Ok?
    ensures Entries(b, p, d).Ok? ==>
      var g := Gather(b, d, fields, Entries(b, p, d).value, vals);
      if g.Some? && Complete(fields, g.value) then DecFields(b, p, d, fields, vals) == Ok(VRec(g.value), Entries(b, p, d).pos)
      else DecFields(b, p, d, fields, vals).Err?
    decreases |b| - p
  {
    hide DecFields, Dec, Name, Ws, GoodKind, FieldIndex, Skip.SkipValue, Complete;
    Reader.FieldsTurn(b, p, d, fields, vals);
    if Name(b, p).Ok? {
      var name, v := Name(b, p).value, Ws(b, Name(b, p).pos + 1);
      var k := FieldIndex(fields, name, 0);
      if k < |fields| && vals[k].None? {
        KindOf(fields, k);
        L.DecFollows(b, v, d, fields[k].kind);
        var x := Dec(b, v, d, fields[k].kind);
        if x.Ok? {
          var n := Ws(b, x.pos);
          if At(b, n) == Skip.COMMA {
            L.CommaInside(b, n);
            LoopGathers(b, n + 1, d, fields, vals[k := Some(x.value)]);
          }
        }
      }
    }
  }

  lemma SuitsValue(b: Bytes, d: nat, fields: seq<Field>, e: Entry, k: nat)
    requires e.at <= |b| && GoodKind(KRec(fields)) && Suits(b, d, fields, e) && k < |fields| && fields[k].key == e.name
    ensures ValueAt(b, e.at, d, fields[k].kind).Some?
  {
    FieldOf(fields, e.name, k);
  }

  lemma KindOf(fields: seq<Field>, k: nat)
    requires GoodKind(KRec(fields)) && k < |fields|
    ensures GoodKind(fields[k].kind)
  {
  }

  /**
   * A record is accepted if and only if its members can be walked over, every member names a field
   * and its value is of that field's kind, no field is named twice, and every required field is
   * named. Neither the order of the members nor the blanks between them matter.
   */
  lemma RecordIsAccounted(b: Bytes, p: nat, d: nat, fields: seq<Field>)
    requires p <= |b| && GoodKind(KRec(fields)) && |fields| > 0
    ensures DecFields(b, p, d, fields, NoVals(|fields|)).Ok? <==>
      && Entries(b, p, d).Ok?
      && var es := Entries(b, p, d).value;
      && (forall i :: 0 <= i < |es| ==> Suits(b, d, fields, es[i]))
      && (forall i, j :: 0 <= i < j < |es| ==> es[i].name != es[j].name)
      && (forall k :: 0 <= k < |fields| && fields[k].required ==> exists i :: 0 <= i < |es| && es[i].name == fields[k].key)
  {
    hide DecFields, Dec, GoodKind, FieldIndex, Entries, Gather, Suits;
    var none := NoVals(|fields|);
    LoopGathers(b, p, d, fields, none);
    if Entries(b, p, d).Ok? {
      var es := Entries(b, p, d).value;
      GatherIs(b, d, fields, es, none);
      var g := Gather(b, d, fields, es, none);
      if g.Some? {
        forall k | 0 <= k < |fields|
          ensures g.value[k].Some? <==> exists i :: 0 <= i < |es| && es[i].name == fields[k].key
        {
          GatheredAt(b, d, fields, es, none, k);
          forall i | 0 <= i < |es| && es[i].name == fields[k].key
            ensures ValueAt(b, es[i].at, d, fields[k].kind).Some?
          {
            SuitsValue(b, d, fields, es[i], k);
          }
        }
      }
    }
  }

  /** And each field of the record read is the value of the member that names it. */
  lemma RecordHoldsMembers(b: Bytes, p: nat, d: nat, fields: seq<Field>, k: nat)
    requires p <= |b| && GoodKind(KRec(fields)) && k < |fields| && DecFields(b, p, d, fields, NoVals(|fields|)).Ok?
    ensures Entries(b, p, d).Ok?
    ensures var es, r := Entries(b, p, d).value, DecFields(b, p, d, fields, NoVals(|fields|)).value;
      && r.VRec? && |r.vals| == |fields|
      && ((forall i :: 0 <= i < |es| ==> es[i].name != fields[k].key) ==> r.vals[k].None?)
      && (forall i :: 0 <= i < |es| && es[i].name == fields[k].key ==> r.vals[k] == ValueAt(b, es[i].at, d, fields[k].kind))
  {
    hide DecFields, Dec, GoodKind, FieldIndex, Entries, Gather, Suits, ValueAt, Complete;
    LoopGathers(b, p, d, fields, NoVals(|fields|));
    GatheredAt(b, d, fields, Entries(b, p, d).value, NoVals(|fields|), k);
  }
}
