/** The encoders as append loops over the bytes written so far. */
module Writer {
  import opened Bytes
  import I = Integers
  import K = Skip
  import Keys
  import R = Records
  import S = Strings

  method Pad(out: Bytes, depth: nat) returns (r: Bytes)
    ensures r == out + R.Pad(depth)
  {
    r := out;
    var i := 0;
    while i < depth * 2
      invariant 0 <= i <= depth * 2
      invariant r == out + R.Pad(depth)[..i]
    {
      assert R.Pad(depth)[..i + 1] == R.Pad(depth)[..i] + [R.SPACE];
      r := r + [R.SPACE];
      i := i + 1;
    }
    assert R.Pad(depth)[..i] == R.Pad(depth);
  }

  lemma EscSnoc(s: Bytes, i: nat)
    requires i < |s|
    ensures S.EscBody(s[..i + 1]) == S.EscBody(s[..i]) + S.EscByte(s[i])
  {
    hide S.EscByte;
    S.EscBodyCat(s[..i], [s[i]]);
    assert s[..i + 1] == s[..i] + [s[i]];
    assert S.EscBody([s[i]]) == S.EscByte(s[i]) + S.EscBody([]) == S.EscByte(s[i]);
  }

  method Esc(out: Bytes, s: Bytes) returns (r: Bytes)
    ensures r == out + S.Esc(s)
  {
    hide S.EscByte;
    r := out + [S.QUOTE];
    var i := 0;
    while i < |s|
      invariant 0 <= i <= |s|
      invariant r == out + [S.QUOTE] + S.EscBody(s[..i])
    {
      EscSnoc(s, i);
      r := r + S.EscByte(s[i]);
      i := i + 1;
    }
    assert s[..i] == s;
    r := r + [S.QUOTE];
  }

  /** A new line, the indentation, the name, a colon and a space. */
  method Label(out: Bytes, key: Bytes, depth: nat) returns (r: Bytes)
    ensures r == out + R.Label(key, depth)
  {
    r := out + [R.NEWLINE];
    r := Pad(r, depth + 1);
    r := Esc(r, key);
    r := r + [K.COLON, R.SPACE];
  }

  method Close(out: Bytes, depth: nat) returns (r: Bytes)
    ensures r == out + R.Close(depth)
  {
    r := out + [R.NEWLINE];
    r := Pad(r, depth);
    r := r + [R.RBRACE];
  }

  /** One entry of a map, in the order the loop writes it and in the order it is read. */
  lemma EntryWritten(ks: seq<Bytes>, m: map<Bytes, Bytes>, i: nat, depth: nat, done: Bytes)
    requires i < |ks| && forall x :: x in ks ==> x in m
    ensures var r := done + (if 0 < i then [K.COMMA] else []) + [R.NEWLINE];
      done + R.MapRest(ks, m, i, depth) ==
      r + R.Pad(depth + 1) + S.Esc(ks[i]) + [K.COLON, R.SPACE] + S.Esc(m[ks[i]]) + R.MapRest(ks, m, i + 1, depth)
  {
    hide R.Pad, S.Esc;
    var comma := if i == 0 then [] else [K.COMMA];
    var name, esc, rest := R.Label(ks[i], depth), S.Esc(m[ks[i]]), R.MapRest(ks, m, i + 1, depth);
    Unfold(ks, m, i, depth);
    hide R.MapRest;
    assert name == [R.NEWLINE] + R.Pad(depth + 1) + S.Esc(ks[i]) + [K.COLON, R.SPACE];
    assert done + (comma + (name + (esc + rest))) == done + comma + name + esc + rest;
  }

  lemma Unfold(ks: seq<Bytes>, m: map<Bytes, Bytes>, i: nat, depth: nat)
    requires i < |ks| && forall x :: x in ks ==> x in m
    ensures R.MapRest(ks, m, i, depth) ==
      (if i == 0 then [] else [K.COMMA]) + (R.Label(ks[i], depth) + (S.Esc(m[ks[i]]) + R.MapRest(ks, m, i + 1, depth)))
  {
    hide R.Label, S.Esc;
  }

  /** The loop stands before the i-th entry: done is written, and the break that ends it. */
  ghost predicate Before(r: Bytes, done: Bytes, ks: seq<Bytes>, i: nat) {
    r == done + (if 0 < i < |ks| then [K.COMMA] else []) + [R.NEWLINE]
  }

  /** One turn of the map's loop. */
  method Entry(out: Bytes, ks: seq<Bytes>, m: map<Bytes, Bytes>, i: nat, depth: nat, ghost done: Bytes)
    returns (r: Bytes, ghost more: Bytes)
    requires i < |ks| && (forall x :: x in ks ==> x in m) && Before(out, done, ks, i)
    ensures Before(r, more, ks, i + 1)
    ensures done + R.MapRest(ks, m, i, depth) == more + R.MapRest(ks, m, i + 1, depth)
  {
    hide R.Pad, S.Esc, R.MapRest;
    EntryWritten(ks, m, i, depth, done);
    r := Pad(out, depth + 1);
    r := Esc(r, ks[i]);
    r := r + [K.COLON, R.SPACE];
    r := Esc(r, m[ks[i]]);
    more := r;
    if i + 1 < |ks| {
      r := r + [K.COMMA];
    }
    r := r + [R.NEWLINE];
  }

  method StrMap(out: Bytes, m: map<Bytes, Bytes>, depth: nat) returns (r: Bytes)
    ensures r == out + R.EncMap(m, depth)
  {
    hide R.MapRest, R.Pad, Keys.Sorted, Keys.Elements, Keys.Lists, R.Close;
    var ks := Keys.SortedKeys(m);
    MapWritten(m, depth);
    hide R.EncMap;
    if |ks| == 0 {
      return out + [R.LBRACE, R.RBRACE];
    }
    r := out + [R.LBRACE, R.NEWLINE];
    ghost var done := out + [R.LBRACE];
    assert out + ([R.LBRACE] + R.MapRest(ks, m, 0, depth)) == done + R.MapRest(ks, m, 0, depth);
    var i := 0;
    while i < |ks|
      invariant 0 <= i <= |ks|
      invariant out + R.EncMap(m, depth) == done + R.MapRest(ks, m, i, depth)
      invariant Before(r, done, ks, i)
    {
      r, done := Entry(r, ks, m, i, depth, done);
      i := i + 1;
    }
    r := Pad(r, depth);
    r := r + [R.RBRACE];
    LastIsClose(ks, m, depth);
    CloseParts(done, depth);
  }

  lemma CloseParts(done: Bytes, depth: nat)
    ensures done + R.Close(depth) == done + [R.NEWLINE] + R.Pad(depth) + [R.RBRACE]
  {
    hide R.Pad;
  }

  lemma MapWritten(m: map<Bytes, Bytes>, depth: nat)
    ensures forall x :: x in Keys.Sorted(m.Keys) ==> x in m
    ensures var ks := Keys.Sorted(m.Keys);
      R.EncMap(m, depth) == if |ks| == 0 then [R.LBRACE, R.RBRACE] else [R.LBRACE] + R.MapRest(ks, m, 0, depth)
  {
    var ks := Keys.Sorted(m.Keys);
    assert forall x :: x in ks ==> x in Keys.Elements(ks);
  }

  lemma LastIsClose(ks: seq<Bytes>, m: map<Bytes, Bytes>, depth: nat)
    requires forall x :: x in ks ==> x in m
    ensures R.MapRest(ks, m, |ks|, depth) == R.Close(depth)
  {
  }

  /** The encoder template; an enum outside its vocabulary stops it. */
  method Value(out: Bytes, k: R.Kind, v: R.Value, depth: nat) returns (r: Option<Bytes>)
    requires R.Typed(k, v) && R.GoodKind(k)
    ensures r == if R.Known(k, v) then Some(out + R.Enc(k, v, depth)) else None
    decreases k, 1
  {
    match k
    case KStr =>
      var s := Esc(out, v.s);
      return Some(s);
    case KInt(_, _) =>
      var n := I.WriteNum(out, v.n);
      return Some(n);
    case KBool =>
      return Some(out + if v.t then K.TRUE else K.FALSE);
    case KMap =>
      var m := StrMap(out, v.m, depth);
      return Some(m);
    case KEnum(words) =>
      if v.tag < 1 || v.tag > |words| {
        return None;
      }
      var s := Esc(out, words[v.tag - 1]);
      return Some(s);
    case KRaw =>
      return Some(out + v.text);
    case KRec(fields) =>
      r := Record(out, fields, v.vals, depth);
  }

  /** One turn of the record's loop. */
  lemma FieldWritten(fields: seq<R.Field>, vals: seq<Option<R.Value>>, i: nat, depth: nat, done: Bytes)
    requires i < |fields| && R.Typed(R.KRec(fields), R.VRec(vals)) && R.Known(R.KRec(fields), R.VRec(vals))
    ensures done + R.EncRest(fields, vals, i, depth) ==
      if vals[i].None? then done + R.EncRest(fields, vals, i + 1, depth)
      else
        done + (if i == 0 then [] else [K.COMMA]) + R.Label(fields[i].key, depth)
        + R.Enc(fields[i].kind, vals[i].value, depth + 1) + R.EncRest(fields, vals, i + 1, depth)
  {
    hide R.Label, R.Enc;
    if vals[i].Some? {
      var comma := if i == 0 then [] else [K.COMMA];
      var name, x, rest := R.Label(fields[i].key, depth), R.Enc(fields[i].kind, vals[i].value, depth + 1), R.EncRest(fields, vals, i + 1, depth);
      assert done + (comma + (name + (x + rest))) == done + comma + name + x + rest;
    }
  }

  lemma FieldTyped(fields: seq<R.Field>, vals: seq<Option<R.Value>>, i: nat)
    requires i < |fields| && R.Typed(R.KRec(fields), R.VRec(vals)) && R.GoodKind(R.KRec(fields)) && vals[i].Some?
    ensures R.Typed(fields[i].kind, vals[i].value) && R.GoodKind(fields[i].kind)
    ensures R.Known(R.KRec(fields), R.VRec(vals)) ==> R.Known(fields[i].kind, vals[i].value)
  {
  }

  lemma KnownIs(fields: seq<R.Field>, vals: seq<Option<R.Value>>)
    requires R.Typed(R.KRec(fields), R.VRec(vals))
    ensures R.Known(R.KRec(fields), R.VRec(vals)) <==>
              forall j :: 0 <= j < |fields| && vals[j].Some? ==> R.Known(fields[j].kind, vals[j].value)
  {
  }

  lemma RecordOpens(out: Bytes, fields: seq<R.Field>, vals: seq<Option<R.Value>>, depth: nat)
    requires |fields| > 0 && R.Typed(R.KRec(fields), R.VRec(vals)) && R.Known(R.KRec(fields), R.VRec(vals))
    ensures out + R.Enc(R.KRec(fields), R.VRec(vals), depth) == out + [R.LBRACE] + R.EncRest(fields, vals, 0, depth)
  {
    hide R.EncRest;
  }

  lemma AllWritten(fields: seq<R.Field>, vals: seq<Option<R.Value>>, depth: nat)
    requires R.Typed(R.KRec(fields), R.VRec(vals)) && R.Known(R.KRec(fields), R.VRec(vals))
    ensures R.EncRest(fields, vals, |fields|, depth) == R.Close(depth)
  {
  }

  method Member(out: Bytes, fields: seq<R.Field>, vals: seq<Option<R.Value>>, i: nat, depth: nat) returns (r: Option<Bytes>)
    requires R.Typed(R.KRec(fields), R.VRec(vals)) && R.GoodKind(R.KRec(fields)) && i < |fields| && vals[i].Some?
    requires R.Typed(fields[i].kind, vals[i].value)
    ensures r == if R.Known(fields[i].kind, vals[i].value)
                 then Some(out + (if i == 0 then [] else [K.COMMA]) + R.Label(fields[i].key, depth)
                           + R.Enc(fields[i].kind, vals[i].value, depth + 1))
                 else None
    decreases fields, 0, 0
  {
    FieldTyped(fields, vals, i);
    hide R.Typed, R.GoodKind, R.Label, R.Enc, R.Known;
    var t := out;
    if i > 0 {
      t := t + [K.COMMA];
    }
    assert t == out + (if i == 0 then [] else [K.COMMA]);
    t := Label(t, fields[i].key, depth);
    r := Value(t, fields[i].kind, vals[i].value, depth + 1);
  }

  /** The first i fields are written: t is where the encoding has got to, unless an enum stops it later. */
  ghost predicate Reached(out: Bytes, t: Bytes, fields: seq<R.Field>, vals: seq<Option<R.Value>>, i: nat, depth: nat)
    requires i <= |fields| && R.Typed(R.KRec(fields), R.VRec(vals))
  {
    && (forall j :: 0 <= j < i && vals[j].Some? ==> R.Known(fields[j].kind, vals[j].value))
    && (R.Known(R.KRec(fields), R.VRec(vals)) ==>
          out + R.Enc(R.KRec(fields), R.VRec(vals), depth) == t + R.EncRest(fields, vals, i, depth))
  }

  lemma ReachedStart(out: Bytes, fields: seq<R.Field>, vals: seq<Option<R.Value>>, depth: nat)
    requires |fields| > 0 && R.Typed(R.KRec(fields), R.VRec(vals))
    ensures Reached(out, out + [R.LBRACE], fields, vals, 0, depth)
  {
    hide R.EncRest, R.Enc, R.Typed;
    if R.Known(R.KRec(fields), R.VRec(vals)) {
      RecordOpens(out, fields, vals, depth);
    }
  }

  lemma ReachedNext(out: Bytes, t: Bytes, next: Bytes, fields: seq<R.Field>, vals: seq<Option<R.Value>>, i: nat, depth: nat)
    requires i < |fields| && R.Typed(R.KRec(fields), R.VRec(vals)) && Reached(out, t, fields, vals, i, depth)
    requires vals[i].None? ==> next == t
    requires vals[i].Some? ==> R.Known(fields[i].kind, vals[i].value)
    requires vals[i].Some? ==>
      next == t + (if i == 0 then [] else [K.COMMA]) + R.Label(fields[i].key, depth) + R.Enc(fields[i].kind, vals[i].value, depth + 1)
    ensures Reached(out, next, fields, vals, i + 1, depth)
  {
    hide R.EncRest, R.Enc, R.Label, R.Known;
    if R.Known(R.KRec(fields), R.VRec(vals)) {
      FieldWritten(fields, vals, i, depth, t);
    }
  }

  lemma ReachedEnd(out: Bytes, t: Bytes, fields: seq<R.Field>, vals: seq<Option<R.Value>>, depth: nat)
    requires R.Typed(R.KRec(fields), R.VRec(vals)) && Reached(out, t, fields, vals, |fields|, depth)
    ensures R.Known(R.KRec(fields), R.VRec(vals)) && out + R.Enc(R.KRec(fields), R.VRec(vals), depth) == t + R.Close(depth)
  {
    KnownIs(fields, vals);
    AllWritten(fields, vals, depth);
  }

  method Record(out: Bytes, fields: seq<R.Field>, vals: seq<Option<R.Value>>, depth: nat) returns (r: Option<Bytes>)
    requires R.Typed(R.KRec(fields), R.VRec(vals)) && R.GoodKind(R.KRec(fields))
    ensures var k, v := R.KRec(fields), R.VRec(vals); r == if R.Known(k, v) then Some(out + R.Enc(k, v, depth)) else None
    decreases fields, 0, 1
  {
    if |fields| == 0 {
      return Some(out + [R.LBRACE, R.RBRACE]);
    }
    var t := out + [R.LBRACE];
    ReachedStart(out, fields, vals, depth);
    KnownIs(fields, vals);
    hide R.EncRest, R.Enc, R.Label, R.GoodKind, R.Close, R.Known, Reached;
    var i := 0;
    while i < |fields|
      invariant 0 <= i <= |fields|
      invariant Reached(out, t, fields, vals, i, depth)
    {
      ghost var was := t;
      if vals[i].Some? {
        FieldTyped(fields, vals, i);
        var x := Member(t, fields, vals, i, depth);
        if x.None? {
          return None;
        }
        t := x.value;
      }
      ReachedNext(out, was, t, fields, vals, i, depth);
      i := i + 1;
    }
    ReachedEnd(out, t, fields, vals, depth);
    t := Close(t, depth);
    return Some(t);
  }
}
