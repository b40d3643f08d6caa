/** What is encoded decodes to itself, for every schema, value, indentation and reader depth. */
module RoundTrip {
  import opened Bytes
  import opened Utf8
  import opened Strings
  import opened Skip
  import opened Records
  import Integers
  import Keys

  // ------------------------------------------------------------------ labels

  lemma LabelParts(b: Bytes, p: nat, key: Bytes, depth: nat, rest: Bytes)
    requires StartsAt(b, p, Label(key, depth) + rest)
    ensures var k := p + 1 + |Pad(depth + 1)|; var c := k + |Esc(key)|;
      && |Label(key, depth)| == 1 + |Pad(depth + 1)| + |Esc(key)| + 2
      && StartsAt(b, p, [NEWLINE] + Pad(depth + 1)) && StartsAt(b, k, Esc(key))
      && c + 1 < |b| && b[c] == COLON && b[c + 1] == SPACE && StartsAt(b, c + 2, rest)
  {
    hide StartsAt, Esc, Pad;
    var head := [NEWLINE] + Pad(depth + 1);
    var c := p + |head| + |Esc(key)|;
    StartsCat(b, p, Label(key, depth), rest);
    StartsCat(b, p, head + Esc(key), [COLON, SPACE]);
    StartsCat(b, p, head, Esc(key));
    StartsHead(b, c, [COLON, SPACE]);
    StartsOne(b, c + 1, SPACE);
  }

  lemma WsOne(b: Bytes, p: nat)
    requires p + 1 <= |b| && b[p] == SPACE && !Blank(At(b, p + 1))
    ensures Ws(b, p) == p + 1
  {
    StartsOne(b, p, SPACE);
    WsOver(b, p, [SPACE]);
  }

  lemma WsNone(b: Bytes, p: nat)
    requires p <= |b| && !Blank(At(b, p))
    ensures Ws(b, p) == p
  {
  }

  lemma IndentIsBlank(depth: nat)
    ensures AllBlank([NEWLINE] + Pad(depth))
  {
  }

  /** The reader finds the name of a label, and then the value after it. */
  lemma LabelRead(b: Bytes, p: nat, key: Bytes, depth: nat, rest: Bytes)
    requires StartsAt(b, p, Label(key, depth) + rest) && |rest| > 0 && !Blank(rest[0])
    ensures var v := p + |Label(key, depth)|;
      && v < |b| && b[v] == rest[0] && StartsAt(b, v, rest)
      && (ValidUtf8(key) ==> Name(b, p) == Ok(key, v - 2) && Ws(b, v - 1) == v)
      && (!ValidUtf8(key) ==> Name(b, p).Err? && Name(b, p).word == BadString)
  {
    hide StartsAt, Pad, EscBody, StrBody, ValidUtf8;
    LabelParts(b, p, key, depth, rest);
    var k := p + 1 + |Pad(depth + 1)|;
    var c := k + |Esc(key)|;
    FirstByte(b, c + 2, rest);
    EscAt(b, k, key);
    IndentIsBlank(depth + 1);
    WsOver(b, p, [NEWLINE] + Pad(depth + 1));
    StrRoundTrip(b, k, key);
    WsNone(b, c);
    WsOne(b, c + 1);
  }

  /** After the last member: a new line, the indentation and the brace. */
  lemma CloseRead(b: Bytes, p: nat, depth: nat)
    requires StartsAt(b, p, Close(depth))
    ensures p <= |b| && Ws(b, p) == p + |Close(depth)| - 1 < |b| && b[p + |Close(depth)| - 1] == RBRACE
  {
    hide StartsAt, Pad;
    var head := [NEWLINE] + Pad(depth);
    StartsCat(b, p, head, [RBRACE]);
    StartsOne(b, p + |head|, RBRACE);
    IndentIsBlank(depth);
    WsOver(b, p, head);
  }

  /** What follows a value never extends a number, and starts with no blank only before a comma. */
  predicate Ends(c: byte) {
    c == COMMA || c == NEWLINE
  }

  // -------------------------------------------------------------------- maps

  ghost predicate ValidFrom(ks: seq<Bytes>, m: map<Bytes, Bytes>, i: nat)
    requires forall x :: x in ks ==> x in m
  {
    forall j :: i <= j < |ks| ==> ValidUtf8(ks[j]) && ValidUtf8(m[ks[j]])
  }

  lemma EscStart(s: Bytes)
    ensures |Esc(s)| > 0 && Esc(s)[0] == QUOTE && !Blank(QUOTE)
  {
  }

  function AfterEntry(b: Bytes, n: nat, acc: map<Bytes, Bytes>): Res<Value>
    requires n <= |b|
  {
    if At(b, n) == COMMA then DecMembers(b, n + 1, acc)
    else if At(b, n) == RBRACE then Ok(VMap(acc), n + 1)
    else Err(Malformed, n)
  }

  /** One turn of the map loop. */
  lemma MapTurn(b: Bytes, p: nat, key: Bytes, s: Bytes, depth: nat, rest: Bytes, acc: map<Bytes, Bytes>)
    requires StartsAt(b, p, Label(key, depth) + (Esc(s) + rest)) && p <= |b|
    ensures var e := p + |Label(key, depth)| + |Esc(s)|;
      && e <= |b| && StartsAt(b, e, rest)
      && (ValidUtf8(key) && ValidUtf8(s) ==> DecMembers(b, p, acc) == AfterEntry(b, Ws(b, e), acc[key := s]))
      && (!(ValidUtf8(key) && ValidUtf8(s)) ==> DecMembers(b, p, acc).Err? && DecMembers(b, p, acc).word == BadString)
  {
    hide StartsAt, Label, EscBody, StrBody, ValidUtf8, Name, Ws, Esc, Str, DecMembers, AfterEntry;
    EscStart(s);
    LabelRead(b, p, key, depth, Esc(s) + rest);
    var v := p + |Label(key, depth)|;
    StartsCat(b, v, Esc(s), rest);
    StartsBound(b, v + |Esc(s)|, rest);
    StrRoundTrip(b, v, s);
    EntryStep(b, p, acc);
  }

  lemma EntryStep(b: Bytes, p: nat, acc: map<Bytes, Bytes>)
    requires p <= |b|
    ensures Name(b, p).Ok? && Str(b, Ws(b, Name(b, p).pos + 1)).Ok? ==>
              var s := Str(b, Ws(b, Name(b, p).pos + 1));
              DecMembers(b, p, acc) == AfterEntry(b, Ws(b, s.pos), acc[Name(b, p).value := s.value])
    ensures Name(b, p).Ok? && Str(b, Ws(b, Name(b, p).pos + 1)).Err? ==>
              DecMembers(b, p, acc) == Err(Str(b, Ws(b, Name(b, p).pos + 1)).word, Str(b, Ws(b, Name(b, p).pos + 1)).off)
    ensures Name(b, p).Err? ==> DecMembers(b, p, acc) == Err(Name(b, p).word, Name(b, p).off)
  {
    hide Name, Str, Ws;
  }

  lemma {:induction false} MapRead(b: Bytes, p: nat, ks: seq<Bytes>, m: map<Bytes, Bytes>, i: nat, depth: nat, acc: map<Bytes, Bytes>)
    requires p <= |b| && i < |ks| && forall x :: x in ks ==> x in m
    requires StartsAt(b, p, Label(ks[i], depth) + (Esc(m[ks[i]]) + MapRest(ks, m, i + 1, depth)))
    ensures var e := p + |Label(ks[i], depth)| + |Esc(m[ks[i]])| + |MapRest(ks, m, i + 1, depth)|;
      && (ValidFrom(ks, m, i) ==> DecMembers(b, p, acc) == Ok(VMap(Gathered(ks, m, i, acc)), e))
      && (!ValidFrom(ks, m, i) ==> DecMembers(b, p, acc).Err? && DecMembers(b, p, acc).word == BadString)
    decreases |ks| - i
  {
    hide DecMembers, Label, StartsAt, Esc, ValidUtf8, Ws;
    var key, s := ks[i], m[ks[i]];
    var rest := MapRest(ks, m, i + 1, depth);
    MapTurn(b, p, key, s, depth, rest, acc);
    var e := p + |Label(key, depth)| + |Esc(s)|;
    if ValidUtf8(key) && ValidUtf8(s) {
      if i + 1 == |ks| {
        CloseRead(b, e, depth);
      } else {
        MapComma(b, e, ks, m, i + 1, depth);
        MapRead(b, e + 1, ks, m, i + 1, depth, acc[key := s]);
      }
    }
  }

  lemma MapComma(b: Bytes, e: nat, ks: seq<Bytes>, m: map<Bytes, Bytes>, i: nat, depth: nat)
    requires 0 < i < |ks| && (forall x :: x in ks ==> x in m) && StartsAt(b, e, MapRest(ks, m, i, depth))
    ensures e < |b| && Ws(b, e) == e && At(b, e) == COMMA
    ensures StartsAt(b, e + 1, Label(ks[i], depth) + (Esc(m[ks[i]]) + MapRest(ks, m, i + 1, depth)))
    ensures |MapRest(ks, m, i, depth)| == 1 + |Label(ks[i], depth)| + |Esc(m[ks[i]])| + |MapRest(ks, m, i + 1, depth)|
  {
    var tail := Label(ks[i], depth) + (Esc(m[ks[i]]) + MapRest(ks, m, i + 1, depth));
    StartsCat(b, e, [COMMA], tail);
    StartsOne(b, e, COMMA);
    WsNone(b, e);
  }

  /** The map the loop builds from the i-th key on. */
  function Gathered(ks: seq<Bytes>, m: map<Bytes, Bytes>, i: nat, acc: map<Bytes, Bytes>): map<Bytes, Bytes>
    requires i <= |ks| && forall x :: x in ks ==> x in m
    decreases |ks| - i
  {
    if i == |ks| then acc else Gathered(ks, m, i + 1, acc[ks[i] := m[ks[i]]])
  }

  lemma {:induction false} GatheredIs(ks: seq<Bytes>, m: map<Bytes, Bytes>, i: nat, acc: map<Bytes, Bytes>)
    requires i <= |ks| && forall x :: x in ks ==> x in m
    ensures forall x :: x in Gathered(ks, m, i, acc) <==> x in acc || x in ks[i..]
    ensures forall x :: x in Gathered(ks, m, i, acc) ==> Gathered(ks, m, i, acc)[x] == if x in ks[i..] then m[x] else acc[x]
    decreases |ks| - i
  {
    if i < |ks| {
      GatheredIs(ks, m, i + 1, acc[ks[i] := m[ks[i]]]);
      assert ks[i..] == [ks[i]] + ks[i + 1..];
    }
  }

  lemma SortedKeysOf(m: map<Bytes, Bytes>)
    ensures forall x :: x in Keys.Sorted(m.Keys) <==> x in m
  {
    assert forall x :: x in Keys.Sorted(m.Keys) <==> x in Keys.Elements(Keys.Sorted(m.Keys));
  }

  lemma MapRoundTrip(b: Bytes, p: nat, d: nat, depth: nat, m: map<Bytes, Bytes>)
    requires p <= |b| && StartsAt(b, p, EncMap(m, depth)) && d + 1 <= DEPTH_LIMIT
    ensures (forall x :: x in m ==> ValidUtf8(x) && ValidUtf8(m[x])) ==> DecMap(b, p, d) == Ok(VMap(m), p + |EncMap(m, depth)|)
    ensures !(forall x :: x in m ==> ValidUtf8(x) && ValidUtf8(m[x])) ==> DecMap(b, p, d).Err? && DecMap(b, p, d).word == BadString
  {
    var ks := Keys.Sorted(m.Keys);
    SortedKeysOf(m);
    if |ks| == 0 {
      EmptyBraces(b, p);
      assert m == map[] by {
        assert m.Keys == {};
      }
    } else {
      FullMapRoundTrip(b, p, d, depth, m, ks);
    }
  }

  lemma EmptyBraces(b: Bytes, p: nat)
    requires StartsAt(b, p, [LBRACE, RBRACE])
    ensures p + 1 < |b| && b[p] == LBRACE && b[p + 1] == RBRACE && Ws(b, p + 1) == p + 1
  {
    StartsHead(b, p, [LBRACE, RBRACE]);
    StartsOne(b, p + 1, RBRACE);
    WsNone(b, p + 1);
  }

  lemma FullMapRoundTrip(b: Bytes, p: nat, d: nat, depth: nat, m: map<Bytes, Bytes>, ks: seq<Bytes>)
    requires p <= |b| && |ks| > 0 && (forall x :: x in ks <==> x in m)
    requires StartsAt(b, p, [LBRACE] + MapRest(ks, m, 0, depth)) && d + 1 <= DEPTH_LIMIT
    ensures (forall x :: x in m ==> ValidUtf8(x) && ValidUtf8(m[x])) ==>
              DecMap(b, p, d) == Ok(VMap(m), p + 1 + |MapRest(ks, m, 0, depth)|)
    ensures !(forall x :: x in m ==> ValidUtf8(x) && ValidUtf8(m[x])) ==> DecMap(b, p, d).Err? && DecMap(b, p, d).word == BadString
  {
    hide DecMembers, Label, StartsAt, Esc, ValidUtf8, Ws;
    var rest := Label(ks[0], depth) + (Esc(m[ks[0]]) + MapRest(ks, m, 1, depth));
    assert [] + rest == rest == MapRest(ks, m, 0, depth);
    StartsCat(b, p, [LBRACE], rest);
    StartsOne(b, p, LBRACE);
    AllValid(ks, m);
    GatheredIs(ks, m, 0, map[]);
    assert Gathered(ks, m, 0, map[]) == m;
    LabelBlank(b, p + 1, ks[0], depth, Esc(m[ks[0]]) + MapRest(ks, m, 1, depth));
    MembersFromWs(b, p + 1, map[]);
    MapRead(b, p + 1, ks, m, 0, depth, map[]);
    MapFromBrace(b, p, d);
  }

  lemma MapFromBrace(b: Bytes, p: nat, d: nat)
    requires p < |b| && b[p] == LBRACE && d + 1 <= DEPTH_LIMIT && At(b, Ws(b, p + 1)) != RBRACE
    ensures DecMap(b, p, d) == DecMembers(b, Ws(b, p + 1), map[])
  {
  }

  lemma MembersFromWs(b: Bytes, p: nat, acc: map<Bytes, Bytes>)
    requires p <= |b|
    ensures DecMembers(b, Ws(b, p), acc) == DecMembers(b, p, acc)
  {
    hide DecMembers, Name, Str, Ws, AfterEntry;
    NameFromWs(b, p);
    EntryStep(b, p, acc);
    EntryStep(b, Ws(b, p), acc);
  }

  lemma AllValid(ks: seq<Bytes>, m: map<Bytes, Bytes>)
    requires forall x :: x in ks <==> x in m
    ensures ValidFrom(ks, m, 0) <==> forall x :: x in m ==> ValidUtf8(x) && ValidUtf8(m[x])
  {
    forall x | ValidFrom(ks, m, 0) && x in m
      ensures ValidUtf8(x) && ValidUtf8(m[x])
    {
      var j :| 0 <= j < |ks| && ks[j] == x;
    }
    forall j | 0 <= j < |ks|
      ensures ks[j] in m
    {
    }
  }

  lemma NameFromWs(b: Bytes, p: nat)
    requires p <= |b|
    ensures Name(b, Ws(b, p)) == Name(b, p)
  {
    WsNone(b, Ws(b, p));
  }

  lemma LabelBlank(b: Bytes, p: nat, key: Bytes, depth: nat, rest: Bytes)
    requires StartsAt(b, p, Label(key, depth) + rest)
    ensures p <= |b| && At(b, Ws(b, p)) == QUOTE
  {
    LabelParts(b, p, key, depth, rest);
    var k := p + 1 + |Pad(depth + 1)|;
    EscAt(b, k, key);
    IndentIsBlank(depth + 1);
    WsOver(b, p, [NEWLINE] + Pad(depth + 1));
  }

  // ----------------------------------------------------------------- records

  /** The fields read so far are the first i; the others are still unseen. */
  function Prefix(vals: seq<Option<Value>>, i: nat): (r: seq<Option<Value>>)
    requires i <= |vals|
    ensures |r| == |vals|
  {
    vals[..i] + NoVals(|vals| - i)
  }

  lemma PrefixNone(vals: seq<Option<Value>>)
    ensures Prefix(vals, 0) == NoVals(|vals|)
  {
  }

  /** A value that can be encoded and carried at reader depth d. */
  ghost predicate Sendable(k: Kind, v: Value, d: nat) {
    GoodKind(k) && Typed(k, v) && Known(k, v) && Fits(k, d) && Opaque(k, v, d)
  }

  ghost predicate FieldsValid(fields: seq<Field>, vals: seq<Option<Value>>, i: nat, d: nat)
    requires Typed(KRec(fields), VRec(vals))
  {
    forall j :: i <= j < |fields| && vals[j].Some? ==> Valid(fields[j].kind, vals[j].value, d)
  }

  /** What the decoder must answer at p for the encoding of v: the value itself, or a bad string. */
  ghost predicate Answers(r: Res<Value>, valid: bool, v: Value, q: nat) {
    if valid then r == Ok(v, q) else r.Err? && r.word == BadString
  }

  lemma NumStart(n: int)
    ensures |Integers.Num(n)| > 0 && !Blank(Integers.Num(n)[0])
  {
  }

  lemma EncStart(k: Kind, v: Value, depth: nat, d: nat)
    requires Sendable(k, v, d)
    ensures |Enc(k, v, depth)| > 0 && !Blank(Enc(k, v, depth)[0])
  {
    match k
    case KInt(_, _) => NumStart(v.n);
    case KMap =>
    case _ =>
  }

  lemma RestStart(fields: seq<Field>, vals: seq<Option<Value>>, i: nat, depth: nat)
    requires 0 < i <= |fields| && Typed(KRec(fields), VRec(vals)) && Known(KRec(fields), VRec(vals))
    ensures |EncRest(fields, vals, i, depth)| > 0 && Ends(EncRest(fields, vals, i, depth)[0])
    decreases |fields| - i
  {
    if i < |fields| && vals[i].None? {
      RestStart(fields, vals, i + 1, depth);
    }
  }

  lemma EndsStops(c: byte)
    requires Ends(c)
    ensures !Integers.Continues(c)
  {
  }

  lemma FieldIsFound(fields: seq<Field>, i: nat)
    requires GoodKind(KRec(fields)) && i < |fields|
    ensures FieldIndex(fields, fields[i].key, 0) == i
  {
  }

  /** The parts of a record's value are sendable one level down. */
  lemma FieldSendable(fields: seq<Field>, vals: seq<Option<Value>>, i: nat, d: nat)
    requires Sendable(KRec(fields), VRec(vals), d) && i < |fields| && vals[i].Some?
    ensures GoodKind(fields[i].kind) && Typed(fields[i].kind, vals[i].value) && Known(fields[i].kind, vals[i].value)
    ensures Sendable(fields[i].kind, vals[i].value, d + 1)
  {
  }

  lemma PrefixStep(fields: seq<Field>, vals: seq<Option<Value>>, i: nat)
    requires GoodKind(KRec(fields)) && |vals| == |fields| && i < |fields|
    ensures ValidUtf8(fields[i].key)
    ensures Prefix(vals, i)[i].None? && Prefix(vals, i)[i := vals[i]] == Prefix(vals, i + 1)
  {
  }

  lemma FieldStep(b: Bytes, p: nat, d: nat, fields: seq<Field>, vals: seq<Option<Value>>, i: nat, v: nat)
    requires p <= |b| && |vals| == |fields| && GoodKind(KRec(fields)) && i < |fields| && vals[i].None?
    requires Name(b, p).Ok? && Name(b, p).value == fields[i].key && Ws(b, Name(b, p).pos + 1) == v
    ensures var r := Dec(b, v, d, fields[i].kind);
      DecFields(b, p, d, fields, vals) ==
        if r.Err? then Err(r.word, r.off) else After(b, r.pos, d, fields, vals[i := Some(r.value)])
  {
    hide Name, Ws, Dec, After, GoodKind;
    FieldIsFound(fields, i);
  }

  /** One labelled field: the decoder takes it and goes on after it. */
  lemma {:induction false} EntryRead(b: Bytes, p: nat, d: nat, depth: nat, fields: seq<Field>, vals: seq<Option<Value>>, i: nat)
    requires GoodKind(KRec(fields)) && Typed(KRec(fields), VRec(vals)) && Known(KRec(fields), VRec(vals))
    requires Sendable(KRec(fields), VRec(vals), d) && |vals| == |fields| && i < |fields| && vals[i].Some? && p <= |b|
    requires StartsAt(b, p, Label(fields[i].key, depth) + (Enc(fields[i].kind, vals[i].value, depth + 1) + EncRest(fields, vals, i + 1, depth)))
    ensures var e := p + |Label(fields[i].key, depth)| + |Enc(fields[i].kind, vals[i].value, depth + 1)|;
      && e <= |b| && StartsAt(b, e, EncRest(fields, vals, i + 1, depth))
      && (Valid(fields[i].kind, vals[i].value, d + 1) ==>
            DecFields(b, p, d + 1, fields, Prefix(vals, i)) == After(b, e, d + 1, fields, Prefix(vals, i + 1)))
      && (!Valid(fields[i].kind, vals[i].value, d + 1) ==>
            DecFields(b, p, d + 1, fields, Prefix(vals, i)).Err? && DecFields(b, p, d + 1, fields, Prefix(vals, i)).word == BadString)
    decreases fields, |fields| - i, 0
  {
    hide StartsAt, Label, Enc, EncRest, Dec, DecFields, After, Prefix, GoodKind, Typed, Known, Fits, Opaque, Valid, ValidUtf8, Name, Ws, At;
    var f, x := fields[i], vals[i].value;
    FieldSendable(fields, vals, i, d);
    PrefixStep(fields, vals, i);
    var enc := Enc(f.kind, x, depth + 1);
    var rest := EncRest(fields, vals, i + 1, depth);
    EncStart(f.kind, x, depth + 1, d + 1);
    LabelRead(b, p, f.key, depth, enc + rest);
    var v := p + |Label(f.key, depth)|;
    StartsCat(b, v, enc, rest);
    RestStart(fields, vals, i + 1, depth);
    FirstByte(b, v + |enc|, rest);
    EndsStops(rest[0]);
    DecEnc(b, v, d + 1, depth + 1, f.kind, x);
    FieldStep(b, p, d + 1, fields, Prefix(vals, i), i, v);
  }

  lemma RestParts(b: Bytes, p: nat, depth: nat, fields: seq<Field>, vals: seq<Option<Value>>, i: nat)
    requires Typed(KRec(fields), VRec(vals)) && Known(KRec(fields), VRec(vals)) && 0 < i < |fields| && vals[i].Some?
    requires StartsAt(b, p, EncRest(fields, vals, i, depth))
    ensures var tail := Label(fields[i].key, depth) + (Enc(fields[i].kind, vals[i].value, depth + 1) + EncRest(fields, vals, i + 1, depth));
      && p < |b| && At(b, p) == COMMA && Ws(b, p) == p && StartsAt(b, p + 1, tail)
      && |EncRest(fields, vals, i, depth)| == 1 + |tail|
  {
    hide StartsAt, Label, Enc;
    var tail := Label(fields[i].key, depth) + (Enc(fields[i].kind, vals[i].value, depth + 1) + EncRest(fields, vals, i + 1, depth));
    StartsCat(b, p, [COMMA], tail);
    StartsOne(b, p, COMMA);
    WsNone(b, p);
  }

  lemma AfterComma(b: Bytes, p: nat, d: nat, fields: seq<Field>, vals: seq<Option<Value>>)
    requires p < |b| && Ws(b, p) == p && At(b, p) == COMMA && |vals| == |fields|
    ensures After(b, p, d, fields, vals) == DecFields(b, p + 1, d, fields, vals)
  {
  }

  lemma AfterLast(b: Bytes, p: nat, d: nat, depth: nat, fields: seq<Field>, vals: seq<Option<Value>>)
    requires StartsAt(b, p, Close(depth)) && p <= |b| && Typed(KRec(fields), VRec(vals))
    ensures After(b, p, d, fields, Prefix(vals, |vals|)) == Ok(VRec(vals), p + |Close(depth)|)
  {
    CloseRead(b, p, depth);
    assert Prefix(vals, |vals|) == vals;
  }

  /** Everything after the i-th field. */
  lemma {:induction false} RestRead(b: Bytes, p: nat, d: nat, depth: nat, fields: seq<Field>, vals: seq<Option<Value>>, i: nat)
    requires Sendable(KRec(fields), VRec(vals), d) && 0 < i <= |fields| && p <= |b|
    requires StartsAt(b, p, EncRest(fields, vals, i, depth))
    ensures Answers(After(b, p, d + 1, fields, Prefix(vals, i)), FieldsValid(fields, vals, i, d + 1), VRec(vals),
                    p + |EncRest(fields, vals, i, depth)|)
    decreases fields, |fields| - i, 2
  {
    hide StartsAt, EncRest, DecFields, After, Prefix, GoodKind, Known, Fits, Opaque, Valid, FieldsValid, Enc, Label, Ws, Close;
    RestUnfolds(fields, vals, i, depth);
    if i == |fields| {
      AfterLast(b, p, d + 1, depth, fields, vals);
      NothingLeft(fields, vals, d + 1);
    } else if vals[i].None? {
      RestRead(b, p, d, depth, fields, vals, i + 1);
      SkipAbsent(fields, vals, i, d + 1);
    } else {
      RestEntryRead(b, p, d, depth, fields, vals, i);
    }
  }

  lemma RestUnfolds(fields: seq<Field>, vals: seq<Option<Value>>, i: nat, depth: nat)
    requires Typed(KRec(fields), VRec(vals)) && Known(KRec(fields), VRec(vals)) && i <= |fields|
    ensures i == |fields| ==> EncRest(fields, vals, i, depth) == Close(depth)
    ensures i < |fields| && vals[i].None? ==>
              EncRest(fields, vals, i, depth) == EncRest(fields, vals, i + 1, depth) && Prefix(vals, i) == Prefix(vals, i + 1)
  {
  }

  lemma NothingLeft(fields: seq<Field>, vals: seq<Option<Value>>, d: nat)
    requires Typed(KRec(fields), VRec(vals))
    ensures FieldsValid(fields, vals, |fields|, d)
  {
  }

  lemma SkipAbsent(fields: seq<Field>, vals: seq<Option<Value>>, i: nat, d: nat)
    requires Typed(KRec(fields), VRec(vals)) && i < |fields|
    ensures FieldsValid(fields, vals, i, d) <==>
              (vals[i].Some? ==> Valid(fields[i].kind, vals[i].value, d)) && FieldsValid(fields, vals, i + 1, d)
  {
  }

  lemma {:induction false} RestEntryRead(b: Bytes, p: nat, d: nat, depth: nat, fields: seq<Field>, vals: seq<Option<Value>>, i: nat)
    requires Sendable(KRec(fields), VRec(vals), d) && |vals| == |fields| && 0 < i < |fields| && vals[i].Some? && p <= |b|
    requires StartsAt(b, p, EncRest(fields, vals, i, depth))
    ensures Answers(After(b, p, d + 1, fields, Prefix(vals, i)), FieldsValid(fields, vals, i, d + 1), VRec(vals),
                    p + |EncRest(fields, vals, i, depth)|)
    decreases fields, |fields| - i, 1
  {
    hide StartsAt, EncRest, DecFields, After, Prefix, GoodKind, Typed, Known, Fits, Opaque, Valid, FieldsValid, Enc, Label, Ws;
    RestParts(b, p, depth, fields, vals, i);
    AfterComma(b, p, d + 1, fields, Prefix(vals, i));
    FieldSendable(fields, vals, i, d);
    EntryRead(b, p + 1, d, depth, fields, vals, i);
    SkipAbsent(fields, vals, i, d + 1);
    var e := p + 1 + |Label(fields[i].key, depth)| + |Enc(fields[i].kind, vals[i].value, depth + 1)|;
    if Valid(fields[i].kind, vals[i].value, d + 1) {
      RestRead(b, e, d, depth, fields, vals, i + 1);
    }
  }

  lemma EmptyRecord(b: Bytes, p: nat, d: nat, fields: seq<Field>)
    requires StartsAt(b, p, [LBRACE, RBRACE]) && d + 1 <= DEPTH_LIMIT && |fields| == 0 && p <= |b|
    ensures DecRec(b, p, d, fields) == Ok(VRec([]), p + 2)
  {
    EmptyBraces(b, p);
    assert NoVals(0) == [];
  }

  lemma RecFromBrace(b: Bytes, p: nat, d: nat, fields: seq<Field>)
    requires p < |b| && b[p] == LBRACE && d + 1 <= DEPTH_LIMIT && At(b, Ws(b, p + 1)) != RBRACE
    ensures DecRec(b, p, d, fields) == DecFields(b, p + 1, d + 1, fields, NoVals(|fields|))
  {
    hide Name, Ws, Finish, Dec, After;
    NameFromWs(b, p + 1);
  }

  lemma RecordParts(b: Bytes, p: nat, depth: nat, fields: seq<Field>, vals: seq<Option<Value>>)
    requires GoodKind(KRec(fields)) && Typed(KRec(fields), VRec(vals)) && Known(KRec(fields), VRec(vals)) && |fields| > 0
    requires StartsAt(b, p, [LBRACE] + EncRest(fields, vals, 0, depth))
    ensures vals[0].Some?
    ensures var tail := Label(fields[0].key, depth) + (Enc(fields[0].kind, vals[0].value, depth + 1) + EncRest(fields, vals, 1, depth));
      p < |b| && b[p] == LBRACE && StartsAt(b, p + 1, tail) && EncRest(fields, vals, 0, depth) == tail
  {
    var tail := Label(fields[0].key, depth) + (Enc(fields[0].kind, vals[0].value, depth + 1) + EncRest(fields, vals, 1, depth));
    assert [] + tail == tail;
    StartsCat(b, p, [LBRACE], tail);
    StartsOne(b, p, LBRACE);
  }

  lemma {:induction false} RecordRead(b: Bytes, p: nat, d: nat, depth: nat, fields: seq<Field>, vals: seq<Option<Value>>)
    requires Sendable(KRec(fields), VRec(vals), d) && p <= |b| && |vals| == |fields| > 0 && d + 1 <= DEPTH_LIMIT
    requires StartsAt(b, p, [LBRACE] + EncRest(fields, vals, 0, depth))
    ensures Answers(DecRec(b, p, d, fields), FieldsValid(fields, vals, 0, d + 1), VRec(vals), p + 1 + |EncRest(fields, vals, 0, depth)|)
    decreases fields, |fields|, 2
  {
    PrefixNone(vals);
    hide NoVals, StartsAt, EncRest, DecFields, After, Prefix, GoodKind, Typed, Known, Fits, Opaque, Valid, FieldsValid, Enc, Label, DecRec, Ws;
    RecordParts(b, p, depth, fields, vals);
    FieldSendable(fields, vals, 0, d);
    LabelBlank(b, p + 1, fields[0].key, depth, Enc(fields[0].kind, vals[0].value, depth + 1) + EncRest(fields, vals, 1, depth));
    RecFromBrace(b, p, d, fields);
    EntryRead(b, p + 1, d, depth, fields, vals, 0);
    SkipAbsent(fields, vals, 0, d + 1);
    var e := p + 1 + |Label(fields[0].key, depth)| + |Enc(fields[0].kind, vals[0].value, depth + 1)|;
    if Valid(fields[0].kind, vals[0].value, d + 1) {
      RestRead(b, e, d, depth, fields, vals, 1);
    }
  }

  lemma BooleanRead(b: Bytes, p: nat, t: bool)
    requires StartsAt(b, p, if t then TRUE else FALSE) && p <= |b|
    ensures Boolean(b, p) == Ok(t, p + if t then 4 else 5)
  {
    FirstByte(b, p, if t then TRUE else FALSE);
  }

  lemma WordIsFound(words: seq<Bytes>, i: nat)
    requires GoodKind(KEnum(words)) && i < |words|
    ensures Index(words, words[i], 0) == i
  {
  }

  /**
   * The round trip. Whatever stands after it, the encoding of a value decodes to that value and
   * stops at its end; if a string in it is not valid UTF-8 it is refused as a bad string instead.
   */
  lemma {:induction false} DecEnc(b: Bytes, p: nat, d: nat, depth: nat, k: Kind, v: Value)
    requires Sendable(k, v, d) && p <= |b|
    requires StartsAt(b, p, Enc(k, v, depth)) && !Integers.Continues(At(b, p + |Enc(k, v, depth)|))
    ensures Answers(Dec(b, p, d, k), Valid(k, v, d), v, p + |Enc(k, v, depth)|)
    decreases k, 0
  {
    hide StartsAt, EncRest, DecRec, DecMap, EncMap, Whole, Broken, Esc, Str, Boolean, Fits, Opaque, GoodKind, Index, ValidUtf8;
    match k
    case KStr =>
      StrRoundTrip(b, p, v.s);
    case KInt(min, max) =>
      IntRead(b, p, min, max, v.n);
    case KBool =>
      BooleanRead(b, p, v.t);
    case KMap =>
      FitsMap(d);
      MapRoundTrip(b, p, d, depth, v.m);
    case KEnum(words) =>
      WordRead(b, p, words, v.tag - 1);
    case KRaw =>
      OpaqueIs(v.text, d);
      RawRead(b, p, d, v.text);
    case KRec(fields) =>
      FitsRec(fields, d);
      if |fields| == 0 {
        EmptyRecord(b, p, d, fields);
      } else {
        RecordRead(b, p, d, depth, fields, v.vals);
      }
      AllFields(fields, v.vals, d);
  }

  lemma FitsMap(d: nat)
    requires Fits(KMap, d)
    ensures d + 1 <= DEPTH_LIMIT
  {
  }

  lemma FitsRec(fields: seq<Field>, d: nat)
    requires Fits(KRec(fields), d)
    ensures d + 1 <= DEPTH_LIMIT
  {
  }

  lemma AllFields(fields: seq<Field>, vals: seq<Option<Value>>, d: nat)
    requires Typed(KRec(fields), VRec(vals))
    ensures Valid(KRec(fields), VRec(vals), d) <==> FieldsValid(fields, vals, 0, d + 1)
  {
  }

  lemma OpaqueIs(text: Bytes, d: nat)
    requires Opaque(KRaw, VRaw(text), d)
    ensures Whole(text, d) || Broken(text, d)
  {
  }

  lemma IntRead(b: Bytes, p: nat, min: int, max: int, n: int)
    requires GoodKind(KInt(min, max)) && min <= n <= max && p <= |b|
    requires StartsAt(b, p, Integers.Num(n)) && !Integers.Continues(At(b, p + |Integers.Num(n)|))
    ensures Integers.Integer(b, p, min, max) == Ok(n, p + |Integers.Num(n)|)
  {
    Integers.NumReadsBack(b, p, min, max, n);
  }

  lemma WordRead(b: Bytes, p: nat, words: seq<Bytes>, i: nat)
    requires GoodKind(KEnum(words)) && i < |words| && p <= |b| && StartsAt(b, p, Esc(words[i]))
    ensures Enum(words, Str(b, p)) == Ok(VEnum(i + 1), p + |Esc(words[i])|)
  {
    hide StartsAt, Str, Esc;
    StrRoundTrip(b, p, words[i]);
    WordIsFound(words, i);
  }

  lemma RawRead(b: Bytes, p: nat, d: nat, text: Bytes)
    requires p <= |b| && StartsAt(b, p, text) && !Integers.Continues(At(b, p + |text|))
    requires Whole(text, d) || Broken(text, d)
    ensures Whole(text, d) ==> SkipValue(b, p, d) == Step(p + |text|) && b[p..p + |text|] == text
    ensures !Whole(text, d) ==> SkipValue(b, p, d).Err? && SkipValue(b, p, d).word == BadString
  {
  }
}
