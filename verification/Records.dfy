/**
 * Records on the wire. The generated encoders and decoders are one template each, filled
 * in from the record's field list, so they are written here once over that list.
 */
module Records {
  import opened Bytes
  import opened Utf8
  import opened Strings
  import opened Skip
  import Integers
  import Keys

  /** What a field may hold. An enum lists its wire words in tag order, tags counting from one. */
  datatype Kind =
    | KStr
    | KInt(min: int, max: int)
    | KBool
    | KMap
    | KEnum(words: seq<Bytes>)
    | KRaw
    | KRec(fields: seq<Field>)
  datatype Field = Field(key: Bytes, required: bool, kind: Kind)

  datatype Value =
    | VStr(s: Bytes)
    | VInt(n: int)
    | VBool(t: bool)
    | VMap(m: map<Bytes, Bytes>)
    | VEnum(tag: nat)
    | VRaw(text: Bytes)
    | VRec(vals: seq<Option<Value>>)

  const LBRACE: byte := 0x7B
  const RBRACE: byte := 0x7D
  const NEWLINE: byte := 0x0A
  const SPACE: byte := 0x20

  /** A field list the generator can have emitted: names apart, the first field not optional. */
  predicate GoodKind(k: Kind) {
    match k
    case KInt(min, max) => Integers.MIN64 <= min && max <= Integers.MAX64
    case KEnum(words) =>
      && (forall i :: 0 <= i < |words| ==> ValidUtf8(words[i]))
      && (forall i, j :: 0 <= i < j < |words| ==> words[i] != words[j])
    case KRec(fields) =>
      && (|fields| > 0 ==> fields[0].required)
      && (forall i, j :: 0 <= i < j < |fields| ==> fields[i].key != fields[j].key)
      && (forall i :: 0 <= i < |fields| ==> ValidUtf8(fields[i].key))
      && (forall i :: 0 <= i < |fields| ==> GoodKind(fields[i].kind))
    case _ => true
  }

  predicate Typed(k: Kind, v: Value) {
    match k
    case KStr => v.VStr?
    case KInt(min, max) => v.VInt? && min <= v.n <= max
    case KBool => v.VBool?
    case KMap => v.VMap?
    case KEnum(words) => v.VEnum?
    case KRaw => v.VRaw?
    case KRec(fields) =>
      && v.VRec? && |v.vals| == |fields|
      && (forall i :: 0 <= i < |fields| && fields[i].required ==> v.vals[i].Some?)
      && (forall i :: 0 <= i < |fields| && v.vals[i].Some? ==> Typed(fields[i].kind, v.vals[i].value))
  }

  /** Every enum in the value names a member of its vocabulary. */
  predicate Known(k: Kind, v: Value)
    requires Typed(k, v)
  {
    match k
    case KEnum(words) => 1 <= v.tag <= |words|
    case KRec(fields) => forall i :: 0 <= i < |fields| && v.vals[i].Some? ==> Known(fields[i].kind, v.vals[i].value)
    case _ => true
  }

  /** The value fits under the reader's nesting limit from depth d. */
  predicate Fits(k: Kind, d: nat) {
    match k
    case KMap => d + 1 <= DEPTH_LIMIT
    case KRec(fields) => d + 1 <= DEPTH_LIMIT && forall i :: 0 <= i < |fields| ==> Fits(fields[i].kind, d + 1)
    case _ => true
  }

  /** Wherever these bytes stand, they are skipped as one whole value. */
  ghost predicate Whole(text: Bytes, d: nat) {
    && |text| > 0 && !Blank(text[0])
    && forall b: Bytes, p: nat :: p <= |b| && StartsAt(b, p, text) && !Integers.Continues(At(b, p + |text|)) ==>
         SkipValue(b, p, d) == Step(p + |text|)
  }

  /** Wherever these bytes stand, a string in them is refused. */
  ghost predicate Broken(text: Bytes, d: nat) {
    && |text| > 0 && !Blank(text[0])
    && forall b: Bytes, p: nat :: p <= |b| && StartsAt(b, p, text) && !Integers.Continues(At(b, p + |text|)) ==>
         SkipValue(b, p, d).Err? && SkipValue(b, p, d).word == BadString
  }

  /** Opaque values are texts that are whole, or that a bad string makes unreadable. */
  ghost predicate Opaque(k: Kind, v: Value, d: nat)
    requires Typed(k, v)
  {
    match k
    case KRaw => Whole(v.text, d) || Broken(v.text, d)
    case KRec(fields) => forall i :: 0 <= i < |fields| && v.vals[i].Some? ==> Opaque(fields[i].kind, v.vals[i].value, d + 1)
    case _ => true
  }

  /** Every string in the value is valid UTF-8 and every opaque value is whole. */
  ghost predicate Valid(k: Kind, v: Value, d: nat)
    requires Typed(k, v)
  {
    match k
    case KStr => ValidUtf8(v.s)
    case KMap => forall x :: x in v.m ==> ValidUtf8(x) && ValidUtf8(v.m[x])
    case KRaw => Whole(v.text, d)
    case KRec(fields) => forall i :: 0 <= i < |fields| && v.vals[i].Some? ==> Valid(fields[i].kind, v.vals[i].value, d + 1)
    case _ => true
  }

  // ---------------------------------------------------------------- writing

  function Pad(depth: nat): Bytes {
    seq(depth * 2, _ => SPACE)
  }

  /** A name, a colon and a space, on a line of its own. */
  function Label(key: Bytes, depth: nat): Bytes {
    [NEWLINE] + Pad(depth + 1) + Esc(key) + [COLON, SPACE]
  }

  function Close(depth: nat): Bytes {
    [NEWLINE] + Pad(depth) + [RBRACE]
  }

  function MapRest(ks: seq<Bytes>, m: map<Bytes, Bytes>, i: nat, depth: nat): Bytes
    requires i <= |ks| && forall x :: x in ks ==> x in m
    decreases |ks| - i
  {
    if i == |ks| then Close(depth)
    else (if i == 0 then [] else [COMMA]) + (Label(ks[i], depth) + (Esc(m[ks[i]]) + MapRest(ks, m, i + 1, depth)))
  }

  ghost function EncMap(m: map<Bytes, Bytes>, depth: nat): Bytes {
    var ks := Keys.Sorted(m.Keys);
    assert forall x :: x in ks ==> x in Keys.Elements(ks);
    if |ks| == 0 then [LBRACE, RBRACE] else [LBRACE] + MapRest(ks, m, 0, depth)
  }

  ghost function EncRest(fields: seq<Field>, vals: seq<Option<Value>>, i: nat, depth: nat): Bytes
    requires i <= |fields| && Typed(KRec(fields), VRec(vals)) && Known(KRec(fields), VRec(vals))
    decreases fields, |fields| - i
  {
    if i == |fields| then Close(depth)
    else if vals[i].None? then EncRest(fields, vals, i + 1, depth)
    else
      (if i == 0 then [] else [COMMA])
      + (Label(fields[i].key, depth) + (Enc(fields[i].kind, vals[i].value, depth + 1) + EncRest(fields, vals, i + 1, depth)))
  }

  /** The bytes the generated encoder appends for v at the given indentation depth. */
  ghost function Enc(k: Kind, v: Value, depth: nat): Bytes
    requires Typed(k, v) && Known(k, v)
    decreases k
  {
    match k
    case KStr => Esc(v.s)
    case KInt(_, _) => Integers.Num(v.n)
    case KBool => if v.t then TRUE else FALSE
    case KMap => EncMap(v.m, depth)
    case KEnum(words) => Esc(words[v.tag - 1])
    case KRaw => v.text
    case KRec(fields) =>
      if |fields| == 0 then [LBRACE, RBRACE] else [LBRACE] + EncRest(fields, v.vals, 0, depth)
  }

  // ---------------------------------------------------------------- reading

  function Index(words: seq<Bytes>, w: Bytes, i: nat): (r: nat)
    requires i <= |words|
    ensures i <= r <= |words|
    ensures r < |words| ==> words[r] == w
    ensures forall j :: i <= j < r ==> words[j] != w
    decreases |words| - i
  {
    if i == |words| || words[i] == w then i else Index(words, w, i + 1)
  }

  function FieldIndex(fields: seq<Field>, key: Bytes, i: nat): (r: nat)
    requires i <= |fields|
    ensures i <= r <= |fields|
    ensures r < |fields| ==> fields[r].key == key
    ensures forall j :: i <= j < r ==> fields[j].key != key
    decreases |fields| - i
  {
    if i == |fields| || fields[i].key == key then i else FieldIndex(fields, key, i + 1)
  }

  function Enum(words: seq<Bytes>, r: Res<Bytes>): (x: Res<Value>)
    ensures x.Ok? ==> r.Ok? && x.pos == r.pos
    ensures x.Err? ==> x.off == if r.Ok? then r.pos else r.off
  {
    match r
    case Err(w, o) => Err(w, o)
    case Ok(s, q) => if Index(words, s, 0) == |words| then Err(BadEnum, q) else Ok(VEnum(Index(words, s, 0) + 1), q)
  }

  function Boolean(b: Bytes, p: nat): (r: Res<bool>)
    requires p <= |b|
    ensures r.Ok? ==> p < r.pos <= |b|
    ensures r.Err? ==> r.off <= |b| && r.word != TrailingBytes
  {
    var word := if At(b, p) == TRUE[0] then TRUE else FALSE;
    if At(b, p) != word[0] then Err(WrongType, p)
    else
      match LiteralAt(b, p, word)
      case Ok(_, q) => Ok(word == TRUE, q)
      case Err(w, o) => Err(w, o)
  }

  /** A member name up to the colon after it: the name, and where the colon stands. */
  function Name(b: Bytes, p: nat): (r: Res<Bytes>)
    requires p <= |b|
    ensures r.Ok? ==> p < r.pos < |b| && b[r.pos] == COLON
    ensures r.Err? ==> r.off <= |b| && r.word != TrailingBytes
  {
    var k := Ws(b, p);
    if At(b, k) != QUOTE then Err(Malformed, k)
    else
      match Str(b, k)
      case Err(w, o) => Err(w, o)
      case Ok(s, q) =>
        var c := Ws(b, q);
        if At(b, c) != COLON then Err(Malformed, c) else Ok(s, c)
  }

  function DecMembers(b: Bytes, p: nat, m: map<Bytes, Bytes>): (r: Res<Value>)
    requires p <= |b|
    ensures r.Ok? ==> p < r.pos <= |b|
    ensures r.Err? ==> r.off <= |b| && r.word != TrailingBytes
    decreases |b| - p
  {
    match Name(b, p)
    case Err(w, o) => Err(w, o)
    case Ok(k, c) =>
      match Str(b, Ws(b, c + 1))
      case Err(w, o) => Err(w, o)
      case Ok(s, e) =>
        var n := Ws(b, e);
        if At(b, n) == COMMA then DecMembers(b, n + 1, m[k := s])
        else if At(b, n) == RBRACE then Ok(VMap(m[k := s]), n + 1)
        else Err(Malformed, n)
  }

  function DecMap(b: Bytes, p: nat, d: nat): (r: Res<Value>)
    requires p <= |b|
    ensures r.Ok? ==> p < r.pos <= |b|
    ensures r.Err? ==> r.off <= |b| && r.word != TrailingBytes
  {
    if At(b, p) != LBRACE then Err(WrongType, p)
    else if d + 1 > DEPTH_LIMIT then Err(DepthExceeded, p)
    else
      var q := Ws(b, p + 1);
      if At(b, q) == RBRACE then Ok(VMap(map[]), q + 1) else DecMembers(b, q, map[])
  }

  predicate Complete(fields: seq<Field>, vals: seq<Option<Value>>)
    requires |vals| == |fields|
  {
    forall i :: 0 <= i < |fields| && fields[i].required ==> vals[i].Some?
  }

  /** The closing brace, then the account of the fields seen. */
  function Finish(b: Bytes, p: nat, fields: seq<Field>, vals: seq<Option<Value>>): (r: Res<Value>)
    requires p <= |b| && |vals| == |fields|
    ensures r.Ok? ==> r.pos == p + 1 <= |b|
    ensures r.Err? ==> r.off <= |b| && r.word != TrailingBytes
  {
    if At(b, p) != RBRACE then Err(Malformed, p)
    else if !Complete(fields, vals) then Err(MissingField, p + 1)
    else Ok(VRec(vals), p + 1)
  }

  /** After a value: another member, or the end. */
  function After(b: Bytes, p: nat, d: nat, fields: seq<Field>, vals: seq<Option<Value>>): (r: Res<Value>)
    requires p <= |b| && |vals| == |fields|
    ensures r.Ok? ==> p < r.pos <= |b|
    ensures r.Err? ==> r.off <= |b| && r.word != TrailingBytes
    decreases |b| - p, 2
  {
    var n := Ws(b, p);
    if At(b, n) == COMMA then DecFields(b, n + 1, d, fields, vals) else Finish(b, n, fields, vals)
  }

  /** The loop over members. A record without fields refuses at the colon of the first one. */
  function DecFields(b: Bytes, p: nat, d: nat, fields: seq<Field>, vals: seq<Option<Value>>): (r: Res<Value>)
    requires p <= |b| && |vals| == |fields|
    ensures r.Ok? ==> p < r.pos <= |b|
    ensures r.Err? ==> r.off <= |b| && r.word != TrailingBytes
    decreases |b| - p, 3
  {
    match Name(b, p)
    case Err(w, o) => Err(w, o)
    case Ok(key, c) =>
      if |fields| == 0 then Err(UnknownField, c)
      else
        var v := Ws(b, c + 1);
        var i := FieldIndex(fields, key, 0);
        if i == |fields| then Err(UnknownField, v)
        else if vals[i].Some? then Err(DuplicateField, v)
        else
          match Dec(b, v, d, fields[i].kind)
          case Err(w, o) => Err(w, o)
          case Ok(x, e) => After(b, e, d, fields, vals[i := Some(x)])
  }

  function NoVals(n: nat): (r: seq<Option<Value>>)
    ensures |r| == n && forall i :: 0 <= i < n ==> r[i].None?
  {
    seq(n, _ => None)
  }

  function DecRec(b: Bytes, p: nat, d: nat, fields: seq<Field>): (r: Res<Value>)
    requires p <= |b|
    ensures r.Ok? ==> p < r.pos <= |b|
    ensures r.Err? ==> r.off <= |b| && r.word != TrailingBytes
    decreases |b| - p, 0
  {
    if At(b, p) != LBRACE then Err(WrongType, p)
    else if d + 1 > DEPTH_LIMIT then Err(DepthExceeded, p)
    else
      var q := Ws(b, p + 1);
      if At(b, q) == RBRACE then Finish(b, q, fields, NoVals(|fields|))
      else DecFields(b, q, d + 1, fields, NoVals(|fields|))
  }

  /** The generated decoder for a kind, from position p with depth d outside it. */
  function Dec(b: Bytes, p: nat, d: nat, k: Kind): (r: Res<Value>)
    requires p <= |b|
    ensures r.Ok? ==> p < r.pos <= |b|
    ensures r.Err? ==> r.off <= |b| && r.word != TrailingBytes
    decreases |b| - p, 1
  {
    match k
    case KStr => (match Str(b, p) case Ok(s, q) => Ok(VStr(s), q) case Err(w, o) => Err(w, o))
    case KInt(min, max) => (match Integers.Integer(b, p, min, max) case Ok(n, q) => Ok(VInt(n), q) case Err(w, o) => Err(w, o))
    case KBool => (match Boolean(b, p) case Ok(t, q) => Ok(VBool(t), q) case Err(w, o) => Err(w, o))
    case KMap => DecMap(b, p, d)
    case KEnum(words) => Enum(words, Str(b, p))
    case KRaw => (match SkipValue(b, p, d) case Ok(_, q) => Ok(VRaw(b[p..q]), q) case Err(w, o) => Err(w, o))
    case KRec(fields) => DecRec(b, p, d, fields)
  }

  /** A whole text: blanks, one value, blanks, and nothing more. */
  function Text(b: Bytes, p: nat, d: nat, k: Kind): (r: Res<Value>)
    requires p <= |b|
    ensures r.Ok? ==> r.pos == |b|
  {
    match Dec(b, Ws(b, p), d, k)
    case Err(w, o) => Err(w, o)
    case Ok(v, e) => if Ws(b, e) < |b| then Err(TrailingBytes, Ws(b, e)) else Ok(v, |b|)
  }
}
