/**
 * What a typed decoder makes of a text, told from the JSON value alone: the value it has for a kind,
 * or the word it is refused with and the place in its spelling. Nothing here looks at a byte of the
 * buffer; the theorems say that the decoders agree, and that they take nothing else.
 */
module Meaning {
  import opened Bytes
  import opened Grammar
  import opened Records
  import opened Texts
  import G = Lockstep
  import I = Integers
  import K = Skip
  import R = Records
  import RoundTrip
  import Strings

  /** A value, or a refusal and how far into the spelling it is made; a number's own refusals are not placed. */
  datatype Sense = Is(v: Value) | Not(word: Word, at: Option<nat>)

  /** A number is an integer if it is spelled as one, in range and not a negative zero. */
  function IntegerSense(n: Num, min: int, max: int): Sense
    requires GoodNum(n)
  {
    var u: int := I.Val(n.whole);
    var x := if n.neg then -u else u;
    if n.frac.Some? || n.exp.Some? || (n.neg && u == 0) || x < min || max < x then Not(NumberSpelling, None) else Is(VInt(x))
  }

  function WordSense(words: seq<Bytes>, w: Bytes, end: nat): Sense {
    var i := Index(words, w, 0);
    if i == |words| then Not(BadEnum, Some(end)) else Is(VEnum(i + 1))
  }

  /** Where the value of the first member stands, and where the next member does, the first standing at o. */
  function ValueAt(ms: Members, o: nat): nat
    requires GoodMembers(ms, true)
  {
    assert GoodMember(ms.m, true);
    o + |ms.m.before| + |SpellKey(ms.m.key, true)|
  }

  function NextAt(ms: Members, o: nat): nat
    requires GoodMembers(ms, true)
  {
    assert GoodMember(ms.m, true);
    o + |SpellMember(ms.m, true)| + 1
  }

  /** An object of strings: of equal names the last one counts. */
  function MapSense(ms: Members, acc: map<Bytes, Bytes>, o: nat): Sense
    requires GoodMembers(ms, true) && PairedMembers(ms, true)
  {
    Opened(ms);
    if !ms.m.v.String? then Not(WrongType, Some(ValueAt(ms, o)))
    else
      var next := acc[Decoded(ms.m.key.t) := Decoded(ms.m.v.t)];
      if ms.More? then MapSense(ms.rest, next, NextAt(ms, o)) else Is(VMap(next))
  }

  /** What the last of the members with this name holds. */
  function LastNamed(ms: Members, name: Bytes): Option<Bytes>
    requires GoodMembers(ms, true) && PairedMembers(ms, true)
  {
    Opened(ms);
    var later := if ms.More? then LastNamed(ms.rest, name) else None;
    if later.Some? then later
    else if Decoded(ms.m.key.t) == name && ms.m.v.String? then Some(Decoded(ms.m.v.t))
    else None
  }

  predicate AllStrings(ms: Members) {
    ms.m.v.String? && (ms.More? ==> AllStrings(ms.rest))
  }

  /** An object is a map of strings exactly when all its members are, and each name has what its last member holds. */
  lemma {:induction false} MapHoldsLast(ms: Members, acc: map<Bytes, Bytes>, o: nat, name: Bytes)
    requires GoodMembers(ms, true) && PairedMembers(ms, true)
    ensures MapSense(ms, acc, o).Is? <==> AllStrings(ms)
    ensures MapSense(ms, acc, o).Is? ==>
      var v := MapSense(ms, acc, o).v;
      && v.VMap?
      && (name in v.m <==> LastNamed(ms, name).Some? || name in acc)
      && (name in v.m ==> v.m[name] == if LastNamed(ms, name).Some? then LastNamed(ms, name).value else acc[name])
    decreases ms
  {
    hide GoodMembers, PairedMembers, Decoded, GoodText, Paired, GoodMember, WellFormed, AllPaired;
    Opened(ms);
    if ms.m.v.String? && ms.More? {
      MapHoldsLast(ms.rest, acc[Decoded(ms.m.key.t) := Decoded(ms.m.v.t)], NextAt(ms, o), name);
    }
  }

  /** The account after the closing brace. */
  function Closed(fields: seq<Field>, vals: seq<Option<Value>>, end: nat): Sense
    requires |vals| == |fields|
  {
    if forall i :: 0 <= i < |fields| && fields[i].required ==> vals[i].Some? then Is(VRec(vals))
    else Not(MissingField, Some(end))
  }

  /** An object's members one by one: each has to name a field not named before, and to suit it. */
  function FieldsSense(fields: seq<Field>, ms: Members, vals: seq<Option<Value>>, o: nat): Sense
    requires GoodMembers(ms, true) && PairedMembers(ms, true) && |vals| == |fields|
    decreases ms, 0
  {
    Opened(ms);
    var i := FieldIndex(fields, Decoded(ms.m.key.t), 0);
    if |fields| == 0 then Not(UnknownField, Some(o + |ms.m.before| + |Quoted(ms.m.key.t)| + |ms.m.key.mid|))
    else if i == |fields| then Not(UnknownField, Some(ValueAt(ms, o)))
    else if vals[i].Some? then Not(DuplicateField, Some(ValueAt(ms, o)))
    else
      match SenseOf(fields[i].kind, ms.m.v)
      case Not(w, at) => Not(w, if at.Some? then Some(ValueAt(ms, o) + at.value) else None)
      case Is(x) =>
        var next := vals[i := Some(x)];
        if ms.More? then FieldsSense(fields, ms.rest, next, NextAt(ms, o)) else Closed(fields, next, NextAt(ms, o))
  }

  function SenseOf(k: Kind, j: Json): Sense
    requires WellFormed(j) && AllPaired(j)
    decreases j, 0
  {
    match k
    case KStr => if j.String? then Is(VStr(Decoded(j.t))) else Not(WrongType, Some(0))
    case KInt(min, max) => if j.Number? then IntegerSense(j.n, min, max) else Not(WrongType, Some(0))
    case KBool =>
      if j == Literal(LITERAL_TRUE) then Is(VBool(true))
      else if j == Literal(LITERAL_FALSE) then Is(VBool(false))
      else Not(WrongType, Some(0))
    case KEnum(words) => if j.String? then WordSense(words, Decoded(j.t), |Spell(j)|) else Not(WrongType, Some(0))
    case KRaw => Is(VRaw(Spell(j)))
    case KMap =>
      if j.Empty? && j.isObj then Is(VMap(map[]))
      else if j.Full? && j.isObj then MapSense(j.ms, map[], 1)
      else Not(WrongType, Some(0))
    case KRec(fields) =>
      if j.Empty? && j.isObj then Closed(fields, NoVals(|fields|), |Spell(j)|)
      else if j.Full? && j.isObj then FieldsSense(fields, j.ms, NoVals(|fields|), 1)
      else Not(WrongType, Some(0))
  }

  lemma Opened(ms: Members)
    requires GoodMembers(ms, true) && PairedMembers(ms, true)
    ensures GoodMember(ms.m, true) && ms.m.key.Key? && GoodText(ms.m.key.t) && Paired(ms.m.key.t)
    ensures WellFormed(ms.m.v) && AllPaired(ms.m.v)
    ensures ms.More? ==> GoodMembers(ms.rest, true) && PairedMembers(ms.rest, true)
  {
  }

  /** The reader's answer is that sense: its value, ending at q, or its refusal at its place from p on. */
  predicate Agrees(r: Res<Value>, s: Sense, p: nat, q: nat) {
    match s
    case Is(v) => r == Ok(v, q)
    case Not(w, at) => r.Err? && r.word == w && (at.Some? ==> r.off == p + at.value)
  }

  // ------------------------------------------------------------ one by one

  /** What the integer reader sees of a number: its digits end where the number's whole part does. */
  lemma NumberShape(b: Bytes, p: nat, n: Num)
    requires p <= |b| && GoodNum(n) && StartsAt(b, p, SpellNum(n)) && !I.Continues(At(b, p + |SpellNum(n)|))
    ensures I.Shaped(b, p) && (At(b, p) == I.MINUS <==> n.neg) && I.Magnitude(b, p) == I.Val(n.whole)
    ensures n.frac.Some? || n.exp.Some? ==> I.Continues(At(b, I.End(b, p)))
    ensures n.frac.None? && n.exp.None? ==> I.End(b, p) == p + |SpellNum(n)|
  {
    hide SpellNum, I.Val, I.RunEnd, StartsAt, SpellFrac, SpellExp;
    K.NumParts(b, p, n);
    var s := if n.neg then p + 1 else p;
    K.FirstByte(b, s, n.whole);
    var w := s + |n.whole|;
    AfterWhole(b, w, n);
    WholeRuns(b, s, n.whole);
  }

  lemma AfterWhole(b: Bytes, w: nat, n: Num)
    requires GoodNum(n) && StartsAt(b, w, SpellFrac(n.frac)) && StartsAt(b, w + |SpellFrac(n.frac)|, SpellExp(n.exp))
    requires !I.Continues(At(b, w + |SpellFrac(n.frac)| + |SpellExp(n.exp)|))
    ensures !Digit(At(b, w)) && |SpellFrac(None)| == |SpellExp(None)| == 0
    ensures n.frac.Some? || n.exp.Some? <==> I.Continues(At(b, w))
  {
    if n.frac.Some? {
      K.FirstByte(b, w, SpellFrac(n.frac));
    } else if n.exp.Some? {
      K.FirstByte(b, w, SpellExp(n.exp));
    }
  }

  lemma WholeRuns(b: Bytes, s: nat, whole: Bytes)
    requires StartsAt(b, s, whole) && SomeDigits(whole) && (|whole| > 1 ==> whole[0] != ZERO_DIGIT) && !Digit(At(b, s + |whole|))
    ensures s < |b| && b[s] == whole[0] && s + |whole| <= |b| && b[s..s + |whole|] == whole
    ensures (if b[s] == I.ZERO then s + 1 else I.RunEnd(b, s)) == s + |whole|
  {
    K.FirstByte(b, s, whole);
    I.RunEndIs(b, s, s + |whole|);
  }

  lemma ShapedWord(b: Bytes, p: nat, min: int, max: int)
    requires p <= |b| && I.Shaped(b, p)
    ensures I.Integer(b, p, min, max).Err? ==> I.Integer(b, p, min, max).word == NumberSpelling
  {
  }

  lemma IntegerAgrees(b: Bytes, p: nat, n: Num, min: int, max: int)
    requires p <= |b| && I.MIN64 <= min && max <= I.MAX64 && GoodNum(n) && StartsAt(b, p, SpellNum(n))
    requires !I.Continues(At(b, p + |SpellNum(n)|))
    ensures var r := I.Integer(b, p, min, max);
      match IntegerSense(n, min, max)
      case Is(v) => v.VInt? && r == Ok(v.n, p + |SpellNum(n)|)
      case Not(w, at) => at.None? && r.Err? && r.word == w
  {
    hide StartsAt, SpellNum, I.Integer, I.Val, I.End, GoodNum, I.Continues;
    NumberShape(b, p, n);
    ShapedWord(b, p, min, max);
    var r := I.Integer(b, p, min, max);
    if r.Ok? {
      I.IntegerFits(b, p, min, max, r.value, r.pos);
    }
    if IntegerSense(n, min, max).Is? {
      I.IntegerFits(b, p, min, max, IntegerSense(n, min, max).v.n, p + |SpellNum(n)|);
    }
  }

  lemma BooleanAgrees(b: Bytes, p: nat, j: Json)
    requires p <= |b| && WellFormed(j) && StartsAt(b, p, Spell(j))
    ensures var r := Boolean(b, p);
      if j == Literal(LITERAL_TRUE) then r == Ok(true, p + |Spell(j)|)
      else if j == Literal(LITERAL_FALSE) then r == Ok(false, p + |Spell(j)|)
      else r == Err(WrongType, p)
  {
    hide StartsAt;
    K.SpellStart(b, p, j);
    if j.Literal? {
      K.WordRead(b, p, j.word);
    }
  }

  lemma StringAgrees(b: Bytes, p: nat, j: Json)
    requires p <= |b| && WellFormed(j) && AllPaired(j) && StartsAt(b, p, Spell(j))
    ensures Strings.Str(b, p) == if j.String? then Ok(Decoded(j.t), p + |Spell(j)|) else Err(WrongType, p)
  {
    hide StartsAt, SpellNum, SpellMembers, Quoted, Decoded, Paired, GoodText, Strings.StrBody;
    K.SpellStart(b, p, j);
    if j.String? {
      StrOfText(b, p, j.t);
    }
  }

  // ------------------------------------------------------------- members

  /** Where a member's name, its value and what follows them stand. */
  lemma MemberAgrees(b: Bytes, p: nat, m: Member)
    requires K.MemberAt(b, p, m, true) && PairedMember(m, true)
    ensures m.key.Key? && GoodText(m.key.t) && Paired(m.key.t) && WellFormed(m.v) && AllPaired(m.v)
    ensures var n := Name(b, p); var v := p + |m.before| + |SpellKey(m.key, true)|; var e := v + |Spell(m.v)|;
      && n.Ok? && n.value == Decoded(m.key.t) && n.pos == p + |m.before| + |Quoted(m.key.t)| + |m.key.mid|
      && Ws(b, n.pos + 1) == v <= e <= |b|
      && StartsAt(b, v, Spell(m.v)) && Stops(m.v, At(b, e)) && !I.Continues(At(b, e))
      && Ws(b, e) == p + |SpellMember(m, true)|
  {
    hide StartsAt, SpellMember, SpellKey, Spell, WellFormed, AllPaired, Paired, GoodText, Stops, Ws, Decoded, I.Continues, Name;
    K.MemberParts(b, p, m, true);
    var k := p + |m.before|;
    NameAgrees(b, p, k, m.key);
    AfterValue(b, p, m);
  }

  lemma NameAgrees(b: Bytes, p: nat, k: nat, key: Key)
    requires p <= |b| && Ws(b, p) == k && key.Key? && GoodKey(key, true) && Paired(key.t)
    requires StartsAt(b, k, SpellKey(key, true)) && !Blank(At(b, k + |SpellKey(key, true)|))
    ensures GoodText(key.t) && Name(b, p).Ok? && Name(b, p).value == Decoded(key.t)
    ensures Name(b, p).pos == k + |Quoted(key.t)| + |key.mid|
    ensures Ws(b, Name(b, p).pos + 1) == k + |SpellKey(key, true)|
  {
    hide StartsAt, Ws, Strings.Str, Paired, GoodText, Decoded, Quoted, SpellKey, AllBlank, AllSpace;
    K.KeyParts(b, k, key.t, key.mid, key.gap);
    BlanksAgree(key.mid);
    BlanksAgree(key.gap);
    var q := k + |Quoted(key.t)|;
    var c := q + |key.mid|;
    StrOfText(b, k, key.t);
    K.ColonIsNoBlank(b, c);
    WsOver(b, q, key.mid);
    WsOver(b, c + 1, key.gap);
  }

  lemma AfterValue(b: Bytes, p: nat, m: Member)
    requires K.MemberAt(b, p, m, true)
    ensures !I.Continues(At(b, p + |m.before| + |SpellKey(m.key, true)| + |Spell(m.v)|))
  {
    hide StartsAt, SpellMember, SpellKey, Spell, GoodKey, WellFormed;
    K.MemberSpelled(b, p, m, true);
    if |m.after| > 0 {
      K.FirstByte(b, p + |m.before| + |SpellKey(m.key, true)| + |Spell(m.v)|, m.after);
    }
  }

  // ------------------------------------------------------------- the value

  /** One turn of the map's loop: a value that is no string stops it where it stands. */
  lemma EntryAgrees(b: Bytes, p: nat, ms: Members, acc: map<Bytes, Bytes>)
    requires K.MembersAt(b, p, ms, true) && PairedMembers(ms, true) && p <= |b|
    ensures GoodMember(ms.m, true) && GoodText(ms.m.key.t) && Paired(ms.m.key.t) && K.MemberAt(b, p, ms.m, true)
    ensures ms.m.v.String? ==> GoodText(ms.m.v.t) && Paired(ms.m.v.t) && p + |SpellMember(ms.m, true)| < |b|
    ensures if ms.m.v.String? then
        DecMembers(b, p, acc) == RoundTrip.AfterEntry(b, p + |SpellMember(ms.m, true)|, acc[Decoded(ms.m.key.t) := Decoded(ms.m.v.t)])
      else DecMembers(b, p, acc) == Err(WrongType, ValueAt(ms, p))
  {
    hide StartsAt, SpellMember, SpellMembers, SpellKey, Spell, AllPaired, Paired, GoodText, Stops, Ws, Decoded, I.Continues, Name,
      DecMembers, Strings.Str, RoundTrip.AfterEntry;
    Opened(ms);
    K.AfterMember(b, p, ms, true);
    K.MembersHead(b, p, ms, true);
    MemberAgrees(b, p, ms.m);
    RoundTrip.EntryStep(b, p, acc);
    StringAgrees(b, Ws(b, Name(b, p).pos + 1), ms.m.v);
  }

  lemma {:induction false} MapAgrees(b: Bytes, p: nat, o: nat, ms: Members, acc: map<Bytes, Bytes>)
    requires K.MembersAt(b, p, ms, true) && PairedMembers(ms, true) && o <= p <= |b|
    ensures Agrees(DecMembers(b, p, acc), MapSense(ms, acc, p - o), o, p + |SpellMembers(ms, true)| + 1)
    decreases ms
  {
    hide StartsAt, SpellMember, SpellMembers, SpellKey, Spell, WellFormed, AllPaired, Paired, GoodText, Decoded, Name,
      DecMembers, GoodMember, GoodMembers, PairedMembers;
    Opened(ms);
    K.MembersHead(b, p, ms, true);
    EntryAgrees(b, p, ms, acc);
    if ms.m.v.String? && ms.More? {
      MapAgrees(b, NextAt(ms, p), o, ms.rest, acc[Decoded(ms.m.key.t) := Decoded(ms.m.v.t)]);
    }
  }

  /** One turn of the record's loop: where a member stops it, or where it goes on. */
  lemma {:induction false} FieldAgrees(b: Bytes, p: nat, d: nat, fields: seq<Field>, ms: Members, vals: seq<Option<Value>>)
    requires K.MembersAt(b, p, ms, true) && PairedMembers(ms, true) && p <= |b| && d + DepthOfMembers(ms) <= K.DEPTH_LIMIT
    requires GoodKind(KRec(fields)) && |vals| == |fields|
    ensures GoodMember(ms.m, true) && GoodText(ms.m.key.t) && Paired(ms.m.key.t) && WellFormed(ms.m.v) && AllPaired(ms.m.v)
    ensures K.MemberAt(b, p, ms.m, true) && p + |SpellMember(ms.m, true)| < |b|
    ensures var r, i, v := DecFields(b, p, d, fields, vals), FieldIndex(fields, Decoded(ms.m.key.t), 0), ValueAt(ms, p);
      if |fields| == 0 then r == Err(UnknownField, p + |ms.m.before| + |Quoted(ms.m.key.t)| + |ms.m.key.mid|)
      else if i == |fields| then r == Err(UnknownField, v)
      else if vals[i].Some? then r == Err(DuplicateField, v)
      else
        var s := SenseOf(fields[i].kind, ms.m.v);
        if s.Is? then
          var e := v + |Spell(ms.m.v)|;
          e <= |b| && Ws(b, e) == p + |SpellMember(ms.m, true)| && r == After(b, e, d, fields, vals[i := Some(s.v)])
        else r.Err? && r.word == s.word && (s.at.Some? ==> r.off == v + s.at.value)
    decreases ms, 0
  {
    hide StartsAt, SpellMember, SpellMembers, SpellKey, Spell, AllPaired, Paired, GoodText, Stops, Ws, Decoded, I.Continues, Name,
      DecFields, Dec, GoodKind, SenseOf, After, Closed, Quoted;
    Opened(ms);
    K.AfterMember(b, p, ms, true);
    K.MembersHead(b, p, ms, true);
    K.HeadIsGood(d, ms, true);
    MemberAgrees(b, p, ms.m);
    G.FieldsStep(b, p, d, fields, vals);
    var i := FieldIndex(fields, Decoded(ms.m.key.t), 0);
    if i < |fields| && vals[i].None? {
      KindOf(fields, i);
      SenseAgrees(b, Ws(b, Name(b, p).pos + 1), d, fields[i].kind, ms.m.v);
    }
  }

  lemma {:induction false} FieldsAgree(b: Bytes, p: nat, o: nat, d: nat, fields: seq<Field>, ms: Members, vals: seq<Option<Value>>)
    requires K.MembersAt(b, p, ms, true) && PairedMembers(ms, true) && o <= p <= |b| && d + DepthOfMembers(ms) <= K.DEPTH_LIMIT
    requires GoodKind(KRec(fields)) && |vals| == |fields|
    ensures Agrees(DecFields(b, p, d, fields, vals), FieldsSense(fields, ms, vals, p - o), o, p + |SpellMembers(ms, true)| + 1)
    decreases ms, 1
  {
    hide StartsAt, SpellMember, SpellMembers, SpellKey, Spell, WellFormed, AllPaired, Paired, GoodText, Ws, Decoded, Name,
      DecFields, Dec, GoodMember, GoodMembers, PairedMembers, GoodKind, SenseOf, After, Closed, Quoted;
    Opened(ms);
    K.MembersHead(b, p, ms, true);
    FieldAgrees(b, p, d, fields, ms, vals);
    var i := FieldIndex(fields, Decoded(ms.m.key.t), 0);
    if i < |fields| && vals[i].None? && SenseOf(fields[i].kind, ms.m.v).Is? {
      var next := vals[i := Some(SenseOf(fields[i].kind, ms.m.v).v)];
      AfterAgrees(b, o, ValueAt(ms, p) + |Spell(ms.m.v)|, d, fields, next, p + |SpellMember(ms.m, true)|);
      if ms.More? {
        K.HeadIsGood(d, ms, true);
        FieldsAgree(b, NextAt(ms, p), o, d, fields, ms.rest, next);
      }
    }
  }

  lemma KindOf(fields: seq<Field>, i: nat)
    requires GoodKind(KRec(fields)) && i < |fields|
    ensures GoodKind(fields[i].kind)
  {
  }

  /** After a value the loop goes on over a comma, and closes its account at the brace. */
  lemma AfterAgrees(b: Bytes, o: nat, e: nat, d: nat, fields: seq<Field>, vals: seq<Option<Value>>, q: nat)
    requires o <= e <= |b| && |vals| == |fields| && Ws(b, e) == q
    ensures At(b, q) == K.COMMA ==> q < |b| && After(b, e, d, fields, vals) == DecFields(b, q + 1, d, fields, vals)
    ensures At(b, q) == RBRACE ==> Agrees(After(b, e, d, fields, vals), Closed(fields, vals, q + 1 - o), o, q + 1)
  {
    hide DecFields, Ws;
  }

  /** Only an integer reader cares for more than the grammar does about what follows a number. */
  predicate Free(k: Kind, j: Json, c: byte) {
    Stops(j, c) && (k.KInt? && j.Number? ==> !I.Continues(c))
  }

  /** Wherever a value stands, the decoder of a kind answers its sense: the value at its end, or the word. */
  lemma {:induction false} SenseAgrees(b: Bytes, p: nat, d: nat, k: Kind, j: Json)
    requires p <= |b| && GoodKind(k) && WellFormed(j) && AllPaired(j) && d + Depth(j) <= K.DEPTH_LIMIT
    requires StartsAt(b, p, Spell(j)) && Free(k, j, At(b, p + |Spell(j)|))
    ensures Agrees(Dec(b, p, d, k), SenseOf(k, j), p, p + |Spell(j)|)
    decreases j, 1
  {
    hide StartsAt, Spell, WellFormed, AllPaired, Depth, Stops, Decoded, Strings.Str, Boolean, DecMap, DecRec, K.SkipValue, I.Integer,
      I.Continues, IntegerSense, MapSense, FieldsSense, Closed, GoodKind;
    match k
    case KStr => StringAgrees(b, p, j);
    case KEnum(words) => StringAgrees(b, p, j);
    case KBool => BooleanAgrees(b, p, j);
    case KInt(min, max) => NumberAgrees(b, p, min, max, j);
    case KRaw =>
      K.SkipComplete(b, p, d, j);
      RawIs(b, p, Spell(j));
    case KMap => ObjectOfStrings(b, p, d, j);
    case KRec(fields) => ObjectOfFields(b, p, d, fields, j);
  }

  lemma RawIs(b: Bytes, p: nat, s: Bytes)
    requires StartsAt(b, p, s)
    ensures p + |s| <= |b| && b[p..p + |s|] == s
  {
  }

  lemma NumberAgrees(b: Bytes, p: nat, min: int, max: int, j: Json)
    requires p <= |b| && GoodKind(KInt(min, max)) && WellFormed(j) && StartsAt(b, p, Spell(j))
    requires j.Number? ==> !I.Continues(At(b, p + |Spell(j)|))
    ensures var r := I.Integer(b, p, min, max);
      if j.Number? then
        match IntegerSense(j.n, min, max)
        case Is(v) => v.VInt? && r == Ok(v.n, p + |Spell(j)|)
        case Not(w, at) => at.None? && r.Err? && r.word == w
      else r == Err(WrongType, p)
  {
    hide StartsAt, IntegerSense, I.Continues;
    K.SpellStart(b, p, j);
    if j.Number? {
      IntegerAgrees(b, p, j.n, min, max);
    }
  }

  lemma {:induction false} ObjectOfStrings(b: Bytes, p: nat, d: nat, j: Json)
    requires p <= |b| && WellFormed(j) && AllPaired(j) && d + Depth(j) <= K.DEPTH_LIMIT && StartsAt(b, p, Spell(j))
    ensures Agrees(DecMap(b, p, d), SenseOf(KMap, j), p, p + |Spell(j)|)
    decreases j, 0
  {
    hide StartsAt, SpellMembers, GoodMembers, PairedMembers, DepthOfMembers, Ws, DecMembers, MapSense;
    K.SpellStart(b, p, j);
    if j.Empty? && j.isObj {
      EmptyObject(b, p, j.blank);
    } else if j.Full? && j.isObj {
      K.BracketParts(b, p, true, SpellMembers(j.ms, true));
      K.FirstIsNotShut(b, p + 1, j.ms, true);
      RoundTrip.MembersFromWs(b, p + 1, map[]);
      MapAgrees(b, p + 1, p, j.ms, map[]);
    }
  }

  lemma EmptyObject(b: Bytes, p: nat, blank: Bytes)
    requires AllSpace(blank) && StartsAt(b, p, Spell(Empty(true, blank)))
    ensures p < |b| && b[p] == LBRACE && Ws(b, p + 1) == p + 1 + |blank| < |b| && b[p + 1 + |blank|] == RBRACE
    ensures |Spell(Empty(true, blank))| == |blank| + 2
  {
    K.BracketParts(b, p, true, blank);
    BlanksAgree(blank);
    WsOver(b, p + 1, blank);
  }

  lemma {:induction false} ObjectOfFields(b: Bytes, p: nat, d: nat, fields: seq<Field>, j: Json)
    requires p <= |b| && GoodKind(KRec(fields)) && WellFormed(j) && AllPaired(j) && d + Depth(j) <= K.DEPTH_LIMIT
    requires StartsAt(b, p, Spell(j))
    ensures Agrees(DecRec(b, p, d, fields), SenseOf(KRec(fields), j), p, p + |Spell(j)|)
    decreases j, 0
  {
    hide StartsAt, SpellMembers, GoodMembers, PairedMembers, DepthOfMembers, Ws, DecFields, FieldsSense, GoodKind, NoVals;
    K.SpellStart(b, p, j);
    if j.Empty? && j.isObj {
      EmptyObject(b, p, j.blank);
    } else if j.Full? && j.isObj {
      K.BracketParts(b, p, true, SpellMembers(j.ms, true));
      K.FirstIsNotShut(b, p + 1, j.ms, true);
      RoundTrip.RecFromBrace(b, p, d, fields);
      FieldsAgree(b, p + 1, p, d + 1, fields, j.ms, NoVals(|fields|));
    }
  }

  /**
   * The typed decoder of a kind takes v, ending at q, exactly when a value of the grammar stands
   * there, paired, within the depth limit and not cut short, whose sense for that kind is v.
   */
  lemma DecIsSense(b: Bytes, p: nat, d: nat, k: Kind, v: Value, q: nat)
    requires p <= |b| && GoodKind(k) && d <= K.DEPTH_LIMIT
    ensures Dec(b, p, d, k) == Ok(v, q) <==>
      exists j :: K.Means(b, p, d, q, j) && Free(k, j, At(b, q)) && SenseOf(k, j) == Is(v)
  {
    hide StartsAt, Spell, WellFormed, AllPaired, Depth, Stops, Dec, SenseOf, I.Continues, GoodKind, K.SkipValue;
    if Dec(b, p, d, k) == Ok(v, q) {
      var j := TreeOf(b, p, d, k);
      SenseAgrees(b, p, d, k, j);
      assert K.Means(b, p, d, q, j) && Free(k, j, At(b, q)) && SenseOf(k, j) == Is(v);
    }
    if j :| K.Means(b, p, d, q, j) && Free(k, j, At(b, q)) && SenseOf(k, j) == Is(v) {
      SenseAgrees(b, p, d, k, j);
    }
  }

  /** The value that stands where a decoder has succeeded. */
  lemma TreeOf(b: Bytes, p: nat, d: nat, k: Kind) returns (j: Json)
    requires p <= |b| && GoodKind(k) && d <= K.DEPTH_LIMIT && Dec(b, p, d, k).Ok?
    ensures K.Means(b, p, d, Dec(b, p, d, k).pos, j) && Free(k, j, At(b, Dec(b, p, d, k).pos))
  {
    hide StartsAt, Spell, WellFormed, AllPaired, Depth, Stops, Dec, I.Continues, GoodKind, K.SkipValue;
    G.DecFollows(b, p, d, k);
    j := K.ValueOf(b, p, d);
    if k.KInt? {
      IntegerStops(b, p, d, k.min, k.max);
    }
  }

  lemma IntegerStops(b: Bytes, p: nat, d: nat, min: int, max: int)
    requires p <= |b| && GoodKind(KInt(min, max)) && Dec(b, p, d, KInt(min, max)).Ok?
    ensures !I.Continues(At(b, Dec(b, p, d, KInt(min, max)).pos))
  {
    hide I.Integer, I.Num, StartsAt;
    var r := I.Integer(b, p, min, max);
    I.IntegerIsNum(b, p, min, max, r.value, r.pos);
  }

  // ------------------------------------------------------------ whole texts

  /** Blanks from p, then the value j from s on, paired and within the depth limit. */
  ghost predicate Stands(b: Bytes, p: nat, d: nat, s: nat, j: Json) {
    && p <= s <= |b| && AllSpace(b[p..s]) && WellFormed(j) && AllPaired(j) && d + Depth(j) <= K.DEPTH_LIMIT
    && StartsAt(b, s, Spell(j))
  }

  /** Only blanks from e to o, and there the end of the text or something that is none. */
  predicate BlankUpTo(b: Bytes, e: nat, o: nat) {
    e <= o <= |b| && AllSpace(b[e..o]) && (o < |b| ==> !Space(b[o]))
  }

  /** Whatever text it is in, a value that stands after blanks alone is answered for, and so is what follows it. */
  lemma TextAgrees(b: Bytes, p: nat, d: nat, k: Kind, s: nat, j: Json, o: nat)
    requires GoodKind(k) && Stands(b, p, d, s, j)
    requires var e := s + |Spell(j)|; Free(k, j, At(b, e)) && BlankUpTo(b, e, o)
    ensures match SenseOf(k, j)
      case Is(v) => R.Text(b, p, d, k) == if o == |b| then Ok(v, |b|) else Err(TrailingBytes, o)
      case Not(w, at) =>
        var r := R.Text(b, p, d, k);
        r.Err? && r.word == w && (at.Some? ==> r.off == s + at.value)
  {
    hide StartsAt, Spell, WellFormed, AllPaired, Depth, Stops, Dec, SenseOf, I.Continues, GoodKind, AllSpace, AllBlank;
    K.SpellStart(b, s, j);
    BlanksEnd(b, p, s);
    BlanksEnd(b, s + |Spell(j)|, o);
    SenseAgrees(b, s, d, k, j);
  }

  /** The reader's blanks end where the grammar's do. */
  lemma BlanksEnd(b: Bytes, p: nat, s: nat)
    requires p <= s <= |b| && AllSpace(b[p..s]) && (s < |b| ==> !Space(b[s]))
    ensures Ws(b, p) == s
  {
    BlanksAgree(b[p..s]);
    WsOver(b, p, b[p..s]);
  }

  lemma BlanksAre(b: Bytes, p: nat)
    requires p <= |b|
    ensures BlankUpTo(b, p, Ws(b, p))
  {
    BlanksAgree(b[p..Ws(b, p)]);
  }

  /** What a successful decoder in a whole text has read. */
  lemma TextStands(b: Bytes, p: nat, d: nat, k: Kind) returns (s: nat, j: Json)
    requires p <= |b| && GoodKind(k) && d <= K.DEPTH_LIMIT && Dec(b, Ws(b, p), d, k).Ok?
    ensures Stands(b, p, d, s, j) && SenseOf(k, j) == Is(Dec(b, Ws(b, p), d, k).value)
    ensures s == Ws(b, p) && s + |Spell(j)| == Dec(b, s, d, k).pos <= |b| && Free(k, j, At(b, s + |Spell(j)|))
  {
    hide StartsAt, Spell, WellFormed, AllPaired, Depth, Stops, Dec, SenseOf, I.Continues, GoodKind, AllSpace;
    s := Ws(b, p);
    BlanksAre(b, p);
    j := TreeOf(b, s, d, k);
    SenseAgrees(b, s, d, k, j);
  }

  lemma EndIsFree(b: Bytes, e: nat, k: Kind, j: Json)
    requires BlankUpTo(b, e, |b|)
    ensures Free(k, j, At(b, e))
  {
    G.StopsAtAny(j, At(b, e));
  }

  /**
   * A whole text is taken as v exactly when it is a JSON text: blanks, one value of the grammar whose
   * sense is v, blanks, and nothing more.
   */
  lemma TextIsJson(b: Bytes, p: nat, d: nat, k: Kind, v: Value)
    requires p <= |b| && GoodKind(k) && d <= K.DEPTH_LIMIT
    ensures R.Text(b, p, d, k) == Ok(v, |b|) <==>
      exists s: nat, j: Json :: Stands(b, p, d, s, j) && BlankUpTo(b, s + |Spell(j)|, |b|) && SenseOf(k, j) == Is(v)
  {
    hide StartsAt, AllSpace, Depth, BlankUpTo, Spell, Dec, SenseOf, GoodKind, WellFormed, AllPaired, Free, R.Text;
    if R.Text(b, p, d, k) == Ok(v, |b|) {
      TextSplits(b, p, d, k);
      var s, j := TextStands(b, p, d, k);
      BlanksAre(b, Dec(b, s, d, k).pos);
      assert Stands(b, p, d, s, j) && BlankUpTo(b, s + |Spell(j)|, |b|) && SenseOf(k, j) == Is(v);
    }
    if s: nat, j: Json :| Stands(b, p, d, s, j) && BlankUpTo(b, s + |Spell(j)|, |b|) && SenseOf(k, j) == Is(v) {
      EndIsFree(b, s + |Spell(j)|, k, j);
      TextAgrees(b, p, d, k, s, j, |b|);
    }
  }

  /** How a whole text is read: the value first, then what is left over. */
  lemma TextSplits(b: Bytes, p: nat, d: nat, k: Kind)
    requires p <= |b|
    ensures var r := Dec(b, Ws(b, p), d, k);
      R.Text(b, p, d, k) ==
      if r.Err? then Err(r.word, r.off)
      else if Ws(b, r.pos) < |b| then Err(TrailingBytes, Ws(b, r.pos))
      else Ok(r.value, |b|)
  {
    hide Dec, Ws;
  }

  /**
   * Something is left over at o exactly when a value of the kind stands after the first blanks and o
   * is the first byte after it that is not blank.
   */
  lemma TrailingIsFound(b: Bytes, p: nat, d: nat, k: Kind, o: nat)
    requires p <= |b| && GoodKind(k) && d <= K.DEPTH_LIMIT
    ensures R.Text(b, p, d, k) == Err(TrailingBytes, o) <==>
      o < |b| && exists s: nat, j: Json ::
        Stands(b, p, d, s, j) && Free(k, j, At(b, s + |Spell(j)|)) && BlankUpTo(b, s + |Spell(j)|, o) && SenseOf(k, j).Is?
  {
    hide StartsAt, AllSpace, Depth, BlankUpTo, Spell, Dec, SenseOf, GoodKind, WellFormed, AllPaired, Free, R.Text;
    if R.Text(b, p, d, k) == Err(TrailingBytes, o) {
      TextSplits(b, p, d, k);
      var s, j := TextStands(b, p, d, k);
      BlanksAre(b, Dec(b, s, d, k).pos);
      assert Stands(b, p, d, s, j) && BlankUpTo(b, s + |Spell(j)|, o) && SenseOf(k, j).Is?;
    }
    if o < |b| && exists s: nat, j: Json ::
        Stands(b, p, d, s, j) && Free(k, j, At(b, s + |Spell(j)|)) && BlankUpTo(b, s + |Spell(j)|, o) && SenseOf(k, j).Is? {
      var s: nat, j: Json :|
        Stands(b, p, d, s, j) && Free(k, j, At(b, s + |Spell(j)|)) && BlankUpTo(b, s + |Spell(j)|, o) && SenseOf(k, j).Is?;
      TextAgrees(b, p, d, k, s, j, o);
    }
  }
}
