/** The byte scanner that guards stored user records, against the grammar and against the codec. */
module UserScanner {
  import opened Bytes
  import opened Grammar
  import opened Strings
  import opened Texts
  import L = Lockstep
  import K = Skip
  import Schemas
  import T = Texts
  import Utf8

  /** Inside a literal: where its closing quote is, or the end of the data; none to refuse. */
  function ScanText(b: Bytes, p: nat): (r: Option<nat>)
    requires p <= |b|
    ensures r.Some? ==> p <= r.value <= |b| && (r.value < |b| ==> b[r.value] == QUOTE)
    decreases |b| - p
  {
    if p == |b| || b[p] == QUOTE then Some(p)
    else if b[p] != BACKSLASH then ScanText(b, p + 1)
    else if p + 1 >= |b| then None
    else if b[p + 1] != LOWER_U then ScanText(b, p + 2)
    else if !HexAt(b, p + 2) then None
    else if LowHalf(Hex4(b, p + 2)) then None
    else if !High(Hex4(b, p + 2)) then ScanText(b, p + 6)
    else if p + 12 > |b| || b[p + 6] != BACKSLASH || b[p + 7] != LOWER_U then None
    else if !HexAt(b, p + 8) || !LowHalf(Hex4(b, p + 8)) then None
    else ScanText(b, p + 12)
  }

  /** The whole scan from p, outside any literal. */
  function Scan(b: Bytes, p: nat): bool
    requires p <= |b|
    decreases |b| - p
  {
    if p == |b| then true
    else if b[p] != QUOTE then Scan(b, p + 1)
    else
      match ScanText(b, p + 1)
      case None => false
      case Some(q) => q == |b| || Scan(b, q + 1)
  }

  /** ParseUint of four characters in base sixteen. */
  method ParseHex(b: Bytes, p: nat) returns (r: Option<int>)
    requires p + 4 <= |b|
    ensures r == if HexAt(b, p) then Some(Hex4(b, p)) else None
  {
    var v0, v1, v2, v3 := HexValue(b[p]), HexValue(b[p + 1]), HexValue(b[p + 2]), HexValue(b[p + 3]);
    if v0 < 0 || v1 < 0 || v2 < 0 || v3 < 0 {
      return None;
    }
    return Some(((v0 * 16 + v1) * 16 + v2) * 16 + v3);
  }

  /** The escape at i: where the scan goes on, or a refusal. */
  method PassEscape(data: Bytes, at: nat) returns (next: Option<nat>)
    requires at < |data| && data[at] == BACKSLASH
    ensures next.None? ==> ScanText(data, at).None?
    ensures next.Some? ==> at < next.value <= |data| && ScanText(data, at) == ScanText(data, next.value)
  {
    hide HexAt, Hex4;
    var i := at + 1;
    if i >= |data| {
      return None;
    }
    if data[i] != LOWER_U {
      return Some(i + 1);
    }
    if i + 4 >= |data| {
      ShortHex(data, i + 1);
      return None;
    }
    var value := ParseHex(data, i + 1);
    if value.None? {
      return None;
    }
    i := i + 5;
    if LowHalf(value.value) {
      return None;
    }
    if High(value.value) {
      if i + 6 > |data| || data[i] != BACKSLASH || data[i + 1] != LOWER_U {
        return None;
      }
      var low := ParseHex(data, i + 2);
      if low.None? || !LowHalf(low.value) {
        return None;
      }
      i := i + 6;
    }
    return Some(i);
  }

  lemma ShortHex(b: Bytes, p: nat)
    requires p + 4 > |b|
    ensures !HexAt(b, p)
  {
  }

  /** The loop inside a literal. */
  method PassLiteral(data: Bytes, start: nat) returns (end: Option<nat>)
    requires start <= |data|
    ensures end == ScanText(data, start)
  {
    var i := start;
    while i < |data| && data[i] != QUOTE
      invariant start <= i <= |data| && ScanText(data, start) == ScanText(data, i)
      decreases |data| - i
    {
      if data[i] != BACKSLASH {
        i := i + 1;
      } else {
        var next := PassEscape(data, i);
        if next.None? {
          return None;
        }
        i := next.value;
      }
    }
    return Some(i);
  }

  /** The loop over the data. */
  method StrictScan(data: Bytes) returns (ok: bool)
    ensures ok <==> Utf8.Utf8Octets(data) && Scan(data, 0)
  {
    ok := Utf8.CheckUtf8(data);
    if !ok {
      return;
    }
    hide ScanText;
    var i := 0;
    while i < |data|
      invariant 0 <= i <= |data| + 1 && Scan(data, 0) == (i > |data| || Scan(data, i))
      decreases |data| - i
    {
      if data[i] == QUOTE {
        var end := PassLiteral(data, i + 1);
        if end.None? {
          return false;
        }
        i := end.value;
      }
      i := i + 1;
    }
    return true;
  }

  // --------------------------------------------------- against the grammar

  /** Bytes without a quote are passed over. */
  lemma {:induction false} ScanOver(b: Bytes, p: nat, s: Bytes)
    requires StartsAt(b, p, s) && forall i :: 0 <= i < |s| ==> s[i] != QUOTE
    ensures p + |s| <= |b| && Scan(b, p) == Scan(b, p + |s|)
    decreases |s|
  {
    if |s| > 0 {
      StartsHead(b, p, s);
      ScanOver(b, p + 1, s[1..]);
    }
  }

  /** Plain bytes inside a literal are passed over. */
  lemma {:induction false} TextOver(b: Bytes, p: nat, s: Bytes)
    requires StartsAt(b, p, s) && forall i :: 0 <= i < |s| ==> Plain(s[i])
    ensures p + |s| <= |b| && ScanText(b, p) == ScanText(b, p + |s|)
    decreases |s|
  {
    if |s| > 0 {
      StartsHead(b, p, s);
      TextOver(b, p + 1, s[1..]);
    }
  }

  lemma EndScan(b: Bytes, p: nat)
    requires p < |b| && b[p] == QUOTE
    ensures ScanText(b, p) == Some(p) && Paired(End)
  {
  }

  /** Only an escaped unit can be unpaired. */
  lemma PairedRest(t: Text)
    requires GoodText(t) && t.Char?
    ensures GoodElem(t.e) && GoodText(t.rest) && |SpellText(t)| == |SpellElem(t.e)| + |SpellText(t.rest)|
    ensures !t.e.Unit? ==> (Paired(t) <==> Paired(t.rest))
    ensures t.e.Slash? ==> Short(t.e.c).Some?
  {
  }

  lemma RawOver(b: Bytes, p: nat, cp: int)
    requires GoodElem(Raw(cp)) && StartsAt(b, p, Utf8.AppendRune(cp))
    ensures p + |Utf8.AppendRune(cp)| <= |b| && ScanText(b, p) == ScanText(b, p + |Utf8.AppendRune(cp)|)
  {
    hide ScanText, Utf8.AppendRune, StartsAt;
    T.RuneIsPlain(cp);
    TextOver(b, p, Utf8.AppendRune(cp));
  }

  lemma SlashOver(b: Bytes, p: nat, c: byte)
    requires Short(c).Some? && StartsAt(b, p, [BACKSLASH, c])
    ensures p + 2 <= |b| && ScanText(b, p) == ScanText(b, p + 2)
  {
    hide HexAt, Hex4, StartsAt;
    ReadSlash(b, p, c);
  }

  /** The scan of a literal keeps in step with its characters, and stops at the first unpaired surrogate. */
  lemma {:induction false} ScanTextIs(b: Bytes, p: nat, t: Text)
    requires GoodText(t) && StartsAt(b, p, SpellText(t) + [QUOTE])
    ensures p <= |b| && ScanText(b, p) == if Paired(t) then Some(p + |SpellText(t)|) else None
    decreases t, 2
  {
    hide StartsAt, Utf8.AppendRune, Utf8.Scalar, HexAt, Hex4, HexOf, Short, ScanText, Paired, GoodElem;
    if t.End? {
      assert SpellText(t) + [QUOTE] == [QUOTE];
      StartsOne(b, p, QUOTE);
      EndScan(b, p);
    } else {
      Behead(b, p, t);
      PairedRest(t);
      match t.e
      case Raw(cp) =>
        RawOver(b, p, cp);
        ScanTextIs(b, p + |SpellElem(t.e)|, t.rest);
      case Slash(c) =>
        SlashOver(b, p, c);
        ScanTextIs(b, p + 2, t.rest);
      case Unit(h) =>
        ScanUnit(b, p, t);
    }
  }

  /** What the scan does at an escaped unit, by the half of a pair that it is. */
  lemma UnitScan(b: Bytes, p: nat)
    requires p + 6 <= |b| && b[p] == BACKSLASH && b[p + 1] == LOWER_U && HexAt(b, p + 2)
    ensures LowHalf(Hex4(b, p + 2)) ==> ScanText(b, p) == None
    ensures !LowHalf(Hex4(b, p + 2)) && !High(Hex4(b, p + 2)) ==> ScanText(b, p) == ScanText(b, p + 6)
  {
    hide HexAt, Hex4;
  }

  lemma HighScan(b: Bytes, p: nat)
    requires p + 6 <= |b| && b[p] == BACKSLASH && b[p + 1] == LOWER_U && HexAt(b, p + 2) && High(Hex4(b, p + 2))
    ensures ScanText(b, p) ==
      if p + 12 <= |b| && b[p + 6] == BACKSLASH && b[p + 7] == LOWER_U && HexAt(b, p + 8) && LowHalf(Hex4(b, p + 8))
      then ScanText(b, p + 12) else None
  {
    hide HexAt, Hex4;
  }

  /** When a unit is paired. */
  lemma PairedUnit(t: Text)
    requires GoodText(t) && t.Char? && t.e.Unit?
    ensures LowUnit(t) ==> !Paired(t)
    ensures HighUnit(t) ==> (Paired(t) <==> GoodText(t.rest) && LowUnit(t.rest) && Paired(t.rest.rest))
    ensures !LowUnit(t) && !HighUnit(t) ==> (Paired(t) <==> Paired(t.rest))
    ensures LowUnit(t) <==> LowHalf(HexOf(t.e.h))
    ensures HighUnit(t) <==> High(HexOf(t.e.h))
  {
    hide HexOf;
  }

  lemma {:induction false} ScanUnit(b: Bytes, p: nat, t: Text)
    requires GoodText(t) && t.Char? && t.e.Unit? && StartsAt(b, p, SpellText(t) + [QUOTE])
    ensures p <= |b| && ScanText(b, p) == if Paired(t) then Some(p + |SpellText(t)|) else None
    decreases t, 1
  {
    hide StartsAt, Decoded, Hex4, HexAt, HexOf, ScanText, Paired, HighUnit, LowUnit;
    Behead(b, p, t);
    ReadUnit(b, p, t.e.h);
    PairedUnit(t);
    UnitScan(b, p);
    if HighUnit(t) {
      HighUnitScan(b, p, t);
    } else if !LowUnit(t) {
      ScanTextIs(b, p + 6, t.rest);
    }
  }

  lemma {:induction false} HighUnitScan(b: Bytes, p: nat, t: Text)
    requires GoodText(t) && t.Char? && t.e.Unit? && HighUnit(t) && StartsAt(b, p, SpellText(t) + [QUOTE])
    ensures p <= |b| && ScanText(b, p) == if Paired(t) then Some(p + |SpellText(t)|) else None
    decreases t, 0
  {
    hide StartsAt, Decoded, Hex4, HexAt, HexOf, ScanText, Paired, HighUnit;
    var rest := t.rest;
    Behead(b, p, t);
    ReadUnit(b, p, t.e.h);
    PairedUnit(t);
    HighScan(b, p);
    NextUnit(b, p + 6, rest);
    if LowUnit(rest) {
      Behead(b, p + 6, rest);
      ReadUnit(b, p + 6, rest.e.h);
      ScanTextIs(b, p + 12, rest.rest);
    }
  }

  lemma QuotedScan(b: Bytes, p: nat, t: Text)
    requires GoodText(t) && StartsAt(b, p, Quoted(t))
    ensures p + |Quoted(t)| <= |b| && Scan(b, p) == (Paired(t) && Scan(b, p + |Quoted(t)|))
  {
    hide StartsAt, ScanText, SpellText, Paired;
    var body := SpellText(t) + [QUOTE];
    assert Quoted(t) == [QUOTE] + body;
    StartsCat(b, p, [QUOTE], body);
    StartsOne(b, p, QUOTE);
    ScanTextIs(b, p + 1, t);
    K.StartsBound(b, p, Quoted(t));
  }

  lemma NumberHasNoQuote(n: Num)
    requires GoodNum(n)
    ensures forall i :: 0 <= i < |SpellNum(n)| ==> SpellNum(n)[i] != QUOTE
  {
    var f, e := SpellFrac(n.frac), SpellExp(n.exp);
    assert forall i :: 0 <= i < |f| ==> f[i] != QUOTE;
    assert forall i :: 0 <= i < |e| ==> e[i] != QUOTE;
  }

  lemma KeyScan(b: Bytes, p: nat, k: Key, isObj: bool)
    requires GoodKey(k, isObj) && StartsAt(b, p, SpellKey(k, isObj)) && p <= |b|
    ensures var q := p + |SpellKey(k, isObj)|; q <= |b| && Scan(b, p) == ((k.Key? ==> Paired(k.t)) && Scan(b, q))
  {
    hide StartsAt, Scan, Paired, SpellText;
    K.StartsBound(b, p, SpellKey(k, isObj));
    if k.Key? {
      K.KeyParts(b, p, k.t, k.mid, k.gap);
      var q := p + |Quoted(k.t)|;
      QuotedScan(b, p, k.t);
      ScanOver(b, q, k.mid);
      StartsOne(b, q + |k.mid|, NAME_SEPARATOR);
      ScanOver(b, q + |k.mid|, [NAME_SEPARATOR]);
      ScanOver(b, q + |k.mid| + 1, k.gap);
    }
  }

  lemma {:induction false} MemberScan(b: Bytes, p: nat, m: Member, isObj: bool)
    requires GoodMember(m, isObj) && StartsAt(b, p, SpellMember(m, isObj))
    ensures var q := p + |SpellMember(m, isObj)|; q <= |b| && Scan(b, p) == (PairedMember(m, isObj) && Scan(b, q))
    decreases m, 0
  {
    hide StartsAt, Scan, Paired, SpellKey, Spell, AllPaired, WellFormed, GoodKey, SpellMember;
    K.MemberSpelled(b, p, m, isObj);
    K.StartsBound(b, p, SpellMember(m, isObj));
    var k := p + |m.before|;
    var v := k + |SpellKey(m.key, isObj)|;
    ScanOver(b, p, m.before);
    KeyScan(b, k, m.key, isObj);
    ValueScan(b, v, m.v);
    ScanOver(b, v + |Spell(m.v)|, m.after);
  }

  lemma {:induction false} MembersScan(b: Bytes, p: nat, ms: Members, isObj: bool)
    requires GoodMembers(ms, isObj) && StartsAt(b, p, SpellMembers(ms, isObj))
    ensures var q := p + |SpellMembers(ms, isObj)|; q <= |b| && Scan(b, p) == (PairedMembers(ms, isObj) && Scan(b, q))
    decreases ms, 0
  {
    hide StartsAt, Scan, SpellMember, PairedMember, GoodMember, SpellMembers;
    K.MembersSpelled(b, p, ms, isObj);
    K.StartsBound(b, p, SpellMembers(ms, isObj));
    MemberScan(b, p, ms.m, isObj);
    if ms.More? {
      var q := p + |SpellMember(ms.m, isObj)|;
      StartsOne(b, q, VALUE_SEPARATOR);
      ScanOver(b, q, [VALUE_SEPARATOR]);
      MembersScan(b, q + 1, ms.rest, isObj);
    }
  }

  /** Over any value of the grammar the scan comes out at its end, unless a surrogate in it is unpaired. */
  lemma {:induction false} ValueScan(b: Bytes, p: nat, j: Json)
    requires WellFormed(j) && StartsAt(b, p, Spell(j))
    ensures p + |Spell(j)| <= |b| && Scan(b, p) == (AllPaired(j) && Scan(b, p + |Spell(j)|))
    decreases j, 1
  {
    hide StartsAt, Scan, Paired, SpellNum, SpellMembers, PairedMembers, GoodMembers, Quoted, GoodNum;
    K.StartsBound(b, p, Spell(j));
    match j
    case Literal(w) => ScanOver(b, p, w);
    case String(t) => QuotedScan(b, p, t);
    case Number(n) =>
      NumberHasNoQuote(n);
      ScanOver(b, p, SpellNum(n));
    case Empty(isObj, blank) => ScanOver(b, p, Spell(j));
    case Full(isObj, ms) =>
      K.BracketParts(b, p, isObj, SpellMembers(ms, isObj));
      StartsOne(b, p, BeginMark(isObj));
      ScanOver(b, p, [BeginMark(isObj)]);
      MembersScan(b, p + 1, ms, isObj);
      StartsOne(b, p + 1 + |SpellMembers(ms, isObj)|, EndMark(isObj));
      ScanOver(b, p + 1 + |SpellMembers(ms, isObj)|, [EndMark(isObj)]);
  }

  /** On a JSON text the scan rejects exactly the unpaired surrogate escapes. */
  lemma ScanIsPaired(before: Bytes, j: Json, after: Bytes)
    requires WellFormed(j) && AllSpace(before) && AllSpace(after)
    ensures Scan(before + (Spell(j) + after), 0) <==> AllPaired(j)
  {
    hide Scan, Spell, AllPaired, WellFormed;
    var b := before + (Spell(j) + after);
    L.StartsItself(b);
    K.StartsCat3(b, 0, before, Spell(j), after);
    ScanOver(b, 0, before);
    ValueScan(b, |before|, j);
    ScanOver(b, |before| + |Spell(j)|, after);
    ScanEnd(b);
  }

  lemma ScanEnd(b: Bytes)
    ensures Scan(b, |b|)
  {
  }

  // ------------------------------------------------------ spelled in UTF-8

  lemma Both(a: Bytes, b: Bytes)
    requires Utf8.ValidUtf8(a) && Utf8.ValidUtf8(b)
    ensures Utf8.ValidUtf8(a + b)
  {
    Utf8.ValidCat(a, b);
  }

  lemma ElemIsUtf8(e: Elem)
    requires GoodElem(e)
    ensures Utf8.ValidUtf8(SpellElem(e))
  {
    match e
    case Raw(cp) => T.RuneIsValid(cp);
    case Slash(c) => Schemas.AsciiIsUtf8(SpellElem(e));
    case Unit(h) => UnitIsUtf8(h);
  }

  lemma UnitIsUtf8(h: Bytes)
    requires FourHex(h)
    ensures Utf8.ValidUtf8([BACKSLASH, LOWER_U] + h)
  {
    hide Utf8.ValidUtf8;
    var u := [BACKSLASH, LOWER_U] + h;
    assert forall i :: 2 <= i < 6 ==> u[i] == h[i - 2] && Nibble(h[i - 2]).Some?;
    Schemas.AsciiIsUtf8(u);
  }

  lemma {:induction false} TextIsUtf8(t: Text)
    requires GoodText(t)
    ensures Utf8.ValidUtf8(SpellText(t))
  {
    hide SpellElem;
    if t.End? {
      Schemas.AsciiIsUtf8([]);
    } else {
      ElemIsUtf8(t.e);
      TextIsUtf8(t.rest);
      Both(SpellElem(t.e), SpellText(t.rest));
    }
  }

  lemma QuotedIsUtf8(t: Text)
    requires GoodText(t)
    ensures Utf8.ValidUtf8(Quoted(t))
  {
    hide Utf8.ValidUtf8, SpellText;
    Schemas.AsciiIsUtf8([QUOTE]);
    TextIsUtf8(t);
    Both([QUOTE], SpellText(t));
    Both([QUOTE] + SpellText(t), [QUOTE]);
  }

  lemma BlankIsUtf8(w: Bytes)
    requires AllSpace(w)
    ensures Utf8.ValidUtf8(w)
  {
    hide Utf8.ValidUtf8;
    Schemas.AsciiIsUtf8(w);
  }

  lemma NumIsAscii(n: Num)
    requires GoodNum(n)
    ensures forall i :: 0 <= i < |SpellNum(n)| ==> SpellNum(n)[i] < 0x80
  {
    var f, e := SpellFrac(n.frac), SpellExp(n.exp);
    assert forall i :: 0 <= i < |f| ==> f[i] < 0x80;
    assert forall i :: 0 <= i < |e| ==> e[i] < 0x80;
  }

  lemma KeyIsUtf8(k: Key, isObj: bool)
    requires GoodKey(k, isObj)
    ensures Utf8.ValidUtf8(SpellKey(k, isObj))
  {
    hide Utf8.ValidUtf8, Quoted;
    if k.NoKey? {
      Schemas.AsciiIsUtf8([]);
    } else {
      QuotedIsUtf8(k.t);
      BlankIsUtf8(k.mid);
      BlankIsUtf8(k.gap);
      Schemas.AsciiIsUtf8([NAME_SEPARATOR]);
      Both([NAME_SEPARATOR], k.gap);
      Both(k.mid, [NAME_SEPARATOR] + k.gap);
      Both(Quoted(k.t), k.mid + ([NAME_SEPARATOR] + k.gap));
    }
  }

  lemma {:induction false} MemberIsUtf8(m: Member, isObj: bool)
    requires GoodMember(m, isObj)
    ensures Utf8.ValidUtf8(SpellMember(m, isObj))
    decreases m, 0
  {
    hide Utf8.ValidUtf8, SpellKey, Spell, GoodKey, WellFormed;
    BlankIsUtf8(m.before);
    KeyIsUtf8(m.key, isObj);
    SpellIsUtf8(m.v);
    BlankIsUtf8(m.after);
    Both(Spell(m.v), m.after);
    Both(SpellKey(m.key, isObj), Spell(m.v) + m.after);
    Both(m.before, SpellKey(m.key, isObj) + (Spell(m.v) + m.after));
  }

  lemma {:induction false} MembersAreUtf8(ms: Members, isObj: bool)
    requires GoodMembers(ms, isObj)
    ensures Utf8.ValidUtf8(SpellMembers(ms, isObj))
    decreases ms, 0
  {
    hide Utf8.ValidUtf8, SpellMember, GoodMember;
    MemberIsUtf8(ms.m, isObj);
    if ms.More? {
      MembersAreUtf8(ms.rest, isObj);
      Schemas.AsciiIsUtf8([VALUE_SEPARATOR]);
      Both([VALUE_SEPARATOR], SpellMembers(ms.rest, isObj));
      Both(SpellMember(ms.m, isObj), [VALUE_SEPARATOR] + SpellMembers(ms.rest, isObj));
    }
  }

  /** Whatever the grammar spells is valid UTF-8. */
  lemma {:induction false} SpellIsUtf8(j: Json)
    requires WellFormed(j)
    ensures Utf8.ValidUtf8(Spell(j))
    decreases j, 1
  {
    hide Utf8.ValidUtf8, Quoted, SpellNum, SpellMembers, GoodMembers, GoodNum;
    match j
    case Literal(w) => Schemas.AsciiIsUtf8(w);
    case String(t) => QuotedIsUtf8(t);
    case Number(n) =>
      NumIsAscii(n);
      Schemas.AsciiIsUtf8(SpellNum(n));
    case Empty(isObj, blank) => BracketsAreUtf8(isObj, blank);
    case Full(isObj, ms) =>
      MembersAreUtf8(ms, isObj);
      Brackets(isObj, SpellMembers(ms, isObj));
  }

  lemma BracketsAreUtf8(isObj: bool, blank: Bytes)
    requires AllSpace(blank)
    ensures Utf8.ValidUtf8([BeginMark(isObj)] + (blank + [EndMark(isObj)]))
  {
    BlankIsUtf8(blank);
    Brackets(isObj, blank);
  }

  lemma Brackets(isObj: bool, s: Bytes)
    requires Utf8.ValidUtf8(s)
    ensures Utf8.ValidUtf8([BeginMark(isObj)] + (s + [EndMark(isObj)]))
  {
    hide Utf8.ValidUtf8;
    Schemas.AsciiIsUtf8([BeginMark(isObj)]);
    Schemas.AsciiIsUtf8([EndMark(isObj)]);
    Both(s, [EndMark(isObj)]);
    Both([BeginMark(isObj)], s + [EndMark(isObj)]);
  }

  /** What StrictScan answers on a JSON text: whether its surrogate escapes are paired. */
  lemma StrictIsPaired(before: Bytes, j: Json, after: Bytes)
    requires WellFormed(j) && AllSpace(before) && AllSpace(after)
    ensures var data := before + (Spell(j) + after);
      Utf8.Utf8Octets(data) && (Utf8.Utf8Octets(data) && Scan(data, 0) <==> AllPaired(j))
  {
    hide Scan, Spell, AllPaired, WellFormed, Utf8.ValidUtf8, Utf8.Utf8Octets;
    var data := before + (Spell(j) + after);
    BlankIsUtf8(before);
    BlankIsUtf8(after);
    SpellIsUtf8(j);
    Both(Spell(j), after);
    Both(before, Spell(j) + after);
    Utf8.ValidIsOctets(data);
    ScanIsPaired(before, j, after);
  }

  // ------------------------------------------------- the codec's verdict

  lemma {:induction false} MembersRefused(b: Bytes, p: nat, d: nat, ms: Members, isObj: bool)
    requires K.MembersAt(b, p, ms, isObj) && p <= |b| && d <= K.DEPTH_LIMIT
    requires !PairedMembers(ms, isObj) || d + DepthOfMembers(ms) > K.DEPTH_LIMIT
    ensures K.SkipMembers(b, p, d, isObj).Err?
    ensures d + DepthOfMembers(ms) <= K.DEPTH_LIMIT ==> K.SkipMembers(b, p, d, isObj).word == BadString
    decreases ms, 0
  {
    hide StartsAt, K.SkipMembers, K.SkipValue, K.SkipKey, SpellMember, SpellKey, Spell, AllPaired, Paired, WellFormed, GoodKey, Depth, Ws, Stops;
    K.MembersHead(b, p, ms, isObj);
    K.MemberParts(b, p, ms.m, isObj);
    L.MembersStep(b, p, d, isObj);
    MemberVerdict(b, p, d, ms, isObj);
    if PairedMember(ms.m, isObj) && d + Depth(ms.m.v) <= K.DEPTH_LIMIT {
      var q := p + |SpellMember(ms.m, isObj)|;
      L.CommaInside(b, q);
      MembersRefused(b, q + 1, d, ms.rest, isObj);
    }
  }

  /** One member: skipped to its end if it is paired and shallow enough, refused if it is not. */
  lemma {:induction false} MemberVerdict(b: Bytes, p: nat, d: nat, ms: Members, isObj: bool)
    requires K.MembersAt(b, p, ms, isObj) && p <= |b| && d <= K.DEPTH_LIMIT
    ensures GoodMember(ms.m, isObj)
    ensures var m := ms.m; var k := K.SkipKey(b, Ws(b, p), isObj);
      if m.key.Key? && !Paired(m.key.t) then k.Err? && k.word == BadString
      else
        && k.Ok?
        && (AllPaired(m.v) && d + Depth(m.v) <= K.DEPTH_LIMIT ==>
              K.SkipValue(b, k.pos, d) == K.Step(p + |m.before| + |SpellKey(m.key, isObj)| + |Spell(m.v)|))
        && (!AllPaired(m.v) || d + Depth(m.v) > K.DEPTH_LIMIT ==> K.SkipValue(b, k.pos, d).Err?)
        && (!AllPaired(m.v) && d + Depth(m.v) <= K.DEPTH_LIMIT ==> K.SkipValue(b, k.pos, d).word == BadString)
    decreases ms.m, 1
  {
    hide StartsAt, K.SkipMembers, K.SkipValue, K.SkipKey, SpellMember, SpellKey, Spell, AllPaired, Paired, WellFormed, Depth, Ws, Stops;
    K.MembersHead(b, p, ms, isObj);
    K.MemberParts(b, p, ms.m, isObj);
    var m := ms.m;
    var k := p + |m.before|;
    var v := k + |SpellKey(m.key, isObj)|;
    if m.key.Key? && !Paired(m.key.t) {
      K.KeyParts(b, k, m.key.t, m.key.mid, m.key.gap);
      StrOfText(b, k, m.key.t);
      BadName(b, k);
    } else {
      K.KeyRead(b, k, m.key, isObj);
      if AllPaired(m.v) && d + Depth(m.v) <= K.DEPTH_LIMIT {
        K.SkipComplete(b, v, d, m.v);
      } else {
        SkipRefused(b, v, d, m.v);
      }
    }
  }

  lemma BadName(b: Bytes, p: nat)
    requires p < |b| && b[p] == QUOTE && Str(b, p).Err?
    ensures K.SkipKey(b, p, true) == Err(Str(b, p).word, Str(b, p).off)
  {
  }

  /**
   * A value of the grammar that has an unpaired surrogate in it or goes too deep is refused by the
   * codec; as a bad string, if it does not go too deep.
   */
  lemma {:induction false} SkipRefused(b: Bytes, p: nat, d: nat, j: Json)
    requires WellFormed(j) && StartsAt(b, p, Spell(j)) && p <= |b| && d <= K.DEPTH_LIMIT
    requires !AllPaired(j) || d + Depth(j) > K.DEPTH_LIMIT
    ensures K.SkipValue(b, p, d).Err?
    ensures d + Depth(j) <= K.DEPTH_LIMIT ==> K.SkipValue(b, p, d).word == BadString
    decreases j, 1
  {
    hide StartsAt, K.SkipMembers, SpellText, SpellMembers, GoodMembers, PairedMembers, DepthOfMembers, Paired, Decoded, Str, Ws, K.SkipNumber;
    if j.String? {
      StrOfText(b, p, j.t);
    } else if j.Empty? {
      K.SpellStart(b, p, j);
    } else if j.Full? {
      K.BracketParts(b, p, j.isObj, SpellMembers(j.ms, j.isObj));
      if d + 1 <= K.DEPTH_LIMIT {
        MembersRefused(b, p + 1, d + 1, j.ms, j.isObj);
        K.SkipFromWs(b, p + 1, d + 1, j.isObj);
        K.FirstIsNotShut(b, p + 1, j.ms, j.isObj);
      }
    }
  }

  /** The codec takes a JSON value exactly when the scanner does and it goes no deeper than the codec's limit. */
  lemma SameVerdict(j: Json)
    requires WellFormed(j)
    ensures K.SkipValue(Spell(j), 0, 0).Ok? <==> Utf8.Utf8Octets(Spell(j)) && Scan(Spell(j), 0) && Depth(j) <= K.DEPTH_LIMIT
    ensures !Scan(Spell(j), 0) && Depth(j) <= K.DEPTH_LIMIT ==> K.SkipValue(Spell(j), 0, 0).word == BadString
  {
    hide Scan, Spell, AllPaired, WellFormed, Depth, K.SkipValue, Stops, Utf8.Utf8Octets;
    var b := Spell(j);
    StrictIsPaired([], j, []);
    assert [] + (b + []) == b;
    L.StartsItself(b);
    if AllPaired(j) && Depth(j) <= K.DEPTH_LIMIT {
      L.StopsAtAny(j, At(b, |b|));
      K.SkipComplete(b, 0, 0, j);
    } else {
      SkipRefused(b, 0, 0, j);
    }
  }
}
