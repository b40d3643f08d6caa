/**
 * What the encoders print, told as JSON: every value has one layout, which is a property of the tree
 * that its encoding spells.
 */
module Layout {
  import opened Bytes
  import opened Grammar
  import opened Records
  import opened Strings
  import opened Texts
  import opened Utf8
  import G = Lockstep
  import I = Integers
  import K = Skip
  import Keys
  import M = Meaning
  import T = RoundTrip
  import U = UserScanner

  /** A line break and two spaces for each level. */
  predicate Break(s: Bytes, level: nat) {
    |s| == 1 + 2 * level && s[0] == 0x0A && forall i :: 1 <= i < |s| ==> s[i] == 0x20
  }

  /** One member to a line, one space after its colon, and the closing brace on a line of its own. */
  predicate Lines(ms: Members, level: nat) {
    && Break(ms.m.before, level + 1) && ms.m.key.Key? && ms.m.key.mid == [] && ms.m.key.gap == [0x20]
    && (if ms.More? then ms.m.after == [] && Lines(ms.rest, level) else Break(ms.m.after, level))
  }

  /** Escaped only where it has to be: in two bytes if there are two for it, else in lower-case digits; the slash is not. */
  predicate PlainElem(e: Elem) {
    match e
    case Raw(_) => true
    case Slash(c) => c != 0x2F
    case Unit(h) =>
      && HexOf(h) < 0x20 && (forall c: byte :: TwoByte(c).Some? ==> TwoByte(c).value != HexOf(h))
      && forall i :: 0 <= i < |h| ==> h[i] <= 0x39 || 0x61 <= h[i]
  }

  predicate Plainest(t: Text) {
    t.Char? ==> PlainElem(t.e) && Plainest(t.rest)
  }

  /** Strings named by strings, the names ascending. */
  ghost predicate Entries(ms: Members)
    requires GoodMembers(ms, true) && PairedMembers(ms, true)
  {
    M.Opened(ms);
    && Plainest(ms.m.key.t) && ms.m.v.String? && Plainest(ms.m.v.t)
    && (ms.More? ==>
          (M.Opened(ms.rest);
           Keys.Precedes(Decoded(ms.m.key.t), Decoded(ms.rest.m.key.t)) && Entries(ms.rest)))
  }

  /** The members are fields, in the order of the field list from the i-th on. */
  ghost predicate InOrder(fields: seq<Field>, ms: Members, i: nat, level: nat)
    requires GoodMembers(ms, true) && PairedMembers(ms, true)
    decreases ms, 0
  {
    M.Opened(ms);
    Plainest(ms.m.key.t) &&
    exists l :: i <= l < |fields| && fields[l].key == Decoded(ms.m.key.t) && Printed(fields[l].kind, ms.m.v, level + 1)
                && (ms.More? ==> InOrder(fields, ms.rest, l + 1, level))
  }

  /** The layout of a value of this kind, at this level of indentation; an opaque value keeps its own. */
  ghost predicate Printed(k: Kind, j: Json, level: nat)
    requires WellFormed(j) && AllPaired(j)
    decreases j, 0
  {
    match k
    case KStr => j.String? && Plainest(j.t)
    case KEnum(_) => j.String? && Plainest(j.t)
    case KInt(_, _) => j.Number?
    case KBool => j.Literal?
    case KRaw => true
    case KMap => j == Empty(true, []) || (j.Full? && j.isObj && Lines(j.ms, level) && Entries(j.ms))
    case KRec(fields) =>
      if |fields| == 0 then j == Empty(true, []) else j.Full? && j.isObj && Lines(j.ms, level) && InOrder(fields, j.ms, 0, level)
  }

  // ---------------------------------------------------------------- strings

  /** What one character of a valid string is written as. */
  lemma ElemOf(s: Bytes) returns (e: Elem)
    requires Utf8Char(s)
    ensures GoodElem(e) && PlainElem(e) && SpellElem(e) == EscBody(s)
    ensures match e case Raw(cp) => AppendRune(cp) == s case Slash(c) => s == [TwoByte(c).value] case Unit(h) => s == [HexOf(h)]
  {
    if |s| == 1 {
      e := ElemOfAscii(s[0]);
      OneEscaped(s);
    } else {
      hide Nibble, TwoByte, HexOf;
      CharIsRune(s);
      MultiIsHigh(s);
      PlainBody(s);
      e := Raw(Point(s, |s|));
      RawIsGood(Point(s, |s|), s[0]);
    }
  }

  lemma MultiIsHigh(s: Bytes)
    requires Utf8Char(s) && |s| > 1
    ensures forall i :: 0 <= i < |s| ==> s[i] >= 0x80
  {
  }

  lemma OneEscaped(s: Bytes)
    requires |s| == 1
    ensures EscBody(s) == EscByte(s[0]) && s == [s[0]]
  {
    assert s[1..] == [];
  }

  lemma ElemOfAscii(c: byte) returns (e: Elem)
    requires c < 0x80
    ensures GoodElem(e) && PlainElem(e) && SpellElem(e) == EscByte(c)
    ensures match e case Raw(cp) => AppendRune(cp) == [c] case Slash(x) => TwoByte(x) == Some(c) case Unit(h) => HexOf(h) == c
  {
    if |EscByte(c)| == 1 {
      e := Raw(c);
    } else if |EscByte(c)| == 2 {
      e := Slash(EscByte(c)[1]);
    } else {
      e := ElemOfControl(c);
    }
  }

  lemma LowerDigits(n: int)
    requires 0 <= n < 16
    ensures Nibble(HexDigit(n)) == Some(n) && (HexDigit(n) <= 0x39 || 0x61 <= HexDigit(n))
  {
  }

  lemma ElemOfControl(c: byte) returns (e: Elem)
    requires c < 0x20 && |EscByte(c)| == 6
    ensures e.Unit? && GoodElem(e) && PlainElem(e) && SpellElem(e) == EscByte(c) && HexOf(e.h) == c
  {
    hide Nibble;
    LowerDigits(0);
    LowerDigits(c / 16);
    LowerDigits(c % 16);
    var h := [HexDigit(0), HexDigit(0), HexDigit(c / 16), HexDigit(c % 16)];
    e := Unit(h);
  }

  lemma {:induction false} TextOfValid(s: Bytes) returns (t: Text)
    requires ValidUtf8(s)
    ensures GoodText(t) && Paired(t) && Plainest(t) && Decoded(t) == s && SpellText(t) == EscBody(s)
    decreases |s|
  {
    hide ValidUtf8, CharLen, Utf8Char, IsChar, AppendRune, EscByte, GoodElem, PlainElem, SpellElem, HexOf, Nibble, TwoByte;
    if |s| == 0 {
      t := End;
    } else {
      var n := SplitFirst(s);
      var rest := TextOfValid(s[n..]);
      var e := ElemOf(s[..n]);
      t := Char(e, rest);
      assert s == s[..n] + s[n..];
      EscBodyCat(s[..n], s[n..]);
      PushPlain(e, rest, s[..n]);
    }
  }

  lemma PushPlain(e: Elem, rest: Text, c: Bytes)
    requires GoodElem(e) && PlainElem(e) && GoodText(rest) && Paired(rest) && Plainest(rest)
    requires match e case Raw(cp) => AppendRune(cp) == c case Slash(x) => c == [TwoByte(x).value] case Unit(h) => c == [HexOf(h)]
    ensures var t := Char(e, rest); GoodText(t) && Paired(t) && Plainest(t) && Decoded(t) == c + Decoded(rest)
  {
    hide Nibble, TwoByte;
  }

  lemma Quotes(s: Bytes) returns (t: Text)
    requires ValidUtf8(s)
    ensures GoodText(t) && Paired(t) && Plainest(t) && Decoded(t) == s && Quoted(t) == Esc(s)
  {
    t := TextOfValid(s);
  }

  // ---------------------------------------------------------------- members

  lemma BreakIs(level: nat)
    ensures Break([NEWLINE] + Pad(level), level) && AllSpace([NEWLINE] + Pad(level)) && AllSpace([]) && AllSpace([SPACE])
  {
  }

  /** A label, a value and what stands after it, as a member. */
  lemma MemberOf(t: Text, x: Json, level: nat, after: Bytes) returns (m: Member)
    requires GoodText(t) && Paired(t) && WellFormed(x) && AllPaired(x) && AllSpace(after)
    ensures m == Member([NEWLINE] + Pad(level + 1), Key(t, [], [SPACE]), x, after)
    ensures GoodMember(m, true) && PairedMember(m, true) && Break(m.before, level + 1)
    ensures SpellMember(m, true) == [NEWLINE] + Pad(level + 1) + Quoted(t) + [K.COLON, SPACE] + (Spell(x) + after)
  {
    hide Pad, WellFormed, AllPaired, Spell, Quoted, GoodText, Paired, Break, AllSpace;
    BreakIs(level + 1);
    m := Member([NEWLINE] + Pad(level + 1), Key(t, [], [SPACE]), x, after);
    var a, q, y := [NEWLINE] + Pad(level + 1), Quoted(t), Spell(x) + after;
    assert SpellKey(m.key, true) == q + ([] + ([K.COLON] + [SPACE])) == q + [K.COLON, SPACE];
    assert a + ((q + [K.COLON, SPACE]) + y) == a + q + [K.COLON, SPACE] + y;
  }

  /** The member written last, its brace after it. */
  lemma LastOf(key: Bytes, t: Text, x: Json, level: nat) returns (ms: Members)
    requires GoodText(t) && Paired(t) && WellFormed(x) && AllPaired(x) && Quoted(t) == Esc(key)
    ensures GoodMembers(ms, true) && PairedMembers(ms, true) && Lines(ms, level) && ms.Last? && ms.m.key.Key? && ms.m.key.t == t && ms.m.v == x
    ensures SpellMembers(ms, true) + [RBRACE] == Label(key, level) + (Spell(x) + Close(level))
  {
    hide Pad, WellFormed, AllPaired, Spell, Quoted, GoodText, Paired, Break, AllSpace, SpellMember, GoodMember, PairedMember;
    BreakIs(level);
    var after := [NEWLINE] + Pad(level);
    var m := MemberOf(t, x, level, after);
    ms := Last(m);
    assert Spell(x) + after + [RBRACE] == Spell(x) + Close(level);
    var head := Label(key, level);
    assert SpellMember(m, true) == head + (Spell(x) + after);
    assert head + (Spell(x) + after) + [RBRACE] == head + (Spell(x) + after + [RBRACE]);
  }

  /** A member with others after it. */
  lemma MoreOf(key: Bytes, t: Text, x: Json, level: nat, rest: Members) returns (ms: Members)
    requires GoodText(t) && Paired(t) && WellFormed(x) && AllPaired(x) && Quoted(t) == Esc(key)
    requires GoodMembers(rest, true) && PairedMembers(rest, true) && Lines(rest, level)
    ensures GoodMembers(ms, true) && PairedMembers(ms, true) && Lines(ms, level) && ms.m.key.Key? && ms.m.key.t == t && ms.m.v == x
    ensures ms.More? && ms.rest == rest
    ensures SpellMembers(ms, true) + [RBRACE] == Label(key, level) + (Spell(x) + ([K.COMMA] + (SpellMembers(rest, true) + [RBRACE])))
  {
    hide Pad, WellFormed, AllPaired, Spell, Quoted, GoodText, Paired, Break, SpellMember, GoodMember, PairedMember, GoodMembers, PairedMembers;
    var m := MemberOf(t, x, level, []);
    ms := More(m, rest);
    MoreIs(m, rest);
    var head, v, r := Label(key, level), Spell(x), SpellMembers(rest, true);
    assert v + [] == v;
    assert SpellMember(m, true) == head + v;
    assert head + v + ([K.COMMA] + r) + [RBRACE] == head + (v + ([K.COMMA] + (r + [RBRACE])));
  }

  lemma MoreIs(m: Member, rest: Members)
    requires GoodMember(m, true) && PairedMember(m, true) && GoodMembers(rest, true) && PairedMembers(rest, true)
    ensures GoodMembers(More(m, rest), true) && PairedMembers(More(m, rest), true)
    ensures SpellMembers(More(m, rest), true) == SpellMember(m, true) + ([K.COMMA] + SpellMembers(rest, true))
  {
  }

  // ------------------------------------------------------------------- maps

  lemma {:induction false} TreeOfMap(ks: seq<Bytes>, m: map<Bytes, Bytes>, i: nat, level: nat) returns (ms: Members)
    requires i < |ks| && (forall x :: x in ks ==> x in m && ValidUtf8(x) && ValidUtf8(m[x]))
    requires forall a, b :: 0 <= a < b < |ks| ==> Keys.Precedes(ks[a], ks[b])
    ensures GoodMembers(ms, true) && PairedMembers(ms, true) && Lines(ms, level) && Entries(ms)
    ensures ms.m.key.Key? && GoodText(ms.m.key.t) && Paired(ms.m.key.t) && Decoded(ms.m.key.t) == ks[i]
    ensures MapRest(ks, m, i, level) == (if i == 0 then [] else [K.COMMA]) + (SpellMembers(ms, true) + [RBRACE])
    decreases |ks| - i
  {
    hide ValidUtf8, Label, Esc, Quoted, Plainest, Decoded, Paired, GoodText, Keys.Precedes, Lines, GoodMembers, PairedMembers, SpellMembers, Close;
    var t := Quotes(ks[i]);
    var u := Quotes(m[ks[i]]);
    if i + 1 == |ks| {
      ms := LastOf(ks[i], t, String(u), level);
    } else {
      var rest := TreeOfMap(ks, m, i + 1, level);
      ms := MoreOf(ks[i], t, String(u), level, rest);
    }
  }

  // ---------------------------------------------------------------- records

  lemma {:induction false} TreeOfFields(fields: seq<Field>, vals: seq<Option<Value>>, i: nat, level: nat, d: nat) returns (ms: Option<Members>)
    requires T.Sendable(KRec(fields), VRec(vals), d) && Valid(KRec(fields), VRec(vals), d) && i <= |fields|
    ensures ms.None? ==> EncRest(fields, vals, i, level) == Close(level)
    ensures ms.None? ==> forall l :: i <= l < |fields| ==> vals[l].None?
    ensures ms.Some? ==> GoodMembers(ms.value, true) && PairedMembers(ms.value, true) && Lines(ms.value, level)
    ensures ms.Some? ==> InOrder(fields, ms.value, i, level)
    ensures ms.Some? && (i > 0 || vals[0].Some?) ==>
      EncRest(fields, vals, i, level) == (if i == 0 then [] else [K.COMMA]) + (SpellMembers(ms.value, true) + [RBRACE])
    decreases fields, |fields| - i
  {
    hide ValidUtf8, Label, Esc, Quoted, Plainest, Decoded, Paired, GoodText, Lines, GoodMembers, PairedMembers, SpellMembers, Close,
      Enc, Spell, WellFormed, AllPaired, GoodKind, Fits, Opaque, Valid, Printed, InOrder;
    ms := None;
    if i < |fields| {
      var rest := TreeOfFields(fields, vals, i + 1, level, d);
      if vals[i].None? {
        ms := rest;
        if rest.Some? {
          OrderedLater(fields, rest.value, i, level);
        }
      } else {
        var t, x := TreeOfField(fields, vals, i, level, d);
        var all: Members;
        if rest.None? {
          all := LastOf(fields[i].key, t, x, level);
        } else {
          all := MoreOf(fields[i].key, t, x, level, rest.value);
        }
        OrderedHere(fields, all, i, level);
        ms := Some(all);
      }
    }
  }

  lemma OrderedLater(fields: seq<Field>, ms: Members, i: nat, level: nat)
    requires GoodMembers(ms, true) && PairedMembers(ms, true) && InOrder(fields, ms, i + 1, level)
    ensures InOrder(fields, ms, i, level)
  {
    hide Printed, Plainest;
  }

  lemma OrderedHere(fields: seq<Field>, ms: Members, i: nat, level: nat)
    requires GoodMembers(ms, true) && PairedMembers(ms, true) && i < |fields|
    requires (M.Opened(ms); fields[i].key == Decoded(ms.m.key.t) && Plainest(ms.m.key.t) && Printed(fields[i].kind, ms.m.v, level + 1))
    requires ms.More? ==> (M.Opened(ms); InOrder(fields, ms.rest, i + 1, level))
    ensures InOrder(fields, ms, i, level)
  {
    hide Printed, Plainest, GoodMembers, PairedMembers;
  }

  lemma {:induction false} TreeOfField(fields: seq<Field>, vals: seq<Option<Value>>, i: nat, level: nat, d: nat) returns (t: Text, x: Json)
    requires T.Sendable(KRec(fields), VRec(vals), d) && Valid(KRec(fields), VRec(vals), d) && i < |fields| && vals[i].Some?
    ensures GoodText(t) && Paired(t) && Plainest(t) && Decoded(t) == fields[i].key && Quoted(t) == Esc(fields[i].key)
    ensures WellFormed(x) && AllPaired(x) && Printed(fields[i].kind, x, level + 1)
    ensures Typed(fields[i].kind, vals[i].value) && Known(fields[i].kind, vals[i].value)
    ensures Spell(x) == Enc(fields[i].kind, vals[i].value, level + 1)
    decreases fields, 0
  {
    hide ValidUtf8, Enc, Spell, Printed, Plainest, Quoted, Esc;
    T.FieldSendable(fields, vals, i, d);
    T.FitsRec(fields, d);
    t := Quotes(fields[i].key);
    x := TreeOfEnc(fields[i].kind, vals[i].value, level + 1, d + 1);
  }

  lemma TreeOfRaw(text: Bytes, d: nat) returns (j: Json)
    requires Whole(text, d) && d <= K.DEPTH_LIMIT
    ensures WellFormed(j) && AllPaired(j) && Spell(j) == text
  {
    hide K.SkipValue, WellFormed, AllPaired, Spell, Depth, Stops;
    G.StartsItself(text);
    assert K.SkipValue(text, 0, d) == K.Step(0 + |text|);
    j := K.ValueOf(text, 0, d);
  }

  lemma TreeOfEntries(m: map<Bytes, Bytes>, level: nat) returns (j: Json)
    requires forall x :: x in m ==> ValidUtf8(x) && ValidUtf8(m[x])
    ensures WellFormed(j) && AllPaired(j) && Spell(j) == EncMap(m, level) && Printed(KMap, j, level)
  {
    hide ValidUtf8, Lines, GoodMembers, PairedMembers, SpellMembers, Entries, MapRest, Keys.Precedes;
    var ks := Keys.Sorted(m.Keys);
    Keys.Ordered(ks, m.Keys);
    if |ks| == 0 {
      j := Empty(true, []);
    } else {
      var ms := TreeOfMap(ks, m, 0, level);
      j := Full(true, ms);
    }
  }

  /** The encoding of a valid value spells a JSON value in that layout, and its sense is the value. */
  lemma {:induction false} TreeOfEnc(k: Kind, v: Value, level: nat, d: nat) returns (j: Json)
    requires T.Sendable(k, v, d) && Valid(k, v, d) && d <= K.DEPTH_LIMIT
    ensures WellFormed(j) && AllPaired(j) && Spell(j) == Enc(k, v, level) && Printed(k, j, level)
    decreases k, 0
  {
    hide ValidUtf8, Lines, GoodMembers, PairedMembers, SpellMembers, Entries, MapRest, EncRest, InOrder, EncMap, Esc, Quoted, Plainest, Whole;
    match k
    case KStr =>
      var t := Quotes(v.s);
      j := String(t);
    case KEnum(words) =>
      var t := Quotes(words[v.tag - 1]);
      j := String(t);
    case KInt(_, _) =>
      G.TreeSpells(v.n);
      j := Number(G.Tree(v.n));
    case KBool =>
      j := Literal(if v.t then LITERAL_TRUE else LITERAL_FALSE);
    case KRaw =>
      j := TreeOfRaw(v.text, d);
    case KMap =>
      j := TreeOfEntries(v.m, level);
    case KRec(fields) =>
      if |fields| == 0 {
        j := Empty(true, []);
      } else {
        var ms := TreeOfFields(fields, v.vals, 0, level, d);
        j := Full(true, ms.value);
      }
  }

  /**
   * The encoding of a value whose strings are valid is the spelling of a JSON value: in this layout,
   * with its names in order, and of which the value is the sense.
   */
  lemma EncIsPrinted(k: Kind, v: Value, level: nat, d: nat) returns (j: Json)
    requires T.Sendable(k, v, d) && Valid(k, v, d) && d <= K.DEPTH_LIMIT
    ensures WellFormed(j) && AllPaired(j) && d + Depth(j) <= K.DEPTH_LIMIT
    ensures Spell(j) == Enc(k, v, level) && Printed(k, j, level) && M.SenseOf(k, j) == M.Is(v)
  {
    hide Enc, Dec, Typed, Known, Valid, GoodKind, Fits, Opaque, Whole, Printed, Spell, WellFormed, AllPaired, Depth, StartsAt, Stops,
      K.SkipValue, M.SenseOf, I.Continues;
    j := TreeOfEnc(k, v, level, d);
    var text := Enc(k, v, level);
    G.StartsItself(text);
    PastEnd(text);
    T.DecEnc(text, 0, d, level, k, v);
    G.DecFollows(text, 0, d, k);
    if d + Depth(j) > K.DEPTH_LIMIT {
      U.SkipRefused(text, 0, d, j);
    }
    G.StopsAtAny(j, At(text, |text|));
    M.SenseAgrees(text, 0, d, k, j);
  }

  lemma PastEnd(s: Bytes)
    ensures !I.Continues(At(s, |s|))
  {
  }
}
