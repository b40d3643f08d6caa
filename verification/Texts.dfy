/** The reader's string literal against the grammar's. */
module Texts {
  import opened Bytes
  import opened Utf8
  import opened Strings
  import opened Grammar

  lemma PrependTwice(x: Bytes, y: Bytes, r: Res<Bytes>)
    ensures Prepend(x, Prepend(y, r)) == Prepend(x + y, r)
  {
    if r.Ok? {
      assert x + (y + r.value) == x + y + r.value;
    }
  }

  predicate Plain(c: byte) {
    c >= 0x20 && c != QUOTE && c != BACKSLASH
  }

  /** The reader's escapes are those of the grammar's table. */
  lemma EscapesAgree(c: byte)
    ensures Short(c) == TwoByte(c)
  {
  }

  /** So are its hexadecimal digits. */
  lemma DigitsAgree(c: byte)
    ensures Nibble(c) == if HexValue(c) >= 0 then Some(HexValue(c)) else None
  {
  }

  lemma HexAgrees(b: Bytes, p: nat)
    requires p + 4 <= |b|
    ensures HexAt(b, p) <==> FourHex(b[p..p + 4])
    ensures HexAt(b, p) ==> Hex4(b, p) == HexOf(b[p..p + 4])
  {
    hide HexValue, Nibble;
    var h := b[p..p + 4];
    DigitsAgree(b[p]);
    DigitsAgree(b[p + 1]);
    DigitsAgree(b[p + 2]);
    DigitsAgree(b[p + 3]);
    assert h[0] == b[p] && h[1] == b[p + 1] && h[2] == b[p + 2] && h[3] == b[p + 3];
  }

  /** And its blanks. */
  lemma BlanksAgree(s: Bytes)
    ensures AllBlank(s) <==> AllSpace(s)
  {
  }

  lemma {:induction false} PlainRun(b: Bytes, p: nat, s: Bytes)
    requires StartsAt(b, p, s) && forall i :: 0 <= i < |s| ==> Plain(s[i])
    ensures StrBody(b, p) == Prepend(s, StrBody(b, p + |s|))
    decreases |s|
  {
    if |s| == 0 {
      if StrBody(b, p).Ok? {
        assert [] + StrBody(b, p).value == StrBody(b, p).value;
      }
    } else {
      StartsHead(b, p, s);
      PlainRun(b, p + 1, s[1..]);
      PrependTwice([s[0]], s[1..], StrBody(b, p + |s|));
      assert [s[0]] + s[1..] == s;
    }
  }

  lemma RuneIsPlain(cp: int)
    requires GoodElem(Raw(cp))
    ensures forall i :: 0 <= i < |AppendRune(cp)| ==> Plain(AppendRune(cp)[i])
  {
  }

  lemma ReadUnit(b: Bytes, p: nat, h: Bytes)
    requires GoodElem(Unit(h)) && StartsAt(b, p, SpellElem(Unit(h)))
    ensures p + 6 <= |b| && b[p] == BACKSLASH && b[p + 1] == LOWER_U
    ensures HexAt(b, p + 2) && Hex4(b, p + 2) == HexOf(h)
  {
    hide HexAt, Hex4, Nibble;
    var e := SpellElem(Unit(h));
    assert forall i :: 0 <= i < 6 ==> b[p + i] == b[p..p + 6][i] == e[i];
    assert forall i :: 0 <= i < 4 ==> h[i] == e[i + 2] == b[p + 2 + i];
    assert b[p + 2..p + 6] == h;
    HexAgrees(b, p + 2);
  }

  lemma ReadSlash(b: Bytes, p: nat, c: byte)
    requires Short(c).Some? && StartsAt(b, p, [BACKSLASH, c])
    ensures p + 2 <= |b| && b[p] == BACKSLASH && b[p + 1] == c
  {
    assert b[p..p + 2][0] == b[p] && b[p..p + 2][1] == b[p + 1];
  }

  /** The first byte of what follows a text element: what tells \u apart from anything else. */
  lemma NextUnit(b: Bytes, p: nat, t: Text)
    requires GoodText(t) && StartsAt(b, p, SpellText(t) + [QUOTE])
    ensures t.Char? && t.e.Unit? <==> p + 1 < |b| && b[p] == BACKSLASH && b[p + 1] == LOWER_U
    ensures t.Char? && t.e.Unit? ==> HexAt(b, p + 2) && Hex4(b, p + 2) == HexOf(t.e.h)
  {
    if t.End? {
      assert SpellText(t) + [QUOTE] == [QUOTE];
      StartsOne(b, p, QUOTE);
    } else {
      Behead(b, p, t);
      match t.e
      case Raw(cp) =>
        RuneIsPlain(cp);
        StartsHead(b, p, AppendRune(cp));
      case Slash(c) =>
        ReadSlash(b, p, c);
      case Unit(h) =>
        ReadUnit(b, p, h);
    }
  }

  lemma OneByteIsValid(c: byte)
    requires c < 0x80
    ensures ValidUtf8([c])
  {
    assert Point([c], 1) == c;
    assert CharLen([c]) == 1;
    assert [c][1..] == [];
  }

  lemma RuneIsValid(cp: int)
    requires Scalar(cp)
    ensures ValidUtf8(AppendRune(cp))
  {
    RuneReadsBack(cp, []);
    assert AppendRune(cp) + [] == AppendRune(cp);
    assert AppendRune(cp)[|AppendRune(cp)|..] == [];
  }

  lemma {:induction false} DecodedIsValid(t: Text)
    requires GoodText(t) && Paired(t)
    ensures ValidUtf8(Decoded(t))
    decreases t
  {
    if t.Char? {
      if HighUnit(t) {
        DecodedIsValid(t.rest.rest);
        RuneIsValid(Pair(HexOf(t.e.h), HexOf(t.rest.e.h)));
        ValidCat(AppendRune(Pair(HexOf(t.e.h), HexOf(t.rest.e.h))), Decoded(t.rest.rest));
      } else {
        DecodedIsValid(t.rest);
        match t.e
        case Raw(cp) =>
          RuneIsValid(cp);
          ValidCat(AppendRune(cp), Decoded(t.rest));
        case Slash(c) =>
          OneByteIsValid(Short(c).value);
          ValidCat([Short(c).value], Decoded(t.rest));
        case Unit(h) =>
          RuneIsValid(HexOf(h));
          ValidCat(AppendRune(HexOf(h)), Decoded(t.rest));
      }
    }
  }

  /** A tail byte in a decoded string was read raw: no escape begins with one. */
  lemma TailIsRaw(b: Bytes, p: nat)
    requires p <= |b| && StrBody(b, p).Ok? && |StrBody(b, p).value| > 0 && Tail(StrBody(b, p).value[0])
    ensures p < |b| && Plain(b[p]) && StrBody(b, p + 1).Ok?
    ensures StrBody(b, p) == Ok([b[p]] + StrBody(b, p + 1).value, StrBody(b, p + 1).pos)
  {
    if b[p] == BACKSLASH {
      EscapeStart(b, p);
    }
  }

  lemma {:induction false} TailsAreRaw(b: Bytes, p: nat, k: nat)
    requires p <= |b| && StrBody(b, p).Ok? && k <= |StrBody(b, p).value|
    requires forall i :: 0 <= i < k ==> Tail(StrBody(b, p).value[i])
    ensures StartsAt(b, p, StrBody(b, p).value[..k])
    ensures StrBody(b, p + k) == Ok(StrBody(b, p).value[k..], StrBody(b, p).pos)
    decreases k
  {
    hide StrBody;
    if k > 0 {
      var v := StrBody(b, p).value;
      TailIsRaw(b, p);
      var w := StrBody(b, p + 1).value;
      assert v == [b[p]] + w;
      assert forall i :: 0 <= i < k - 1 ==> w[i] == v[i + 1];
      TailsAreRaw(b, p + 1, k - 1);
      assert v[..k] == [b[p]] + w[..k - 1];
      StartsOne(b, p, b[p]);
      StartsCat(b, p, [b[p]], w[..k - 1]);
      assert w[k - 1..] == v[k..];
    }
  }

  lemma EscapeStart(b: Bytes, p: nat)
    requires p < |b| && Escape(b, p).Ok?
    ensures !Tail(Escape(b, p).value[0])
  {
  }

  /** An accepted body is the spelling of a paired text. */
  lemma {:induction false} TextOfBody(b: Bytes, p: nat) returns (t: Text)
    requires p <= |b| && StrBody(b, p).Ok? && ValidUtf8(StrBody(b, p).value)
    ensures Reads(b, p, t)
    decreases |b| - p, 1
  {
    if b[p] == QUOTE {
      t := End;
      StartsOne(b, p, QUOTE);
      assert SpellText(t) + [QUOTE] == [QUOTE];
    } else if b[p] == BACKSLASH {
      t := TextOfEscape(b, p);
    } else {
      t := TextOfRaw(b, p);
    }
  }

  /** What follows an escape is valid whenever the whole is. */
  lemma AfterEscape(b: Bytes, p: nat)
    requires p < |b| && b[p] == BACKSLASH && StrBody(b, p).Ok? && ValidUtf8(StrBody(b, p).value)
    ensures Escape(b, p).Ok? && StrBody(b, Escape(b, p).pos).Ok?
    ensures ValidUtf8(StrBody(b, Escape(b, p).pos).value)
    ensures StrBody(b, p) == Ok(Escape(b, p).value + StrBody(b, Escape(b, p).pos).value, StrBody(b, Escape(b, p).pos).pos)
  {
    var x, q := Escape(b, p).value, Escape(b, p).pos;
    EscapeIsValid(b, p);
    ValidCat(x, StrBody(b, q).value);
  }

  lemma EscapeIsValid(b: Bytes, p: nat)
    requires p < |b| && Escape(b, p).Ok?
    ensures ValidUtf8(Escape(b, p).value)
  {
    if Short(b[p + 1]).Some? {
      OneByteIsValid(Short(b[p + 1]).value);
    } else if High(Hex4(b, p + 2)) {
      RuneIsValid(Pair(Hex4(b, p + 2), Hex4(b, p + 8)));
    } else {
      RuneIsValid(Hex4(b, p + 2));
    }
  }

  /** The \uXXXX that stands at p. */
  lemma UnitAt(b: Bytes, p: nat) returns (h: Bytes)
    requires p + 1 < |b| && b[p] == BACKSLASH && b[p + 1] == LOWER_U && HexAt(b, p + 2)
    ensures GoodElem(Unit(h)) && HexOf(h) == Hex4(b, p + 2)
    ensures StartsAt(b, p, SpellElem(Unit(h)))
  {
    hide Hex4, Nibble;
    h := b[p + 2..p + 6];
    HexAgrees(b, p + 2);
    assert b[p..p + 6] == [BACKSLASH, LOWER_U] + h;
  }

  /** What a good text, put in front of a good text, stands for. */
  ghost predicate Reads(b: Bytes, p: nat, t: Text)
    requires p <= |b|
  {
    && GoodText(t) && Paired(t) && StartsAt(b, p, SpellText(t) + [QUOTE])
    && StrBody(b, p) == Ok(Decoded(t), p + |SpellText(t)| + 1)
  }

  lemma PushSlash(b: Bytes, p: nat, rest: Text)
    requires p + 2 <= |b| && b[p] == BACKSLASH && Short(b[p + 1]).Some?
    requires Reads(b, p + 2, rest)
    ensures Reads(b, p, Char(Slash(b[p + 1]), rest))
  {
    assert b[p..p + 2] == [BACKSLASH, b[p + 1]];
    Extend(b, p, Char(Slash(b[p + 1]), rest));
  }

  lemma PushUnit(b: Bytes, p: nat, h: Bytes, rest: Text)
    requires p + 6 <= |b| && b[p] == BACKSLASH && b[p + 1] == LOWER_U && HexAt(b, p + 2) && HexOf(h) == Hex4(b, p + 2)
    requires GoodElem(Unit(h)) && StartsAt(b, p, SpellElem(Unit(h)))
    requires !High(HexOf(h)) && !LowHalf(HexOf(h))
    requires Reads(b, p + 6, rest)
    ensures Reads(b, p, Char(Unit(h), rest))
  {
    Extend(b, p, Char(Unit(h), rest));
  }

  lemma PushPair(b: Bytes, p: nat, h: Bytes, g: Bytes, rest: Text)
    requires p + 12 <= |b| && b[p] == BACKSLASH && b[p + 1] == LOWER_U && HexAt(b, p + 2) && HexOf(h) == Hex4(b, p + 2)
    requires b[p + 6] == BACKSLASH && b[p + 7] == LOWER_U && HexAt(b, p + 8) && HexOf(g) == Hex4(b, p + 8)
    requires GoodElem(Unit(h)) && StartsAt(b, p, SpellElem(Unit(h)))
    requires GoodElem(Unit(g)) && StartsAt(b, p + 6, SpellElem(Unit(g)))
    requires High(HexOf(h)) && LowHalf(HexOf(g))
    requires Reads(b, p + 12, rest)
    ensures Reads(b, p, Char(Unit(h), Char(Unit(g), rest)))
  {
    hide StartsAt, AppendRune, ValidUtf8, HexAt, Hex4, HexOf, Nibble;
    var low := Char(Unit(g), rest);
    Extend(b, p + 6, low);
    var t := Char(Unit(h), low);
    assert GoodText(low) && LowUnit(low) && HighUnit(t);
    Extend(b, p, t);
  }

  lemma PushRaw(b: Bytes, p: nat, cp: int, rest: Text)
    requires p < |b| && GoodElem(Raw(cp)) && StartsAt(b, p, AppendRune(cp))
    requires StrBody(b, p) == Prepend(AppendRune(cp), StrBody(b, p + |AppendRune(cp)|))
    requires Reads(b, p + |AppendRune(cp)|, rest)
    ensures Reads(b, p, Char(Raw(cp), rest))
  {
    hide StrBody, StartsAt, Scalar;
    Extend(b, p, Char(Raw(cp), rest));
  }

  lemma {:induction false} TextOfEscape(b: Bytes, p: nat) returns (t: Text)
    requires p < |b| && b[p] == BACKSLASH && StrBody(b, p).Ok? && ValidUtf8(StrBody(b, p).value)
    ensures Reads(b, p, t)
    decreases |b| - p, 0
  {
    AfterEscape(b, p);
    var rest := TextOfBody(b, Escape(b, p).pos);
    if Short(b[p + 1]).Some? {
      t := Char(Slash(b[p + 1]), rest);
      PushSlash(b, p, rest);
    } else {
      var h := UnitAt(b, p);
      if High(HexOf(h)) {
        var g := UnitAt(b, p + 6);
        t := Char(Unit(h), Char(Unit(g), rest));
        PushPair(b, p, h, g, rest);
      } else {
        t := Char(Unit(h), rest);
        PushUnit(b, p, h, rest);
      }
    }
  }

  lemma Extend(b: Bytes, p: nat, t: Text)
    requires GoodText(t) && t.Char? && StartsAt(b, p, SpellElem(t.e))
    requires StartsAt(b, p + |SpellElem(t.e)|, SpellText(t.rest) + [QUOTE])
    ensures StartsAt(b, p, SpellText(t) + [QUOTE])
  {
    hide StartsAt, SpellElem;
    StartsCat(b, p, SpellElem(t.e), SpellText(t.rest) + [QUOTE]);
    assert SpellText(t) + [QUOTE] == SpellElem(t.e) + (SpellText(t.rest) + [QUOTE]);
  }

  lemma FirstChar(v: Bytes, n: nat)
    requires IsChar(v, n) && n >= 1 && Plain(v[0])
    ensures GoodElem(Raw(Point(v[..n], n))) && AppendRune(Point(v[..n], n)) == v[..n]
  {
    var c := v[..n];
    assert IsChar(c, n);
    CharIsRune(c);
    RawIsGood(Point(c, n), c[0]);
  }

  /** The raw character that stands at p, and the body after it. */
  lemma RawAt(b: Bytes, p: nat) returns (cp: int)
    requires p < |b| && Plain(b[p]) && StrBody(b, p).Ok? && ValidUtf8(StrBody(b, p).value)
    ensures GoodElem(Raw(cp)) && StartsAt(b, p, AppendRune(cp))
    ensures StrBody(b, p + |AppendRune(cp)|).Ok? && ValidUtf8(StrBody(b, p + |AppendRune(cp)|).value)
    ensures StrBody(b, p) == Prepend(AppendRune(cp), StrBody(b, p + |AppendRune(cp)|))
  {
    hide StartsAt, IsChar, Point, AppendRune, Scalar, StrBody;
    var v := StrBody(b, p).value;
    RawNonEmpty(b, p);
    var n := CharLen(v);
    CharLenIsTable(v, n);
    RawRun(b, p, n);
    FirstChar(v, n);
    cp := Point(v[..n], n);
    assert v == v[..n] + v[n..];
  }

  lemma RawNonEmpty(b: Bytes, p: nat)
    requires p < |b| && Plain(b[p]) && StrBody(b, p).Ok?
    ensures |StrBody(b, p).value| > 0 && StrBody(b, p).value[0] == b[p]
  {
  }

  lemma CharTails(v: Bytes, w: Bytes, n: nat)
    requires IsChar(v, n) && n >= 1 && v == [v[0]] + w
    ensures n - 1 <= |w| && forall i :: 0 <= i < n - 1 ==> Tail(w[i])
    ensures v[..n] == [v[0]] + w[..n - 1] && w[n - 1..] == v[n..]
  {
    assert forall i :: 0 <= i < n - 1 ==> w[i] == v[i + 1];
  }

  lemma RawRun(b: Bytes, p: nat, n: nat)
    requires p < |b| && Plain(b[p]) && StrBody(b, p).Ok? && IsChar(StrBody(b, p).value, n) && n >= 1
    ensures StartsAt(b, p, StrBody(b, p).value[..n]) && StrBody(b, p).value[0] == b[p]
    ensures StrBody(b, p + n) == Ok(StrBody(b, p).value[n..], StrBody(b, p).pos)
  {
    hide StartsAt, IsChar;
    var v := StrBody(b, p).value;
    var w := StrBody(b, p + 1).value;
    assert v == [b[p]] + w;
    CharTails(v, w, n);
    TailsAreRaw(b, p + 1, n - 1);
    StartsOne(b, p, b[p]);
    StartsCat(b, p, [b[p]], w[..n - 1]);
  }

  lemma {:induction false} TextOfRaw(b: Bytes, p: nat) returns (t: Text)
    requires p < |b| && Plain(b[p]) && StrBody(b, p).Ok? && ValidUtf8(StrBody(b, p).value)
    ensures Reads(b, p, t)
    decreases |b| - p, 0
  {
    hide StrBody, StartsAt, ValidUtf8, SpellText, Decoded, Paired, GoodText;
    var cp := RawAt(b, p);
    var rest := TextOfBody(b, p + |AppendRune(cp)|);
    t := Char(Raw(cp), rest);
    PushRaw(b, p, cp, rest);
  }

  lemma RawIsGood(cp: int, c: byte)
    requires Scalar(cp) && Plain(c) && AppendRune(cp)[0] == c
    ensures GoodElem(Raw(cp))
  {
  }

  /** The other way: a text of the grammar whose surrogates are paired is read as what it stands for. */
  lemma {:induction false} PairedReads(b: Bytes, p: nat, t: Text)
    requires p <= |b| && GoodText(t) && Paired(t) && StartsAt(b, p, SpellText(t) + [QUOTE])
    ensures Reads(b, p, t)
    decreases t, 1
  {
    hide StrBody, StartsAt, Decoded, Reads, Plain;
    if t.End? {
      EndReads(b, p);
    } else {
      Behead(b, p, t);
      var e := t.e;
      match e
      case Raw(cp) =>
        PairedReads(b, p + |SpellElem(e)|, t.rest);
        RuneIsPlain(cp);
        PlainRun(b, p, AppendRune(cp));
        PushRaw(b, p, cp, t.rest);
      case Slash(c) =>
        PairedReads(b, p + 2, t.rest);
        ReadSlash(b, p, c);
        PushSlash(b, p, t.rest);
      case Unit(h) =>
        PairedUnitReads(b, p, t);
    }
  }

  lemma EndReads(b: Bytes, p: nat)
    requires p <= |b| && StartsAt(b, p, SpellText(End) + [QUOTE])
    ensures Reads(b, p, End)
  {
    assert SpellText(End) + [QUOTE] == [QUOTE];
    StartsOne(b, p, QUOTE);
  }

  lemma {:induction false} PairedUnitReads(b: Bytes, p: nat, t: Text)
    requires p <= |b| && GoodText(t) && Paired(t) && t.Char? && t.e.Unit? && StartsAt(b, p, SpellText(t) + [QUOTE])
    ensures Reads(b, p, t)
    decreases t, 0
  {
    var h, rest := t.e.h, t.rest;
    Behead(b, p, t);
    ReadUnit(b, p, h);
    if HighUnit(t) {
      assert GoodText(rest) && LowUnit(rest);
      Behead(b, p + 6, rest);
      ReadUnit(b, p + 6, rest.e.h);
      PairedReads(b, p + 12, rest.rest);
      PushPair(b, p, h, rest.e.h, rest.rest);
    } else {
      PairedReads(b, p + 6, rest);
      PushUnit(b, p, h, rest);
    }
  }

  lemma Behead(b: Bytes, p: nat, t: Text)
    requires GoodText(t) && t.Char? && StartsAt(b, p, SpellText(t) + [QUOTE])
    ensures StartsAt(b, p, SpellElem(t.e)) && StartsAt(b, p + |SpellElem(t.e)|, SpellText(t.rest) + [QUOTE])
  {
    StartsCat(b, p, SpellElem(t.e), SpellText(t.rest) + [QUOTE]);
    assert SpellText(t) + [QUOTE] == SpellElem(t.e) + (SpellText(t.rest) + [QUOTE]);
  }

  /** A text with an unpaired surrogate escape is refused as a bad string. */
  lemma {:induction false} UnpairedRefused(b: Bytes, p: nat, t: Text)
    requires p <= |b| && GoodText(t) && !Paired(t) && StartsAt(b, p, SpellText(t) + [QUOTE])
    ensures StrBody(b, p).Err? && StrBody(b, p).word == BadString
    decreases t, 1
  {
    hide StartsAt, SpellText, Decoded, StrBody, AppendRune, Scalar, Short, TwoByte, HexAt, Hex4, HexOf, Nibble;
    Behead(b, p, t);
    match t.e
    case Raw(cp) =>
      UnpairedRefused(b, p + |SpellElem(t.e)|, t.rest);
      RawPasses(b, p, cp);
    case Slash(c) =>
      UnpairedRefused(b, p + 2, t.rest);
      EscapesAgree(c);
      SlashPasses(b, p, c);
    case Unit(h) =>
      UnpairedUnitRefused(b, p, t);
  }

  lemma RawPasses(b: Bytes, p: nat, cp: int)
    requires GoodElem(Raw(cp)) && StartsAt(b, p, AppendRune(cp))
    ensures p + |AppendRune(cp)| <= |b| && StrBody(b, p) == Prepend(AppendRune(cp), StrBody(b, p + |AppendRune(cp)|))
  {
    hide StrBody, StartsAt, AppendRune;
    RuneIsPlain(cp);
    PlainRun(b, p, AppendRune(cp));
    PlainInside(b, p, AppendRune(cp));
  }

  lemma PlainInside(b: Bytes, p: nat, s: Bytes)
    requires StartsAt(b, p, s)
    ensures p + |s| <= |b|
  {
  }

  lemma SlashPasses(b: Bytes, p: nat, c: byte)
    requires Short(c).Some? && StartsAt(b, p, [BACKSLASH, c])
    ensures p + 2 <= |b| && StrBody(b, p) == Prepend([Short(c).value], StrBody(b, p + 2))
  {
    hide HexAt, Hex4;
    ReadSlash(b, p, c);
  }

  lemma {:induction false} UnpairedUnitRefused(b: Bytes, p: nat, t: Text)
    requires p <= |b| && GoodText(t) && !Paired(t) && t.Char? && t.e.Unit? && StartsAt(b, p, SpellText(t) + [QUOTE])
    ensures StrBody(b, p).Err? && StrBody(b, p).word == BadString
    decreases t, 0
  {
    hide Nibble, HexOf, HexAt, Hex4, StartsAt, AppendRune;
    var h, rest := t.e.h, t.rest;
    Behead(b, p, t);
    ReadUnit(b, p, h);
    NextUnit(b, p + 6, rest);
    if HighUnit(t) && LowUnit(rest) {
      assert GoodText(rest);
      Behead(b, p + 6, rest);
      UnpairedRefused(b, p + 12, rest.rest);
    } else if !HighUnit(t) && !LowUnit(t) {
      UnpairedRefused(b, p + 6, rest);
    }
  }

  /** Soundness: an accepted literal is a quoted text of the grammar with its surrogates paired. */
  lemma TextOfStr(b: Bytes, p: nat) returns (t: Text)
    requires p <= |b| && Str(b, p).Ok?
    ensures GoodText(t) && Paired(t) && Decoded(t) == Str(b, p).value
    ensures StartsAt(b, p, Quoted(t)) && p + |Quoted(t)| == Str(b, p).pos
  {
    t := TextOfBody(b, p + 1);
    StartsOne(b, p, QUOTE);
    StartsCat(b, p, [QUOTE], SpellText(t) + [QUOTE]);
    assert Quoted(t) == [QUOTE] + (SpellText(t) + [QUOTE]);
  }

  /** A quoted text of the grammar is accepted exactly when its surrogates are paired. */
  lemma StrOfText(b: Bytes, p: nat, t: Text)
    requires GoodText(t) && StartsAt(b, p, Quoted(t))
    ensures p < |b| && b[p] == QUOTE
    ensures Paired(t) ==> Str(b, p) == Ok(Decoded(t), p + |Quoted(t)|)
    ensures !Paired(t) ==> Str(b, p).Err? && Str(b, p).word == BadString
  {
    assert Quoted(t) == [QUOTE] + (SpellText(t) + [QUOTE]);
    StartsCat(b, p, [QUOTE], SpellText(t) + [QUOTE]);
    StartsOne(b, p, QUOTE);
    if Paired(t) {
      PairedReads(b, p + 1, t);
      DecodedIsValid(t);
    } else {
      UnpairedRefused(b, p + 1, t);
    }
  }

  // --------------------------------------------------------------- refusals

  /** Four hexadecimal digits stand at p, of this value. */
  predicate UnitIs(b: Bytes, p: nat, u: int) {
    p + 4 <= |b| && FourHex(b[p..p + 4]) && HexOf(b[p..p + 4]) == u
  }

  predicate NoUnit(b: Bytes, p: nat) {
    !(p + 4 <= |b| && FourHex(b[p..p + 4]))
  }

  /** A second escaped unit begins at p. */
  predicate UnitBegins(b: Bytes, p: nat) {
    p + 1 < |b| && b[p] == ESCAPE && b[p + 1] == UNICODE_MARK
  }

  /**
   * Where an escape is refused, and for what: at the end of the text if it is cut off there; after its
   * letter if there is no such escape or no four digits follow; after the digits if they are a lone half
   * of a pair; where the second digits should begin if they are missing; and after them if they are no
   * low half.
   */
  lemma EscapeRefused(b: Bytes, p: nat)
    requires p < |b|
    ensures var r := Escape(b, p); var c := At(b, p + 1);
      && (r == Err(Malformed, p + 1) <==> p + 1 == |b|)
      && (r == Err(BadString, p + 2) <==> p + 1 < |b| && TwoByte(c).None? && (c == UNICODE_MARK ==> NoUnit(b, p + 2)))
      && (r == Err(BadString, p + 6) <==>
            p + 1 < |b| && c == UNICODE_MARK && exists u :: UnitIs(b, p + 2, u) && (LowHalf(u) || (High(u) && !UnitBegins(b, p + 6))))
      && (r == Err(BadString, p + 8) <==>
            p + 1 < |b| && c == UNICODE_MARK && exists u :: UnitIs(b, p + 2, u) && High(u) && UnitBegins(b, p + 6) && NoUnit(b, p + 8))
      && (r == Err(BadString, p + 12) <==>
            p + 1 < |b| && c == UNICODE_MARK && exists u, l :: UnitIs(b, p + 2, u) && High(u) && UnitBegins(b, p + 6)
                                                             && UnitIs(b, p + 8, l) && !LowHalf(l))
  {
    hide HexValue, Nibble, Hex4, HexOf, AppendRune, FourHex;
    if p + 1 < |b| {
      EscapesAgree(b[p + 1]);
      HexReads(b, p + 2);
      HexReads(b, p + 8);
    }
  }

  lemma HexReads(b: Bytes, p: nat)
    ensures HexAt(b, p) <==> !NoUnit(b, p)
    ensures HexAt(b, p) ==> UnitIs(b, p, Hex4(b, p))
    ensures forall u :: UnitIs(b, p, u) ==> HexAt(b, p) && u == Hex4(b, p)
  {
    hide HexValue, Nibble, Hex4, HexOf, FourHex;
    if p + 4 <= |b| {
      HexAgrees(b, p);
    }
  }

  /** An escape at the end of a text, when quotes are put after it. */
  lemma EscapeWithQuotes(b: Bytes, p: nat, z: Bytes)
    requires p < |b| && (forall i :: 0 <= i < |z| ==> z[i] == QUOTE) && 0 < |z|
    ensures Escape(b, p).Ok? ==> Escape(b + z, p) == Escape(b, p)
    ensures Escape(b, p).Err? && Escape(b, p).word == BadString ==> Escape(b + z, p).Err?
    ensures Escape(b, p).Err? && Escape(b, p).word != BadString ==> p + 1 == |b| && Escape(b, p) == Err(Malformed, |b|)
    ensures Escape(b, p).Err? && Escape(b, p).word != BadString ==> Escape(b + z, p) == Ok([QUOTE], p + 2)
  {
    hide Hex4, AppendRune;
    HexWithQuotes(b, p + 2, z);
    HexWithQuotes(b, p + 8, z);
    assert forall i :: 0 <= i < |b| ==> (b + z)[i] == b[i];
    assert forall i :: |b| <= i < |b + z| ==> (b + z)[i] == QUOTE;
  }

  lemma HexWithQuotes(b: Bytes, p: nat, z: Bytes)
    requires forall i :: 0 <= i < |z| ==> z[i] == QUOTE
    ensures HexAt(b + z, p) <==> HexAt(b, p)
    ensures HexAt(b, p) ==> Hex4(b + z, p) == Hex4(b, p)
  {
    assert forall i :: 0 <= i < |b| ==> (b + z)[i] == b[i];
    assert forall i :: |b| <= i < |b + z| ==> (b + z)[i] == QUOTE;
    if p + 4 <= |b + z| && |b| < p + 4 {
      assert HexValue((b + z)[p + 3]) < 0;
    }
  }

  /** A literal that is refused is malformed exactly when it is only unfinished: one more quote, or two, would close it. */
  lemma {:induction false} UnfinishedIsMalformed(b: Bytes, p: nat)
    requires p <= |b| && StrBody(b, p).Err?
    ensures StrBody(b, p).word == Malformed || StrBody(b, p).word == BadString
    ensures StrBody(b, p).word == Malformed <==> StrBody(b + [QUOTE], p).Ok? || StrBody(b + [QUOTE, QUOTE], p).Ok?
    ensures StrBody(b, p).word == Malformed ==> StrBody(b, p).off == |b|
    decreases |b| - p
  {
    hide Escape;
    if p == |b| {
      assert (b + [QUOTE])[p] == QUOTE;
    } else {
      assert (b + [QUOTE])[p] == b[p] && (b + [QUOTE, QUOTE])[p] == b[p];
      if b[p] == BACKSLASH {
        EscapeWithQuotes(b, p, [QUOTE]);
        EscapeWithQuotes(b, p, [QUOTE, QUOTE]);
        if Escape(b, p).Ok? {
          UnfinishedIsMalformed(b, Escape(b, p).pos);
        } else if p + 1 == |b| {
          assert (b + [QUOTE, QUOTE])[p + 2] == QUOTE;
        }
      } else if b[p] >= 0x20 {
        UnfinishedIsMalformed(b, p + 1);
      }
    }
  }
}
