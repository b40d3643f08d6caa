/** String literals: minimal escaping on the way out, the reader's literal on the way in. */
module Strings {
  import opened Bytes
  import opened Utf8

  const QUOTE: byte := 0x22
  const BACKSLASH: byte := 0x5C
  const LOWER_U: byte := 0x75

  function HexDigit(n: int): byte
    requires 0 <= n < 16
  {
    if n < 10 then 0x30 + n else 0x61 + (n - 10)
  }

  function EscByte(c: byte): (r: Bytes)
    ensures 1 <= |r| <= 6
  {
    if c == QUOTE then [BACKSLASH, QUOTE]
    else if c == BACKSLASH then [BACKSLASH, BACKSLASH]
    else if c == 0x08 then [BACKSLASH, 0x62]
    else if c == 0x0C then [BACKSLASH, 0x66]
    else if c == 0x0A then [BACKSLASH, 0x6E]
    else if c == 0x0D then [BACKSLASH, 0x72]
    else if c == 0x09 then [BACKSLASH, 0x74]
    else if c < 0x20 then [BACKSLASH, LOWER_U, 0x30, 0x30, HexDigit(c / 16), HexDigit(c % 16)]
    else [c]
  }

  function EscBody(s: Bytes): Bytes {
    if |s| == 0 then [] else EscByte(s[0]) + EscBody(s[1..])
  }

  function Esc(s: Bytes): Bytes {
    [QUOTE] + EscBody(s) + [QUOTE]
  }

  function HexValue(c: byte): int {
    if 0x30 <= c <= 0x39 then c - 0x30
    else if 0x61 <= c <= 0x66 then c - 0x61 + 10
    else if 0x41 <= c <= 0x46 then c - 0x41 + 10
    else -1
  }

  predicate HexAt(b: Bytes, p: nat) {
    p + 4 <= |b| && forall i :: p <= i < p + 4 ==> HexValue(b[i]) >= 0
  }

  /** The value of the four hex digits at p. */
  function Hex4(b: Bytes, p: nat): (u: int)
    requires HexAt(b, p)
    ensures 0 <= u < 0x10000
  {
    ((HexValue(b[p]) * 16 + HexValue(b[p + 1])) * 16 + HexValue(b[p + 2])) * 16 + HexValue(b[p + 3])
  }

  predicate High(u: int) {
    0xD800 <= u <= 0xDBFF
  }

  predicate LowHalf(u: int) {
    0xDC00 <= u <= 0xDFFF
  }

  function Pair(hi: int, lo: int): int {
    0x10000 + (hi - 0xD800) * 0x400 + (lo - 0xDC00)
  }

  /** Section 2.2 of RFC 2781: surrogate pairs are exactly the supplementary code points. */
  lemma PairsAreSupplementary(hi: int, lo: int, hi2: int, lo2: int, cp: int)
    requires High(hi) && LowHalf(lo) && High(hi2) && LowHalf(lo2)
    ensures 0x10000 <= Pair(hi, lo) <= 0x10FFFF
    ensures Pair(hi, lo) == Pair(hi2, lo2) ==> hi == hi2 && lo == lo2
    ensures 0x10000 <= cp <= 0x10FFFF ==>
              var h, l := 0xD800 + (cp - 0x10000) / 0x400, 0xDC00 + (cp - 0x10000) % 0x400;
              High(h) && LowHalf(l) && Pair(h, l) == cp
  {
  }

  function Short(c: byte): Option<byte> {
    if c == QUOTE || c == BACKSLASH || c == 0x2F then Some(c)
    else if c == 0x62 then Some(0x08)
    else if c == 0x66 then Some(0x0C)
    else if c == 0x6E then Some(0x0A)
    else if c == 0x72 then Some(0x0D)
    else if c == 0x74 then Some(0x09)
    else None
  }

  /** What `escape` appends, from the backslash at p. */
  function Escape(b: Bytes, p: nat): (r: Res<Bytes>)
    requires p < |b|
    ensures r.Ok? ==> p + 2 <= r.pos <= |b| && 1 <= |r.value|
    ensures r.Err? ==> r.off <= |b| && (r.word == Malformed || r.word == BadString)
  {
    if p + 1 >= |b| then Err(Malformed, p + 1)
    else if Short(b[p + 1]).Some? then Ok([Short(b[p + 1]).value], p + 2)
    else if b[p + 1] != LOWER_U then Err(BadString, p + 2)
    else if !HexAt(b, p + 2) then Err(BadString, p + 2)
    else
      var u := Hex4(b, p + 2);
      if LowHalf(u) then Err(BadString, p + 6)
      else if !High(u) then Ok(AppendRune(u), p + 6)
      else if p + 7 >= |b| || b[p + 6] != BACKSLASH || b[p + 7] != LOWER_U then Err(BadString, p + 6)
      else if !HexAt(b, p + 8) then Err(BadString, p + 8)
      else
        var lo := Hex4(b, p + 8);
        if !LowHalf(lo) then Err(BadString, p + 12)
        else Ok(AppendRune(Pair(u, lo)), p + 12)
  }

  function Prepend(x: Bytes, r: Res<Bytes>): Res<Bytes> {
    match r
    case Ok(v, q) => Ok(x + v, q)
    case Err(w, o) => Err(w, o)
  }

  /** The bytes of a literal from p, inside the quotes, up to and over the closing one. */
  function StrBody(b: Bytes, p: nat): (r: Res<Bytes>)
    requires p <= |b|
    ensures r.Ok? ==> p < r.pos <= |b|
    ensures r.Err? ==> r.off <= |b| && (r.word == Malformed || r.word == BadString)
    decreases |b| - p
  {
    if p >= |b| then Err(Malformed, p)
    else if b[p] == QUOTE then Ok([], p + 1)
    else if b[p] < 0x20 then Err(BadString, p)
    else if b[p] == BACKSLASH then
      match Escape(b, p)
      case Ok(x, q) => Prepend(x, StrBody(b, q))
      case Err(w, o) => Err(w, o)
    else Prepend([b[p]], StrBody(b, p + 1))
  }

  function Str(b: Bytes, p: nat): (r: Res<Bytes>)
    requires p <= |b|
    ensures r.Ok? ==> p + 1 < r.pos <= |b| && ValidUtf8(r.value)
    ensures r.Err? ==> r.off <= |b| && (r.word == Malformed || r.word == BadString || r == Err(WrongType, p))
    ensures At(b, p) == QUOTE && r.Err? ==> r.word != WrongType
  {
    if At(b, p) != QUOTE then Err(WrongType, p)
    else
      match StrBody(b, p + 1)
      case Ok(s, q) => if ValidUtf8(s) then Ok(s, q) else Err(BadString, q)
      case Err(w, o) => Err(w, o)
  }

  lemma HexRoundTrip(c: byte)
    requires c < 0x20
    ensures HexValue(HexDigit(c / 16)) == c / 16 && HexValue(HexDigit(c % 16)) == c % 16
  {
  }

  lemma EscapeReadsEscByte(b: Bytes, p: nat, c: byte)
    requires |EscByte(c)| > 1 && StartsAt(b, p, EscByte(c))
    ensures b[p] == BACKSLASH && Escape(b, p) == Ok([c], p + |EscByte(c)|)
  {
    BytesAt(b, p, EscByte(c));
    if |EscByte(c)| == 6 {
      LongEscape(b, p, c);
    } else {
      hide Hex4, HexAt, HexValue;
    }
  }

  lemma BytesAt(b: Bytes, p: nat, e: Bytes)
    requires StartsAt(b, p, e)
    ensures p + |e| <= |b| && forall i :: 0 <= i < |e| ==> b[p + i] == e[i]
  {
    forall i | 0 <= i < |e|
      ensures b[p + i] == e[i]
    {
      assert b[p..p + |e|][i] == e[i];
    }
  }

  lemma LongEscape(b: Bytes, p: nat, c: byte)
    requires c < 0x20 && p + 6 <= |b| && b[p] == BACKSLASH && b[p + 1] == LOWER_U
    requires b[p + 2] == 0x30 && b[p + 3] == 0x30 && b[p + 4] == HexDigit(c / 16) && b[p + 5] == HexDigit(c % 16)
    ensures Escape(b, p) == Ok([c], p + 6)
  {
    HexOfTwo(b, p + 2, c);
    hide Hex4, HexAt, HexValue, HexDigit;
    assert AppendRune(c) == [c];
  }

  lemma HexOfTwo(b: Bytes, p: nat, c: byte)
    requires c < 0x20 && p + 4 <= |b|
    requires b[p] == 0x30 && b[p + 1] == 0x30 && b[p + 2] == HexDigit(c / 16) && b[p + 3] == HexDigit(c % 16)
    ensures HexAt(b, p) && Hex4(b, p) == c
  {
    HexRoundTrip(c);
    hide HexDigit;
    assert HexValue(0x30) == 0;
    var n: int := c;
    assert n == n / 16 * 16 + n % 16;
  }

  /** Every byte string, valid or not, comes back from its escaped body. */
  lemma {:induction false} BodyRoundTrip(b: Bytes, p: nat, s: Bytes)
    requires StartsAt(b, p, EscBody(s)) && At(b, p + |EscBody(s)|) == QUOTE
    ensures StrBody(b, p) == Ok(s, p + |EscBody(s)| + 1)
    decreases |s|
  {
    hide StartsAt, Escape, EscByte;
    if |s| > 0 {
      var e := EscByte(s[0]);
      StartsCat(b, p, e, EscBody(s[1..]));
      BodyRoundTrip(b, p + |e|, s[1..]);
      assert s == [s[0]] + s[1..];
      if |e| > 1 {
        EscapeReadsEscByte(b, p, s[0]);
      } else {
        EscByteAlone(b, p, s[0]);
      }
    }
  }

  lemma EscByteAlone(b: Bytes, p: nat, c: byte)
    requires |EscByte(c)| == 1 && StartsAt(b, p, EscByte(c))
    ensures p < |b| && b[p] == c && c >= 0x20 && c != QUOTE && c != BACKSLASH
  {
    StartsHead(b, p, EscByte(c));
  }

  lemma EscAt(b: Bytes, p: nat, s: Bytes)
    requires StartsAt(b, p, Esc(s))
    ensures At(b, p) == QUOTE && StartsAt(b, p + 1, EscBody(s)) && At(b, p + 1 + |EscBody(s)|) == QUOTE
    ensures p < |b|
  {
    var body := EscBody(s);
    StartsCat(b, p, [QUOTE] + body, [QUOTE]);
    StartsCat(b, p, [QUOTE], body);
    StartsOne(b, p, QUOTE);
    StartsOne(b, p + 1 + |body|, QUOTE);
  }

  /** str(esc(s)) is s for every valid s; an invalid one is refused, never altered. */
  lemma StrRoundTrip(b: Bytes, p: nat, s: Bytes)
    requires StartsAt(b, p, Esc(s))
    ensures Str(b, p) == if ValidUtf8(s) then Ok(s, p + |Esc(s)|) else Err(BadString, p + |Esc(s)|)
  {
    EscAt(b, p, s);
    BodyRoundTrip(b, p + 1, s);
  }

  lemma {:induction false} EscBodyCat(s: Bytes, t: Bytes)
    ensures EscBody(s + t) == EscBody(s) + EscBody(t)
    decreases |s|
  {
    if |s| == 0 {
      assert s + t == t;
    } else {
      assert (s + t)[1..] == s[1..] + t;
      EscBodyCat(s[1..], t);
    }
  }

  /** Bytes from 0x80 up are written as they are. */
  lemma {:induction false} PlainBody(s: Bytes)
    requires forall i :: 0 <= i < |s| ==> s[i] >= 0x80
    ensures EscBody(s) == s
  {
    if |s| > 0 {
      PlainBody(s[1..]);
    }
  }

  /** One escape never decodes to something that takes more bytes to write again. */
  lemma EscapeIsNoShorter(b: Bytes, p: nat)
    requires p < |b| && Escape(b, p).Ok?
    ensures |EscBody(Escape(b, p).value)| <= Escape(b, p).pos - p
  {
    var x := Escape(b, p).value;
    if |x| == 1 {
      assert EscBody(x) == EscByte(x[0]) + EscBody([]) == EscByte(x[0]);
    } else {
      RuneIsPlain(b, p);
      PlainBody(x);
    }
  }

  lemma RuneIsPlain(b: Bytes, p: nat)
    requires p < |b| && Escape(b, p).Ok? && |Escape(b, p).value| > 1
    ensures forall i :: 0 <= i < |Escape(b, p).value| ==> Escape(b, p).value[i] >= 0x80
    ensures |Escape(b, p).value| <= Escape(b, p).pos - p
  {
  }

  lemma {:induction false} BodyIsNoShorter(b: Bytes, p: nat)
    requires p <= |b| && StrBody(b, p).Ok?
    ensures |EscBody(StrBody(b, p).value)| + 1 <= StrBody(b, p).pos - p
    decreases |b| - p
  {
    if b[p] == QUOTE {
    } else if b[p] == BACKSLASH {
      var x, q := Escape(b, p).value, Escape(b, p).pos;
      BodyIsNoShorter(b, q);
      EscapeIsNoShorter(b, p);
      EscBodyCat(x, StrBody(b, q).value);
    } else {
      BodyIsNoShorter(b, p + 1);
      EscBodyCat([b[p]], StrBody(b, p + 1).value);
      assert EscBody([b[p]]) == EscByte(b[p]) + EscBody([]) == [b[p]];
    }
  }

  /** Minimal escaping: no accepted literal is shorter than the one written for its value. */
  lemma EscIsShortest(b: Bytes, p: nat)
    requires p <= |b| && Str(b, p).Ok?
    ensures |Esc(Str(b, p).value)| <= Str(b, p).pos - p
  {
    BodyIsNoShorter(b, p + 1);
  }

  /** Escaping is prefix free, so it is injective even inside a longer text. */
  lemma EscPrefixFree(b: Bytes, p: nat, s: Bytes, t: Bytes)
    requires StartsAt(b, p, Esc(s)) && StartsAt(b, p, Esc(t))
    ensures s == t
  {
    EscReads(b, p, s);
    EscReads(b, p, t);
  }

  lemma EscReads(b: Bytes, p: nat, s: Bytes)
    requires StartsAt(b, p, Esc(s))
    ensures p < |b| && StrBody(b, p + 1) == Ok(s, p + |Esc(s)|)
  {
    EscAt(b, p, s);
    BodyRoundTrip(b, p + 1, s);
  }
}
