/** UTF-8 as the codec writes and checks it, against section 4 of RFC 3629. */
module Utf8 {
  import opened Bytes

  /** A Unicode scalar value: a code point that is not a surrogate. */
  predicate Scalar(cp: int) {
    0 <= cp < 0xD800 || 0xE000 <= cp <= 0x10FFFF
  }

  predicate Tail(c: byte) {
    0x80 <= c < 0xC0
  }

  /** The shifts and masks of the source, written as quotients and remainders. */
  function AppendRune(cp: int): (r: Bytes)
    requires 0 <= cp <= 0x10FFFF
    ensures 1 <= |r| <= 4
  {
    if cp < 0x80 then [cp]
    else if cp < 0x800 then [0xC0 + cp / 0x40, 0x80 + cp % 0x40]
    else if cp < 0x10000 then [0xE0 + cp / 0x1000, 0x80 + cp / 0x40 % 0x40, 0x80 + cp % 0x40]
    else [0xF0 + cp / 0x40000, 0x80 + cp / 0x1000 % 0x40, 0x80 + cp / 0x40 % 0x40, 0x80 + cp % 0x40]
  }

  /** The length the first byte announces, zero for a byte that starts nothing. */
  function Announced(c: int): nat
  {
    if c < 0x80 then 1
    else if c / 0x20 == 0x6 then 2
    else if c / 0x10 == 0xE then 3
    else if c / 0x08 == 0x1E then 4
    else 0
  }

  function Lead(c: int): int {
    if c < 0x80 then c
    else if c / 0x20 == 0x6 then c % 0x20
    else if c / 0x10 == 0xE then c % 0x10
    else c % 0x08
  }

  /** The code point the first n bytes spell, if all but the first are tails. */
  function Point(s: Bytes, n: nat): int
    requires 1 <= n <= |s|
    decreases n
  {
    if n == 1 then Lead(s[0]) else Point(s, n - 1) * 0x40 + s[n - 1] % 0x40
  }

  function Lowest(n: nat): int {
    if n <= 1 then 0 else if n == 2 then 0x80 else if n == 3 then 0x800 else 0x10000
  }

  /** The check the source makes on one character: how many bytes it takes, zero if ill formed. */
  function CharLen(s: Bytes): (n: nat)
    ensures n <= 4 && n <= |s|
  {
    if |s| == 0 then 0 else
      var n := Announced(s[0]);
      if n == 0 || n > |s| then 0
      else if exists k :: 1 <= k < n && !Tail(s[k]) then 0
      else
        var cp := Point(s, n);
        if cp < Lowest(n) || !Scalar(cp) then 0 else n
  }

  function ValidUtf8(s: Bytes): bool
    decreases |s|
  {
    |s| == 0 || (CharLen(s) > 0 && ValidUtf8(s[CharLen(s)..]))
  }

  /** UTF8-char of section 4 of RFC 3629, row by row, on the first n bytes. */
  predicate IsChar(s: Bytes, n: nat) {
    n <= |s| &&
    ( || (n == 1 && s[0] <= 0x7F)
      || (n == 2 && 0xC2 <= s[0] <= 0xDF && Tail(s[1]))
      || (n == 3 && s[0] == 0xE0 && 0xA0 <= s[1] <= 0xBF && Tail(s[2]))
      || (n == 3 && 0xE1 <= s[0] <= 0xEC && Tail(s[1]) && Tail(s[2]))
      || (n == 3 && s[0] == 0xED && 0x80 <= s[1] <= 0x9F && Tail(s[2]))
      || (n == 3 && 0xEE <= s[0] <= 0xEF && Tail(s[1]) && Tail(s[2]))
      || (n == 4 && s[0] == 0xF0 && 0x90 <= s[1] <= 0xBF && Tail(s[2]) && Tail(s[3]))
      || (n == 4 && 0xF1 <= s[0] <= 0xF3 && Tail(s[1]) && Tail(s[2]) && Tail(s[3]))
      || (n == 4 && s[0] == 0xF4 && 0x80 <= s[1] <= 0x8F && Tail(s[2]) && Tail(s[3])) )
  }

  predicate Utf8Char(s: Bytes) {
    IsChar(s, |s|)
  }

  function Join(chars: seq<Bytes>): Bytes {
    if |chars| == 0 then [] else chars[0] + Join(chars[1..])
  }

  /** UTF8-octets = *( UTF8-char ), section 4 of RFC 3629. */
  ghost predicate Utf8Octets(s: Bytes) {
    exists chars: seq<Bytes> :: AllChars(chars) && Join(chars) == s
  }

  predicate AllChars(chars: seq<Bytes>) {
    forall i :: 0 <= i < |chars| ==> Utf8Char(chars[i])
  }

  /** The six payload bits of a tail. */
  function Low(c: int): int {
    c - 0x80
  }

  lemma LeadIs(c: int)
    requires 0 <= c < 256
    ensures Announced(c) == if c < 0x80 then 1 else if c < 0xC0 then 0 else if c < 0xE0 then 2
                            else if c < 0xF0 then 3 else if c < 0xF8 then 4 else 0
    ensures Lead(c) == if c < 0x80 then c else if 0xC0 <= c < 0xE0 then c - 0xC0
                       else if 0xE0 <= c < 0xF0 then c - 0xE0 else c % 8
    ensures 0xF0 <= c < 0xF8 ==> Lead(c) == c - 0xF0
  {
  }

  /** The accumulated code point in closed form. */
  lemma PointIs(s: Bytes, n: nat)
    requires 1 <= n <= |s| && n <= 4
    requires forall k :: 1 <= k < n ==> Tail(s[k])
    ensures n == 1 ==> Point(s, n) == Lead(s[0])
    ensures n == 2 ==> Point(s, n) == Lead(s[0]) * 0x40 + Low(s[1])
    ensures n == 3 ==> Point(s, n) == Lead(s[0]) * 0x1000 + Low(s[1]) * 0x40 + Low(s[2])
    ensures n == 4 ==> Point(s, n) == Lead(s[0]) * 0x40000 + Low(s[1]) * 0x1000 + Low(s[2]) * 0x40 + Low(s[3])
  {
    if n >= 2 {
      assert s[n - 1] % 0x40 == Low(s[n - 1]);
      PointIs(s, n - 1);
    }
  }

  /** The arithmetic of the source accepts a prefix exactly when the table does. */
  lemma CharLenIsTable(s: Bytes, n: nat)
    requires |s| > 0
    ensures IsChar(s, n) <==> CharLen(s) == n > 0
  {
    var m := Announced(s[0]);
    LeadIs(s[0]);
    if 1 <= m <= |s| && forall k :: 1 <= k < m ==> Tail(s[k]) {
      PointIs(s, m);
    }
  }

  /** Exactly the octet strings of section 4 of RFC 3629 are accepted. */
  lemma ValidIsOctets(s: Bytes)
    ensures ValidUtf8(s) <==> Utf8Octets(s)
  {
    if ValidUtf8(s) {
      var chars := SplitChars(s);
      assert Utf8Octets(s);
    }
    if Utf8Octets(s) {
      var chars: seq<Bytes> :| AllChars(chars) && Join(chars) == s;
      JoinIsValid(chars);
    }
  }

  lemma {:induction false} SplitChars(s: Bytes) returns (chars: seq<Bytes>)
    requires ValidUtf8(s)
    ensures AllChars(chars) && Join(chars) == s
    decreases |s|
  {
    hide ValidUtf8, CharLen, Utf8Char, Join;
    if |s| == 0 {
      chars := [];
      NoChars();
    } else {
      var n := SplitFirst(s);
      var more := SplitChars(s[n..]);
      chars := [s[..n]] + more;
      JoinFront(s[..n], more);
    }
  }

  lemma NoChars()
    ensures AllChars([]) && Join([]) == []
  {
  }

  lemma JoinFront(c: Bytes, more: seq<Bytes>)
    ensures Join([c] + more) == c + Join(more)
  {
    assert ([c] + more)[1..] == more;
  }

  /** A valid string begins with a character, and is valid after it. */
  lemma SplitFirst(s: Bytes) returns (n: nat)
    requires |s| > 0 && ValidUtf8(s)
    ensures 0 < n <= |s| && Utf8Char(s[..n]) && ValidUtf8(s[n..])
  {
    n := CharLen(s);
    hide CharLen, IsChar;
    CharLenIsTable(s, n);
    FrontIsChar(s, n);
  }

  lemma FrontIsChar(s: Bytes, n: nat)
    requires IsChar(s, n)
    ensures Utf8Char(s[..n])
  {
  }

  lemma {:induction false} JoinIsValid(chars: seq<Bytes>)
    requires AllChars(chars)
    ensures ValidUtf8(Join(chars))
  {
    if |chars| > 0 {
      var c := chars[0];
      var rest := Join(chars[1..]);
      CharLenIsTable(c, |c|);
      CharLenCat(c, rest);
      assert (c + rest)[|c|..] == rest;
      JoinIsValid(chars[1..]);
    }
  }

  /** Every scalar value is written as one accepted character that reads back as itself. */
  lemma RuneReadsBack(cp: int, rest: Bytes)
    requires Scalar(cp)
    ensures CharLen(AppendRune(cp) + rest) == |AppendRune(cp)|
    ensures Point(AppendRune(cp), |AppendRune(cp)|) == cp
    ensures Utf8Char(AppendRune(cp))
  {
    var r := AppendRune(cp);
    if cp < 0x80 {
      Rune1(cp);
    } else if cp < 0x800 {
      Rune2(cp);
    } else if cp < 0x10000 {
      Rune3(cp);
    } else {
      Rune4(cp);
    }
    CharLenIsTable(r + rest, |r|);
  }

  lemma Rune1(cp: int)
    requires 0 <= cp < 0x80
    ensures Utf8Char(AppendRune(cp)) && Point(AppendRune(cp), 1) == cp
  {
  }

  lemma Rune2(cp: int)
    requires 0x80 <= cp < 0x800
    ensures Utf8Char(AppendRune(cp)) && Point(AppendRune(cp), 2) == cp
  {
    var a, b := cp / 0x40, cp % 0x40;
    var r := AppendRune(cp);
    assert r == [0xC0 + a, 0x80 + b];
    LeadIs(0xC0 + a);
    PointIs(r, 2);
  }

  lemma Rune3(cp: int)
    requires Scalar(cp) && 0x800 <= cp < 0x10000
    ensures Utf8Char(AppendRune(cp)) && Point(AppendRune(cp), 3) == cp
  {
    var a, b, c := cp / 0x1000, cp / 0x40 % 0x40, cp % 0x40;
    Parts3(cp, a, b, c);
    hide AppendRune;
    Three(cp, a, b, c);
  }

  lemma Parts3(cp: int, a: int, b: int, c: int)
    requires 0x800 <= cp < 0x10000 && a == cp / 0x1000 && b == cp / 0x40 % 0x40 && c == cp % 0x40
    ensures 0 <= a < 16 && 0 <= b < 0x40 && 0 <= c < 0x40 && cp == a * 0x1000 + b * 0x40 + c
    ensures AppendRune(cp) == [0xE0 + a, 0x80 + b, 0x80 + c]
  {
  }

  lemma Three(cp: int, a: int, b: int, c: int)
    requires 0 <= a < 16 && 0 <= b < 0x40 && 0 <= c < 0x40
    requires cp == a * 0x1000 + b * 0x40 + c && cp >= 0x800 && Scalar(cp)
    ensures var r: Bytes := [0xE0 + a, 0x80 + b, 0x80 + c]; Utf8Char(r) && Point(r, 3) == cp
  {
    var r: Bytes := [0xE0 + a, 0x80 + b, 0x80 + c];
    LeadIs(0xE0 + a);
    PointIs(r, 3);
  }

  lemma Rune4(cp: int)
    requires 0x10000 <= cp <= 0x10FFFF
    ensures Utf8Char(AppendRune(cp)) && Point(AppendRune(cp), 4) == cp
  {
    var a, b, c, d := cp / 0x40000, cp / 0x1000 % 0x40, cp / 0x40 % 0x40, cp % 0x40;
    Parts4(cp, a, b, c, d);
    hide AppendRune;
    Four(cp, a, b, c, d);
  }

  lemma Quotients(x: int)
    ensures x == x / 0x40 * 0x40 + x % 0x40 && 0 <= x % 0x40 < 0x40
    ensures x / 0x1000 == x / 0x40 / 0x40
    ensures x / 0x40000 == x / 0x1000 / 0x40
  {
  }

  lemma Parts4(cp: int, a: int, b: int, c: int, d: int)
    requires 0x10000 <= cp <= 0x10FFFF && a == cp / 0x40000 && b == cp / 0x1000 % 0x40 && c == cp / 0x40 % 0x40 && d == cp % 0x40
    ensures 0 <= a < 5 && 0 <= b < 0x40 && 0 <= c < 0x40 && 0 <= d < 0x40
    ensures cp == a * 0x40000 + b * 0x1000 + c * 0x40 + d
    ensures AppendRune(cp) == [0xF0 + a, 0x80 + b, 0x80 + c, 0x80 + d]
  {
    var e, f := cp / 0x40, cp / 0x1000;
    Quotients(cp);
    Quotients(e);
    Quotients(f);
    assert cp == e * 0x40 + d && e == f * 0x40 + c && f == a * 0x40 + b;
  }

  lemma Four(cp: int, a: int, b: int, c: int, d: int)
    requires 0 <= a < 5 && 0 <= b < 0x40 && 0 <= c < 0x40 && 0 <= d < 0x40
    requires cp == a * 0x40000 + b * 0x1000 + c * 0x40 + d && 0x10000 <= cp <= 0x10FFFF
    ensures var r: Bytes := [0xF0 + a, 0x80 + b, 0x80 + c, 0x80 + d]; Utf8Char(r) && Point(r, 4) == cp
  {
    var r: Bytes := [0xF0 + a, 0x80 + b, 0x80 + c, 0x80 + d];
    LeadIs(0xF0 + a);
    PointIs(r, 4);
  }

  /** An accepted character is the encoding of exactly one scalar value. */
  lemma CharIsRune(s: Bytes)
    requires Utf8Char(s)
    ensures Scalar(Point(s, |s|)) && AppendRune(Point(s, |s|)) == s
  {
    LeadIs(s[0]);
    PointIs(s, |s|);
    if |s| == 2 {
      Char2(s);
    } else if |s| == 3 {
      Char3(s);
    } else if |s| == 4 {
      Char4(s);
    }
  }

  lemma Char2(s: Bytes)
    requires |s| == 2 && Utf8Char(s)
    ensures Scalar(Point(s, 2)) && AppendRune(Point(s, 2)) == s
  {
    LeadIs(s[0]);
    PointIs(s, 2);
    Split2(Lead(s[0]), Low(s[1]));
  }

  lemma Char3(s: Bytes)
    requires |s| == 3 && Utf8Char(s)
    ensures Scalar(Point(s, 3)) && AppendRune(Point(s, 3)) == s
  {
    LeadIs(s[0]);
    PointIs(s, 3);
    WriteThree(Lead(s[0]), Low(s[1]), Low(s[2]));
  }

  lemma WriteThree(a: int, b: int, c: int)
    requires 0 <= a < 16 && 0 <= b < 0x40 && 0 <= c < 0x40
    requires 0x800 <= a * 0x1000 + b * 0x40 + c < 0x10000
    ensures AppendRune(a * 0x1000 + b * 0x40 + c) == [0xE0 + a, 0x80 + b, 0x80 + c]
  {
    Split3(a, b, c);
  }

  lemma Char4(s: Bytes)
    requires |s| == 4 && Utf8Char(s)
    ensures Scalar(Point(s, 4)) && AppendRune(Point(s, 4)) == s
  {
    LeadIs(s[0]);
    PointIs(s, 4);
    WriteFour(Lead(s[0]), Low(s[1]), Low(s[2]), Low(s[3]));
  }

  lemma WriteFour(a: int, b: int, c: int, d: int)
    requires 0 <= a < 8 && 0 <= b < 0x40 && 0 <= c < 0x40 && 0 <= d < 0x40
    requires 0x10000 <= a * 0x40000 + b * 0x1000 + c * 0x40 + d <= 0x10FFFF
    ensures AppendRune(a * 0x40000 + b * 0x1000 + c * 0x40 + d) == [0xF0 + a, 0x80 + b, 0x80 + c, 0x80 + d]
  {
    Split4(a, b, c, d);
  }

  lemma Split2(a: int, b: int)
    requires 0 <= b < 0x40
    ensures (a * 0x40 + b) / 0x40 == a && (a * 0x40 + b) % 0x40 == b
  {
  }

  lemma Split3(a: int, b: int, c: int)
    requires 0 <= b < 0x40 && 0 <= c < 0x40
    ensures var x := a * 0x1000 + b * 0x40 + c; x / 0x1000 == a && x / 0x40 % 0x40 == b && x % 0x40 == c
  {
    var x := a * 0x1000 + b * 0x40 + c;
    Split2(a * 0x40 + b, c);
    assert x / 0x40 == a * 0x40 + b;
    Split2(a, b);
    assert x / 0x1000 == a;
  }

  lemma Split4(a: int, b: int, c: int, d: int)
    requires 0 <= b < 0x40 && 0 <= c < 0x40 && 0 <= d < 0x40
    ensures var x := a * 0x40000 + b * 0x1000 + c * 0x40 + d;
            x / 0x40000 == a && x / 0x1000 % 0x40 == b && x / 0x40 % 0x40 == c && x % 0x40 == d
  {
    var x := a * 0x40000 + b * 0x1000 + c * 0x40 + d;
    Split3(a * 0x40 + b, c, d);
    assert x / 0x1000 == a * 0x40 + b;
    Split2(a, b);
    assert x / 0x40000 == a;
  }

  /** The prefix of a longer string is a character exactly when the shorter one starts with it. */
  lemma CharLenCat(a: Bytes, b: Bytes)
    requires |a| > 0
    ensures CharLen(a) > 0 ==> CharLen(a + b) == CharLen(a)
    ensures 0 < CharLen(a + b) <= |a| ==> CharLen(a) == CharLen(a + b)
  {
    var n := CharLen(a);
    var m := CharLen(a + b);
    CharLenIsTable(a, n);
    CharLenIsTable(a + b, n);
    CharLenIsTable(a, m);
    CharLenIsTable(a + b, m);
  }

  lemma {:induction false} ValidCat(a: Bytes, b: Bytes)
    requires ValidUtf8(a)
    ensures ValidUtf8(a + b) <==> ValidUtf8(b)
    decreases |a|
  {
    if |a| == 0 {
      assert a + b == b;
    } else {
      var n := CharLen(a);
      CharLenCat(a, b);
      assert (a + b)[n..] == a[n..] + b;
      ValidCat(a[n..], b);
    }
  }

  lemma StartIsNoTail(cp: int)
    requires Scalar(cp)
    ensures !Tail(AppendRune(cp)[0])
  {
  }

  /** No character reaches across a byte that is not a tail. */
  lemma NoTailNoCross(a: Bytes, b: Bytes)
    requires |a| > 0 && |b| > 0 && !Tail(b[0])
    ensures CharLen(a + b) <= |a|
  {
    assert (a + b)[|a|] == b[0];
  }

  /**
   * An escape can never complete a truncated raw sequence: where an escaped character
   * is spliced in, the bytes before it and the bytes after it must each be valid alone.
   */
  lemma {:induction false} EscapeSynchronises(a: Bytes, cp: int, b: Bytes)
    requires Scalar(cp)
    ensures ValidUtf8(a + (AppendRune(cp) + b)) <==> ValidUtf8(a) && ValidUtf8(b)
    decreases |a|
  {
    var r := AppendRune(cp);
    var s := a + (r + b);
    if |a| == 0 {
      assert s == r + b;
      RuneReadsBack(cp, b);
      assert s[|r|..] == b;
    } else {
      var n := CharLen(s);
      CharLenCat(a, r + b);
      StartIsNoTail(cp);
      NoTailNoCross(a, r + b);
      if n > 0 {
        assert s[n..] == a[n..] + (r + b);
        EscapeSynchronises(a[n..], cp, b);
      }
    }
  }

  lemma ValidStep(b: Bytes, i: nat)
    requires i < |b|
    ensures var n := CharLen(b[i..]); i + n <= |b| && (ValidUtf8(b[i..]) <==> n > 0 && ValidUtf8(b[i + n..]))
  {
    hide CharLen;
    var n := CharLen(b[i..]);
    assert b[i..][n..] == b[i + n..];
  }

  lemma NothingIsValid()
    ensures ValidUtf8([])
  {
  }

  /** The loop of the source over the whole string. */
  method CheckUtf8(b: Bytes) returns (ok: bool)
    ensures ok <==> Utf8Octets(b)
  {
    ValidIsOctets(b);
    hide CharLen, ValidUtf8, Utf8Octets;
    var i := 0;
    assert b[0..] == b;
    while i < |b|
      invariant 0 <= i <= |b|
      invariant ValidUtf8(b) <==> ValidUtf8(b[i..])
      decreases |b| - i
    {
      var n := CheckChar(b, i);
      ValidStep(b, i);
      if n == 0 {
        return false;
      }
      i := i + n;
    }
    assert b[i..] == [];
    NothingIsValid();
    return true;
  }

  /** The body of the loop: the length of the character at i, zero to refuse. */
  method CheckChar(b: Bytes, i: nat) returns (n: nat)
    requires i < |b|
    ensures n == CharLen(b[i..])
  {
    var c: int := b[i];
    ghost var rest := b[i..];
    LeadIs(c);
    if c < 0x80 {
      PointIs(rest, 1);
      return 1;
    }
    n := Announced(c);
    var cp := Lead(c);
    if n == 0 || i + n > |b| {
      return 0;
    }
    var k := 1;
    while k < n
      invariant 1 <= k <= n
      invariant cp == Point(rest, k)
      invariant forall j :: 1 <= j < k ==> Tail(rest[j])
    {
      var t: int := b[i + k];
      if t / 0x40 != 0x2 {
        assert !Tail(rest[k]);
        return 0;
      }
      cp := cp * 0x40 + t % 0x40;
      k := k + 1;
    }
    PointIs(rest, n);
    if cp < Lowest(n) || cp > 0x10FFFF || 0xD800 <= cp <= 0xDFFF {
      return 0;
    }
  }
}
