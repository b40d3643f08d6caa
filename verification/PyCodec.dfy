/** The Python reader's own ways of taking a string and an integer. */
module PyCodec {
  import opened Bytes
  import I = Integers
  import Reader
  import S = Strings
  import T = Texts
  import Utf8

  /** find: the first quote from p on, or the length if there is none. */
  method FindQuote(b: Bytes, p: nat) returns (end: nat)
    requires p <= |b|
    ensures p <= end <= |b| && (end < |b| ==> b[end] == S.QUOTE)
    ensures forall i :: p <= i < end ==> b[i] != S.QUOTE
  {
    end := p;
    while end < |b| && b[end] != S.QUOTE
      invariant p <= end <= |b|
      invariant forall i :: p <= i < end ==> b[i] != S.QUOTE
    {
      end := end + 1;
    }
  }

  /** A backslash in the chunk. */
  method HasBackslash(chunk: Bytes) returns (found: bool)
    ensures found <==> S.BACKSLASH in chunk
  {
    var i := 0;
    while i < |chunk|
      invariant 0 <= i <= |chunk|
      invariant S.BACKSLASH !in chunk[..i]
    {
      if chunk[i] == S.BACKSLASH {
        return true;
      }
      i := i + 1;
    }
    assert chunk[..i] == chunk;
    return false;
  }

  method Least(chunk: Bytes) returns (m: byte)
    requires |chunk| > 0
    ensures m in chunk && forall i :: 0 <= i < |chunk| ==> m <= chunk[i]
  {
    m := chunk[0];
    var i := 1;
    while i < |chunk|
      invariant 1 <= i <= |chunk| && m in chunk
      invariant forall j :: 0 <= j < i ==> m <= chunk[j]
    {
      if chunk[i] < m {
        m := chunk[i];
      }
      i := i + 1;
    }
  }

  /** A chunk without escapes or control bytes, up to a quote, is what the bytewise path reads there. */
  lemma PlainLiteral(b: Bytes, p: nat, end: nat)
    requires p < end < |b| && b[p] == S.QUOTE && b[end] == S.QUOTE
    requires forall i :: p < i < end ==> T.Plain(b[i])
    ensures var chunk := b[p + 1..end];
      S.Str(b, p) == if Utf8.ValidUtf8(chunk) then Ok(chunk, end + 1) else Err(BadString, end + 1)
  {
    hide Utf8.ValidUtf8;
    T.PlainRun(b, p + 1, b[p + 1..end]);
    assert b[p + 1..end] + [] == b[p + 1..end];
  }

  /**
   * The fast path takes a literal without escapes in one piece; anything else goes byte by byte.
   * Value and final position, or word and offset, are those of the bytewise path either way.
   */
  method String(r: Reader.Reader) returns (s: Res<Bytes>)
    requires r.Valid()
    modifies r`pos
    ensures r.Valid() && r.pos == Reader.Where(s) && s == S.Str(r.buf, old(r.pos))
  {
    if r.At() != S.QUOTE {
      return r.Refuse(WrongType);
    }
    hide S.Str, S.StrBody, Utf8.ValidUtf8;
    var end := FindQuote(r.buf, r.pos + 1);
    if end < |r.buf| {
      var chunk := r.buf[r.pos + 1..end];
      var escaped := HasBackslash(chunk);
      var plain := !escaped;
      if plain && |chunk| > 0 {
        var least := Least(chunk);
        plain := least >= 0x20;
      }
      if plain {
        PlainLiteral(r.buf, r.pos, end);
        r.pos := end + 1;
        var ok := Utf8.CheckUtf8(chunk);
        Utf8.ValidIsOctets(chunk);
        if !ok {
          return r.Refuse(BadString);
        }
        return Ok(chunk, r.pos);
      }
    }
    s := r.Str();
  }

  /** All the digits first, then their count, then the conversion without bound. */
  method Integer(r: Reader.Reader, low: int, high: int) returns (n: Res<int>)
    requires r.Valid()
    modifies r`pos
    ensures r.Valid() && r.pos == Reader.Where(n) && n == I.PyInteger(r.buf, old(r.pos), low, high)
  {
    var c := r.At();
    if c != I.MINUS && !Digit(c) {
      return r.Refuse(WrongType);
    }
    var negative := c == I.MINUS;
    if negative {
      r.pos := r.pos + 1;
    }
    if !Digit(r.At()) {
      return r.Refuse(Malformed);
    }
    var start := r.pos;
    if r.At() == I.ZERO {
      r.pos := r.pos + 1;
    } else {
      while Digit(r.At())
        invariant start <= r.pos <= |r.buf| && I.RunEnd(r.buf, r.pos) == I.RunEnd(r.buf, start)
        decreases |r.buf| - r.pos
      {
        r.pos := r.pos + 1;
      }
    }
    if I.Continues(r.At()) {
      return r.Refuse(NumberSpelling);
    }
    if r.pos - start > 19 {
      return r.Refuse(NumberSpelling);
    }
    assert AllDigits(r.buf[start..r.pos]) by {
      I.ShapeIsDigits(r.buf, old(r.pos));
    }
    var u := I.Val(r.buf[start..r.pos]);
    if negative && u == 0 {
      return r.Refuse(NumberSpelling);
    }
    var v := I.Signed(negative, u);
    if v < low || v > high {
      return r.Refuse(NumberSpelling);
    }
    return Ok(v, r.pos);
  }
}
