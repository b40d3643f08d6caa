/** Bytes, outcomes and the two ways a piece of text sits inside a buffer. */
module Bytes {
  type byte = x: int | 0 <= x < 256
  type Bytes = seq<byte>

  datatype Option<+T> = None | Some(value: T)

  /** The codec's refusal words, one constructor each. */
  datatype Word =
    | Malformed
    | BadString
    | NumberSpelling
    | WrongType
    | DepthExceeded
    | DuplicateField
    | UnknownField
    | MissingField
    | BadEnum
    | TrailingBytes

  /** What a reader step yields: a value and the position after it, or a word and an offset. */
  datatype Res<+T> = Ok(value: T, pos: nat) | Err(word: Word, off: nat)

  /** The bytes of an ASCII literal. */
  function Ascii(s: string): (r: Bytes)
    requires forall i :: 0 <= i < |s| ==> s[i] as int < 128
  {
    seq(|s|, i requires 0 <= i < |s| => s[i] as int)
  }

  /** The byte at p, or zero past the end. */
  function At(b: Bytes, p: nat): byte {
    if p < |b| then b[p] else 0
  }

  /** The bytes e stand in b at p. */
  predicate StartsAt(b: Bytes, p: nat, e: Bytes) {
    p + |e| <= |b| && b[p..p + |e|] == e
  }

  lemma StartsCat(b: Bytes, p: nat, x: Bytes, y: Bytes)
    ensures StartsAt(b, p, x + y) <==> StartsAt(b, p, x) && StartsAt(b, p + |x|, y)
  {
    if StartsAt(b, p, x + y) {
      assert b[p..p + |x|] == (x + y)[..|x|] == x;
      assert b[p + |x|..p + |x| + |y|] == (x + y)[|x|..] == y;
    }
    if StartsAt(b, p, x) && StartsAt(b, p + |x|, y) {
      assert b[p..p + |x| + |y|] == b[p..p + |x|] + b[p + |x|..p + |x| + |y|];
    }
  }

  lemma StartsHead(b: Bytes, p: nat, e: Bytes)
    requires StartsAt(b, p, e) && |e| > 0
    ensures At(b, p) == e[0] && StartsAt(b, p + 1, e[1..])
  {
    assert e == [e[0]] + e[1..];
    StartsCat(b, p, [e[0]], e[1..]);
    assert b[p..p + 1][0] == e[0];
  }

  lemma StartsOne(b: Bytes, p: nat, c: byte)
    ensures StartsAt(b, p, [c]) <==> p < |b| && b[p] == c
  {
    if p < |b| {
      assert b[p..p + 1] == [b[p]];
    }
  }

  /** The blanks the reader skips. */
  predicate Blank(c: byte) {
    c == 0x20 || c == 0x09 || c == 0x0A || c == 0x0D
  }

  predicate AllBlank(s: Bytes) {
    forall i :: 0 <= i < |s| ==> Blank(s[i])
  }

  function Ws(b: Bytes, p: nat): (q: nat)
    requires p <= |b|
    ensures p <= q <= |b|
    ensures AllBlank(b[p..q])
    ensures q < |b| ==> !Blank(b[q])
    decreases |b| - p
  {
    if p < |b| && Blank(b[p]) then
      var q := Ws(b, p + 1);
      assert b[p..q] == [b[p]] + b[p + 1..q];
      q
    else p
  }

  lemma WsOver(b: Bytes, p: nat, w: Bytes)
    requires AllBlank(w) && StartsAt(b, p, w) && !Blank(At(b, p + |w|))
    ensures Ws(b, p) == p + |w|
    decreases |w|
  {
    if |w| > 0 {
      StartsHead(b, p, w);
      WsOver(b, p + 1, w[1..]);
    }
  }

  predicate Digit(c: byte) {
    0x30 <= c <= 0x39
  }

  predicate AllDigits(s: Bytes) {
    forall i :: 0 <= i < |s| ==> Digit(s[i])
  }
}
