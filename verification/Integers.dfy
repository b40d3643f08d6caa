/** Integers on the wire: one spelling for each value, in Go and in Python. */
module Integers {
  import opened Bytes

  const MIN64: int := -0x8000_0000_0000_0000
  const MAX64: int := 0x7FFF_FFFF_FFFF_FFFF
  const TWO64: int := 0x1_0000_0000_0000_0000
  /** The accumulator may take another digit only up to here. */
  const GUARD: int := 922337203685477580
  const MINUS: byte := 0x2D
  const ZERO: byte := 0x30

  function Digits(u: nat): (r: Bytes)
    ensures |r| > 0 && AllDigits(r)
  {
    if u < 10 then [ZERO + u] else Digits(u / 10) + [ZERO + u % 10]
  }

  /** The canonical spelling. */
  function Num(n: int): (r: Bytes) {
    if n < 0 then [MINUS] + Digits(-n) else Digits(n)
  }

  function Val(s: Bytes): nat
    requires AllDigits(s)
  {
    if |s| == 0 then 0 else Val(s[..|s| - 1]) * 10 + (s[|s| - 1] - ZERO)
  }

  predicate Canonical(s: Bytes) {
    |s| > 0 && AllDigits(s) && (|s| > 1 ==> s[0] != ZERO)
  }

  lemma {:induction false} DigitsAreCanonical(u: nat)
    ensures Canonical(Digits(u)) && Val(Digits(u)) == u && (Digits(u)[0] == ZERO <==> u == 0)
  {
    if u >= 10 {
      DigitsAreCanonical(u / 10);
      assert Digits(u)[..|Digits(u)| - 1] == Digits(u / 10);
    } else {
      assert Digits(u)[..0] == [];
    }
  }

  lemma {:induction false} CanonicalIsDigits(s: Bytes)
    requires Canonical(s)
    ensures Digits(Val(s)) == s
  {
    var t := s[..|s| - 1];
    if |s| == 1 {
      assert t == [];
    } else {
      CanonicalIsDigits(t);
      DigitsAreCanonical(Val(t));
      assert s == t + [s[|s| - 1]];
    }
  }

  function Signed(neg: bool, u: int): int {
    if neg then -u else u
  }

  predicate Continues(c: byte) {
    Digit(c) || c == 0x2E || c == 0x65 || c == 0x45
  }

  /** Go's digit loop: the accumulator is checked before each digit is taken. */
  function GoRun(b: Bytes, p: nat, u: nat): (r: Res<nat>)
    requires p <= |b| && u < TWO64
    ensures r.Ok? ==> p <= r.pos <= |b| && r.value < TWO64
    ensures r.Err? ==> r.off <= |b| && r.word == NumberSpelling
    decreases |b| - p
  {
    if !Digit(At(b, p)) then Ok(u, p)
    else if u > GUARD then Err(NumberSpelling, p)
    else GoRun(b, p + 1, u * 10 + (At(b, p) - ZERO))
  }

  /** The decisions made once the digits are taken, on the sign and the magnitude. */
  function Decide(b: Bytes, neg: bool, u: nat, q: nat, min: int, max: int): Res<int> {
    if Continues(At(b, q)) then Err(NumberSpelling, q)
    else if neg && u == 0 then Err(NumberSpelling, q)
    else if !(neg && u == 0x8000_0000_0000_0000) && u > MAX64 then Err(NumberSpelling, q)
    else
      var n := Signed(neg, u);
      if n < min || n > max then Err(NumberSpelling, q) else Ok(n, q)
  }

  function Integer(b: Bytes, p: nat, min: int, max: int): (r: Res<int>)
    requires p <= |b|
    ensures r.Ok? ==> p < r.pos <= |b|
    ensures r.Err? ==> r.off <= |b| && r.word != TrailingBytes
  {
    var c := At(b, p);
    if c != MINUS && !Digit(c) then Err(WrongType, p)
    else
      var neg := c == MINUS;
      var s := if neg then p + 1 else p;
      var d := At(b, s);
      if !Digit(d) then Err(Malformed, s)
      else if d == ZERO then Decide(b, neg, 0, s + 1, min, max)
      else
        match GoRun(b, s, 0)
        case Err(w, o) => Err(w, o)
        case Ok(u, q) => Decide(b, neg, u, q, min, max)
  }

  /** Where the digits from p end. */
  function RunEnd(b: Bytes, p: nat): (q: nat)
    requires p <= |b|
    ensures p <= q <= |b| && !Digit(At(b, q))
    ensures AllDigits(b[p..q])
    decreases |b| - p
  {
    if Digit(At(b, p)) then
      var q := RunEnd(b, p + 1);
      assert b[p..q] == [b[p]] + b[p + 1..q];
      q
    else p
  }

  /** Python reads all the digits first, then counts them, then converts without bound. */
  function PyInteger(b: Bytes, p: nat, low: int, high: int): (r: Res<int>)
    requires p <= |b|
    ensures r.Ok? ==> p < r.pos <= |b|
    ensures r.Err? ==> r.off <= |b| && r.word != TrailingBytes
  {
    var c := At(b, p);
    if c != MINUS && !Digit(c) then Err(WrongType, p)
    else
      var neg := c == MINUS;
      var s := if neg then p + 1 else p;
      if !Digit(At(b, s)) then Err(Malformed, s)
      else
        var q := if At(b, s) == ZERO then s + 1 else RunEnd(b, s);
        if Continues(At(b, q)) then Err(NumberSpelling, q)
        else if q - s > 19 then Err(NumberSpelling, q)
        else
          var u := Val(b[s..q]);
          if neg && u == 0 then Err(NumberSpelling, q)
          else
            var n := Signed(neg, u);
            if n < low || n > high then Err(NumberSpelling, q) else Ok(n, q)
  }

  /** What one spelling at p means: the number, where it ends, and that it stops there. */
  predicate Spelled(b: Bytes, p: nat, n: int, q: nat) {
    StartsAt(b, p, Num(n)) && q == p + |Num(n)| && !Continues(At(b, q))
  }

  lemma ValSnoc(b: Bytes, s: nat, p: nat)
    requires s <= p < |b| && AllDigits(b[s..p]) && Digit(b[p])
    ensures AllDigits(b[s..p + 1]) && Val(b[s..p + 1]) == Val(b[s..p]) * 10 + (b[p] - ZERO)
  {
    assert b[s..p + 1] == b[s..p] + [b[p]];
    assert b[s..p + 1][..p - s] == b[s..p];
  }

  /** The loop either converts the whole run or stops because the run is too big. */
  lemma {:induction false} GoRunConverts(b: Bytes, s: nat, p: nat, u: nat)
    requires s <= p <= |b| && u < TWO64 && AllDigits(b[s..p]) && u == Val(b[s..p])
    ensures var q := RunEnd(b, p);
            AllDigits(b[s..q])
            && (GoRun(b, p, u).Ok? ==> GoRun(b, p, u) == Ok(Val(b[s..q]), q))
            && (GoRun(b, p, u).Err? ==> Val(b[s..q]) > 0x8000_0000_0000_0000)
            && Val(b[s..q]) >= u
    decreases |b| - p
  {
    if Digit(At(b, p)) {
      ValSnoc(b, s, p);
      if u <= GUARD {
        GoRunConverts(b, s, p + 1, u * 10 + (b[p] - ZERO));
      } else {
        ValGrows(b, s, p + 1);
        assert RunEnd(b, p) == RunEnd(b, p + 1);
      }
    }
  }

  lemma {:induction false} ValGrows(b: Bytes, s: nat, p: nat)
    requires s <= p <= |b| && AllDigits(b[s..p])
    ensures AllDigits(b[s..RunEnd(b, p)]) && Val(b[s..RunEnd(b, p)]) >= Val(b[s..p])
    decreases |b| - p
  {
    if Digit(At(b, p)) {
      ValSnoc(b, s, p);
      ValGrows(b, s, p + 1);
    }
  }

  /** A run that starts with a digit other than zero is the spelling of its value. */
  lemma RunIsDigits(b: Bytes, s: nat)
    requires s < |b| && Digit(b[s]) && b[s] != ZERO
    ensures var t := b[s..RunEnd(b, s)]; Canonical(t) && Digits(Val(t)) == t && Val(t) > 0
  {
    var t := b[s..RunEnd(b, s)];
    assert t[0] == b[s];
    CanonicalIsDigits(t);
    DigitsAreCanonical(Val(t));
  }

  lemma ZeroRun(b: Bytes, s: nat)
    requires s < |b| && b[s] == ZERO
    ensures b[s..s + 1] == Digits(0) && Val(b[s..s + 1]) == 0
  {
    assert b[s..s + 1][..0] == [];
  }

  /** Where the digits of an integer begin, and where they end. */
  function Begin(b: Bytes, p: nat): nat {
    if At(b, p) == MINUS then p + 1 else p
  }

  function End(b: Bytes, p: nat): nat
    requires Begin(b, p) < |b|
  {
    if b[Begin(b, p)] == ZERO then Begin(b, p) + 1 else RunEnd(b, Begin(b, p))
  }

  /** The shape both readers look for: an optional minus and a digit. */
  predicate Shaped(b: Bytes, p: nat) {
    Begin(b, p) < |b| && Digit(b[Begin(b, p)])
  }

  lemma ShapeIsDigits(b: Bytes, p: nat)
    requires p <= |b| && Shaped(b, p)
    ensures var s, e := Begin(b, p), End(b, p);
            s < e <= |b| && AllDigits(b[s..e]) && Digits(Val(b[s..e])) == b[s..e] && (Val(b[s..e]) == 0 <==> b[s] == ZERO)
  {
    var s := Begin(b, p);
    if b[s] == ZERO {
      ZeroRun(b, s);
    } else {
      RunIsDigits(b, s);
    }
  }

  /** The magnitude the digits at p spell. */
  function Magnitude(b: Bytes, p: nat): (u: nat)
    requires p <= |b| && Shaped(b, p)
    ensures Begin(b, p) < End(b, p) <= |b| && AllDigits(b[Begin(b, p)..End(b, p)])
    ensures u == Val(b[Begin(b, p)..End(b, p)])
  {
    ShapeIsDigits(b, p);
    Val(b[Begin(b, p)..End(b, p)])
  }

  /** What a spelling looks like to a reader. */
  predicate Fits(b: Bytes, p: nat, n: int, q: nat)
    requires p <= |b|
  {
    && Shaped(b, p)
    && q == End(b, p)
    && n == Signed(At(b, p) == MINUS, Magnitude(b, p))
    && !(At(b, p) == MINUS && n == 0)
    && !Continues(At(b, q))
  }

  lemma SpelledFits(b: Bytes, p: nat, n: int, q: nat)
    requires p <= |b| && Spelled(b, p, n, q)
    ensures Fits(b, p, n, q)
  {
    var m: nat := if n < 0 then -n else n;
    var s := if n < 0 then p + 1 else p;
    SpelledParts(b, p, n, m, s, q);
    hide Digits, Val, RunEnd, Spelled, StartsAt, Fits;
    DigitsFit(b, s, m, q);
    FitsWhen(b, p, n, m, s, q);
  }

  /** The sign, if there is one, and the digits after it. */
  lemma SpelledParts(b: Bytes, p: nat, n: int, m: nat, s: nat, q: nat)
    requires Spelled(b, p, n, q) && m == (if n < 0 then -n else n) && s == (if n < 0 then p + 1 else p)
    ensures StartsAt(b, s, Digits(m)) && q == s + |Digits(m)| && !Continues(At(b, q))
    ensures n < 0 ==> At(b, p) == MINUS
  {
    hide Digits, StartsAt;
    if n < 0 {
      StartsCat(b, p, [MINUS], Digits(m));
      StartsOne(b, p, MINUS);
    }
  }

  lemma FitsWhen(b: Bytes, p: nat, n: int, m: nat, s: nat, q: nat)
    requires s < q <= |b| && Digit(b[s]) && b[s] != MINUS && !Continues(At(b, q))
    requires s == (if n < 0 then p + 1 else p) && (n < 0 ==> At(b, p) == MINUS) && m == (if n < 0 then -n else n)
    requires q == if b[s] == ZERO then s + 1 else RunEnd(b, s)
    requires AllDigits(b[s..q]) && Val(b[s..q]) == m
    ensures Fits(b, p, n, q)
  {
    hide RunEnd, Val, Digits;
  }

  lemma DigitsFit(b: Bytes, s: nat, m: nat, q: nat)
    requires StartsAt(b, s, Digits(m)) && q == s + |Digits(m)| && !Continues(At(b, q))
    ensures s < q <= |b| && Digit(b[s]) && b[s] != MINUS && (b[s] == ZERO <==> m == 0)
    ensures q == if b[s] == ZERO then s + 1 else RunEnd(b, s)
    ensures b[s..q] == Digits(m) && AllDigits(b[s..q]) && Val(b[s..q]) == m
  {
    DigitsAreCanonical(m);
    StartsHead(b, s, Digits(m));
    if m > 0 {
      RunEndIs(b, s, q);
    }
  }

  lemma FitsSpelled(b: Bytes, p: nat, n: int, q: nat)
    requires p <= |b| && Fits(b, p, n, q)
    ensures Spelled(b, p, n, q)
  {
    var s := Begin(b, p);
    ShapeIsDigits(b, p);
    if At(b, p) == MINUS {
      assert b[p..q] == [MINUS] + b[s..q];
    }
  }

  lemma {:induction false} RunEndIs(b: Bytes, p: nat, q: nat)
    requires p <= q <= |b| && AllDigits(b[p..q]) && !Digit(At(b, q))
    ensures RunEnd(b, p) == q
    decreases q - p
  {
    if p < q {
      assert b[p] == b[p..q][0];
      assert b[p + 1..q] == b[p..q][1..];
      RunEndIs(b, p + 1, q);
    }
  }

  lemma IntegerFits(b: Bytes, p: nat, min: int, max: int, n: int, q: nat)
    requires p <= |b| && MIN64 <= min && max <= MAX64
    ensures Integer(b, p, min, max) == Ok(n, q) <==> min <= n <= max && Fits(b, p, n, q)
  {
    if Shaped(b, p) {
      var s := Begin(b, p);
      ShapeIsDigits(b, p);
      if b[s] != ZERO {
        assert b[s..s] == [];
        GoRunConverts(b, s, s, 0);
      }
    }
  }

  /** Every value in range is read from its one canonical spelling, and from nothing else. */
  lemma IntegerIsNum(b: Bytes, p: nat, min: int, max: int, n: int, q: nat)
    requires p <= |b| && MIN64 <= min && max <= MAX64
    ensures Integer(b, p, min, max) == Ok(n, q) <==> min <= n <= max && Spelled(b, p, n, q)
  {
    IntegerFits(b, p, min, max, n, q);
    if Spelled(b, p, n, q) {
      SpelledFits(b, p, n, q);
    }
    if Fits(b, p, n, q) {
      FitsSpelled(b, p, n, q);
    }
  }

  function Pow10(k: nat): nat {
    if k == 0 then 1 else 10 * Pow10(k - 1)
  }

  lemma {:induction false} LongIsBig(s: Bytes)
    requires AllDigits(s) && |s| > 0 && s[0] != ZERO
    ensures Val(s) >= Pow10(|s| - 1)
    decreases |s|
  {
    var t := s[..|s| - 1];
    if |s| > 1 {
      LongIsBig(t);
    }
  }

  lemma {:induction false} PowGrows(j: nat, k: nat)
    requires j <= k
    ensures Pow10(j) <= Pow10(k)
    decreases k
  {
    if j < k {
      PowGrows(j, k - 1);
    }
  }

  lemma Pow19()
    ensures Pow10(19) == 10000000000000000000
  {
    assert Pow10(6) == 1000000;
    assert Pow10(12) == 1000000000000;
    assert Pow10(18) == 1000000000000000000;
  }

  lemma TwentyDigits(s: Bytes)
    requires Canonical(s) && |s| > 19
    ensures Val(s) > 0x8000_0000_0000_0000
  {
    LongIsBig(s);
    PowGrows(19, |s| - 1);
    Pow19();
  }

  lemma PyIntegerFits(b: Bytes, p: nat, min: int, max: int, n: int, q: nat)
    requires p <= |b| && MIN64 <= min && max <= MAX64
    ensures PyInteger(b, p, min, max) == Ok(n, q) <==> min <= n <= max && Fits(b, p, n, q)
  {
    if Shaped(b, p) {
      var s, e := Begin(b, p), End(b, p);
      ShapeIsDigits(b, p);
      if b[s] != ZERO && e - s > 19 {
        RunIsDigits(b, s);
        TwentyDigits(b[s..e]);
      }
    }
  }

  /** Both languages accept the same spellings with the same values and refuse with the same words. */
  lemma PythonAgrees(b: Bytes, p: nat, min: int, max: int)
    requires p <= |b| && MIN64 <= min && max <= MAX64
    ensures var go, py := Integer(b, p, min, max), PyInteger(b, p, min, max);
            (go.Ok? ==> py == go) && (py.Ok? ==> go == py) && (go.Err? ==> py.Err? && py.word == go.word)
  {
    var go, py := Integer(b, p, min, max), PyInteger(b, p, min, max);
    if go.Ok? {
      IntegerFits(b, p, min, max, go.value, go.pos);
      PyIntegerFits(b, p, min, max, go.value, go.pos);
    }
    if py.Ok? {
      IntegerFits(b, p, min, max, py.value, py.pos);
      PyIntegerFits(b, p, min, max, py.value, py.pos);
    }
  }

  /** integer(num(n)) is n for every 64-bit n, the minimum included. */
  lemma NumReadsBack(b: Bytes, p: nat, min: int, max: int, n: int)
    requires MIN64 <= min <= n <= max <= MAX64
    requires StartsAt(b, p, Num(n)) && !Continues(At(b, p + |Num(n)|))
    ensures Integer(b, p, min, max) == Ok(n, p + |Num(n)|)
  {
    IntegerIsNum(b, p, min, max, n, p + |Num(n)|);
  }

  /** The digits of m, of which the writer still has those of u to put in front of the tail. */
  predicate Written(m: nat, u: nat, tail: Bytes) {
    Digits(m) == if u > 0 then Digits(u) + tail else tail
  }

  lemma OneMore(m: nat, u: nat, tail: Bytes, k: int)
    requires 0 <= k && 0 < u < Pow10(k) && Written(m, u, tail)
    ensures Written(m, u / 10, [ZERO + u % 10] + tail) && k >= 1 && u / 10 < Pow10(k - 1)
  {
  }

  /** Conversion to an unsigned word wraps, and so does its negation: the magnitude comes out. */
  function Unsigned(n: int): int {
    var word := if n < 0 then n + TWO64 else n;
    if n < 0 then (TWO64 - word) % TWO64 else word
  }

  lemma UnsignedIsMagnitude(n: int)
    requires MIN64 <= n <= MAX64
    ensures Unsigned(n) == (if n < 0 then -n else n) < TWO64
  {
  }

  /** The writer's loop over its 24-byte buffer. */
  method WriteNum(out: Bytes, n: int) returns (r: Bytes)
    requires MIN64 <= n <= MAX64
    ensures r == out + Num(n)
  {
    if n == 0 {
      return out + [ZERO];
    }
    UnsignedIsMagnitude(n);
    var u: nat := Unsigned(n);
    var tail := WriteDigits(u);
    r := if n < 0 then out + [MINUS] else out;
    r := r + tail;
    assert n < 0 ==> r == out + ([MINUS] + tail);
  }

  /** Digits go in from the back; twenty of the twenty-four places are enough. */
  method WriteDigits(m: nat) returns (r: Bytes)
    requires 0 < m < TWO64
    ensures r == Digits(m)
  {
    var d := new byte[24];
    var p := d.Length;
    var u: nat := m;
    TwentyIsEnough();
    assert Written(m, u, d[p..]) by {
      assert d[p..] == [];
    }
    hide Pow10, Digits, Written;
    while u > 0
      invariant 4 <= p <= 24 && u < Pow10(p - 4)
      invariant Written(m, u, d[p..])
    {
      ghost var tail := d[p..];
      OneMore(m, u, tail, p - 4);
      p := p - 1;
      d[p] := ZERO + u % 10;
      assert d[p..] == [ZERO + u % 10] + tail;
      u := u / 10;
    }
    WrittenOut(m, d[p..]);
    return d[p..];
  }

  lemma WrittenOut(m: nat, tail: Bytes)
    requires Written(m, 0, tail)
    ensures Digits(m) == tail
  {
  }

  lemma TwentyIsEnough()
    ensures Pow10(20) > TWO64
  {
    Pow19();
  }
}
