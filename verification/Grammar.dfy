/** JSON texts as syntax trees, after sections 2 to 7 of RFC 8259. */
module Grammar {
  import opened Bytes
  import opened Utf8
  import opened Strings

  /** One `char` of section 7: a raw character, a two-byte escape, or \uXXXX. */
  datatype Elem = Raw(cp: int) | Slash(c: byte) | Unit(h: Bytes)
  datatype Text = End | Char(e: Elem, rest: Text)

  datatype Exp = Exp(mark: byte, sign: Option<byte>, digits: Bytes)
  datatype Num = Num(neg: bool, whole: Bytes, frac: Option<Bytes>, exp: Option<Exp>)

  /** A member name with the blanks before and after its colon; array elements have none. */
  datatype Key = NoKey | Key(t: Text, mid: Bytes, gap: Bytes)
  datatype Member = Member(before: Bytes, key: Key, v: Json, after: Bytes)
  datatype Members = Last(m: Member) | More(m: Member, rest: Members)
  datatype Json =
    | Literal(word: Bytes)
    | String(t: Text)
    | Number(n: Num)
    | Empty(isObj: bool, blank: Bytes)
    | Full(isObj: bool, ms: Members)

  /** Section 2: insignificant blanks are space, horizontal tab, line feed and carriage return. */
  predicate Space(c: byte) {
    c == 0x20 || c == 0x09 || c == 0x0A || c == 0x0D
  }

  predicate AllSpace(s: Bytes) {
    forall i :: 0 <= i < |s| ==> Space(s[i])
  }

  /** Section 7: the two-byte escapes, and what each stands for. */
  function TwoByte(c: byte): Option<byte> {
    match c
    case 0x22 => Some(0x22)
    case 0x5C => Some(0x5C)
    case 0x2F => Some(0x2F)
    case 0x62 => Some(0x08)
    case 0x66 => Some(0x0C)
    case 0x6E => Some(0x0A)
    case 0x72 => Some(0x0D)
    case 0x74 => Some(0x09)
    case _ => None
  }

  /** Section 7: the hexadecimal digits, letters in either case. */
  function Nibble(c: byte): Option<int> {
    match c
    case 0x30 => Some(0)
    case 0x31 => Some(1)
    case 0x32 => Some(2)
    case 0x33 => Some(3)
    case 0x34 => Some(4)
    case 0x35 => Some(5)
    case 0x36 => Some(6)
    case 0x37 => Some(7)
    case 0x38 => Some(8)
    case 0x39 => Some(9)
    case 0x41 => Some(10)
    case 0x42 => Some(11)
    case 0x43 => Some(12)
    case 0x44 => Some(13)
    case 0x45 => Some(14)
    case 0x46 => Some(15)
    case 0x61 => Some(10)
    case 0x62 => Some(11)
    case 0x63 => Some(12)
    case 0x64 => Some(13)
    case 0x65 => Some(14)
    case 0x66 => Some(15)
    case _ => None
  }

  const QUOTATION_MARK: byte := 0x22
  const ESCAPE: byte := 0x5C
  const UNICODE_MARK: byte := 0x75
  const LITERAL_TRUE: Bytes := [0x74, 0x72, 0x75, 0x65]
  const LITERAL_FALSE: Bytes := [0x66, 0x61, 0x6C, 0x73, 0x65]
  const LITERAL_NULL: Bytes := [0x6E, 0x75, 0x6C, 0x6C]
  const VALUE_SEPARATOR: byte := 0x2C
  const NAME_SEPARATOR: byte := 0x3A
  const DECIMAL_POINT: byte := 0x2E
  const MINUS_SIGN: byte := 0x2D
  const ZERO_DIGIT: byte := 0x30

  function BeginMark(isObj: bool): byte {
    if isObj then 0x7B else 0x5B
  }

  function EndMark(isObj: bool): byte {
    if isObj then 0x7D else 0x5D
  }

  // ---------------------------------------------------------------- strings

  predicate FourHex(h: Bytes) {
    |h| == 4 && forall i :: 0 <= i < 4 ==> Nibble(h[i]).Some?
  }

  /** The value of four hex digits. */
  function HexOf(h: Bytes): (u: int)
    ensures 0 <= u < 0x10000
  {
    if FourHex(h) then
      Nibble(h[0]).value * 4096 + Nibble(h[1]).value * 256 + Nibble(h[2]).value * 16 + Nibble(h[3]).value
    else 0
  }

  predicate GoodElem(e: Elem) {
    match e
    case Raw(cp) => Scalar(cp) && cp >= 0x20 && cp != QUOTATION_MARK && cp != ESCAPE
    case Slash(c) => TwoByte(c).Some?
    case Unit(h) => FourHex(h)
  }

  predicate GoodText(t: Text) {
    t.Char? ==> GoodElem(t.e) && GoodText(t.rest)
  }

  function SpellElem(e: Elem): (r: Bytes)
    requires GoodElem(e)
    ensures 1 <= |r| <= 6
  {
    match e
    case Raw(cp) => AppendRune(cp)
    case Slash(c) => [ESCAPE, c]
    case Unit(h) => [ESCAPE, UNICODE_MARK] + h
  }

  function SpellText(t: Text): Bytes
    requires GoodText(t)
  {
    match t
    case End => []
    case Char(e, rest) => SpellElem(e) + SpellText(rest)
  }

  /** An escape naming the low half of a surrogate pair. */
  predicate LowUnit(t: Text)
    requires GoodText(t)
  {
    t.Char? && t.e.Unit? && LowHalf(HexOf(t.e.h))
  }

  predicate HighUnit(t: Text)
    requires GoodText(t)
  {
    t.Char? && t.e.Unit? && High(HexOf(t.e.h))
  }

  /** Every surrogate escape is half of a pair. The grammar itself does not ask for this. */
  predicate Paired(t: Text)
    requires GoodText(t)
  {
    match t
    case End => true
    case Char(e, rest) =>
      if LowUnit(t) then false
      else if HighUnit(t) then LowUnit(rest) && Paired(rest.rest)
      else Paired(rest)
  }

  /** The string a paired text stands for, in UTF-8. */
  function Decoded(t: Text): Bytes
    requires GoodText(t) && Paired(t)
  {
    match t
    case End => []
    case Char(e, rest) =>
      if HighUnit(t) then
        assert GoodText(rest);
        AppendRune(Pair(HexOf(e.h), HexOf(rest.e.h))) + Decoded(rest.rest)
      else
        match e
        case Raw(cp) => AppendRune(cp) + Decoded(rest)
        case Slash(c) => [TwoByte(c).value] + Decoded(rest)
        case Unit(h) => AppendRune(HexOf(h)) + Decoded(rest)
  }

  /** A quoted text. */
  function Quoted(t: Text): Bytes
    requires GoodText(t)
  {
    [QUOTATION_MARK] + SpellText(t) + [QUOTATION_MARK]
  }

  // ---------------------------------------------------------------- numbers

  predicate SomeDigits(s: Bytes) {
    |s| > 0 && AllDigits(s)
  }

  predicate GoodNum(n: Num) {
    && SomeDigits(n.whole) && (|n.whole| > 1 ==> n.whole[0] != ZERO_DIGIT)
    && (n.frac.Some? ==> SomeDigits(n.frac.value))
    && (n.exp.Some? ==> GoodExp(n.exp.value))
  }

  predicate GoodExp(x: Exp) {
    && ExponentMark(x.mark) && SomeDigits(x.digits)
    && (x.sign.Some? ==> x.sign.value == 0x2B || x.sign.value == MINUS_SIGN)
  }

  function SpellSign(neg: bool): Bytes {
    if neg then [MINUS_SIGN] else []
  }

  function SpellFrac(f: Option<Bytes>): Bytes {
    if f.Some? then [DECIMAL_POINT] + f.value else []
  }

  function SpellExp(e: Option<Exp>): Bytes {
    if e.None? then []
    else [e.value.mark] + ((if e.value.sign.Some? then [e.value.sign.value] else []) + e.value.digits)
  }

  function SpellNum(n: Num): Bytes {
    SpellSign(n.neg) + (n.whole + (SpellFrac(n.frac) + SpellExp(n.exp)))
  }

  predicate ExponentMark(c: byte) {
    c == 0x65 || c == 0x45
  }

  /** A byte that would make the reader take this number for the start of a longer one. */
  predicate NumStops(n: Num, c: byte) {
    if n.exp.Some? then !Digit(c)
    else if n.frac.Some? then !Digit(c) && !ExponentMark(c)
    else c != DECIMAL_POINT && !ExponentMark(c) && (n.whole == [ZERO_DIGIT] || !Digit(c))
  }

  // ----------------------------------------------------------------- values

  predicate GoodKey(k: Key, isObj: bool) {
    match k
    case NoKey => !isObj
    case Key(t, mid, gap) => isObj && GoodText(t) && AllSpace(mid) && AllSpace(gap)
  }

  predicate GoodMember(m: Member, isObj: bool)
    decreases m, 1
  {
    AllSpace(m.before) && GoodKey(m.key, isObj) && WellFormed(m.v) && AllSpace(m.after)
  }

  predicate GoodMembers(ms: Members, isObj: bool)
    decreases ms, 1
  {
    GoodMember(ms.m, isObj) && (ms.More? ==> GoodMembers(ms.rest, isObj))
  }

  predicate WellFormed(j: Json)
    decreases j, 1
  {
    match j
    case Literal(w) => w == LITERAL_TRUE || w == LITERAL_FALSE || w == LITERAL_NULL
    case String(t) => GoodText(t)
    case Number(n) => GoodNum(n)
    case Empty(isObj, blank) => AllSpace(blank)
    case Full(isObj, ms) => GoodMembers(ms, isObj)
  }

  function SpellKey(k: Key, isObj: bool): Bytes
    requires GoodKey(k, isObj)
  {
    match k
    case NoKey => []
    case Key(t, mid, gap) => Quoted(t) + (mid + ([NAME_SEPARATOR] + gap))
  }

  function SpellMember(m: Member, isObj: bool): Bytes
    requires GoodMember(m, isObj)
    decreases m, 0
  {
    m.before + (SpellKey(m.key, isObj) + (Spell(m.v) + m.after))
  }

  function SpellMembers(ms: Members, isObj: bool): Bytes
    requires GoodMembers(ms, isObj)
    decreases ms, 0
  {
    match ms
    case Last(m) => SpellMember(m, isObj)
    case More(m, rest) => SpellMember(m, isObj) + ([VALUE_SEPARATOR] + SpellMembers(rest, isObj))
  }

  function Spell(j: Json): Bytes
    requires WellFormed(j)
    decreases j, 0
  {
    match j
    case Literal(w) => w
    case String(t) => Quoted(t)
    case Number(n) => SpellNum(n)
    case Empty(isObj, blank) => [BeginMark(isObj)] + (blank + [EndMark(isObj)])
    case Full(isObj, ms) => [BeginMark(isObj)] + (SpellMembers(ms, isObj) + [EndMark(isObj)])
  }

  function Max(a: nat, b: nat): nat {
    if a < b then b else a
  }

  function DepthOfMembers(ms: Members): nat {
    match ms
    case Last(m) => Depth(m.v)
    case More(m, rest) => Max(Depth(m.v), DepthOfMembers(rest))
  }

  /** How many containers deep a value goes. */
  function Depth(j: Json): nat {
    match j
    case Literal(_) => 0
    case String(_) => 0
    case Number(_) => 0
    case Empty(_, _) => 1
    case Full(_, ms) => 1 + DepthOfMembers(ms)
  }

  predicate PairedMember(m: Member, isObj: bool)
    requires GoodMember(m, isObj)
    decreases m, 0
  {
    (m.key.Key? ==> Paired(m.key.t)) && AllPaired(m.v)
  }

  predicate PairedMembers(ms: Members, isObj: bool)
    requires GoodMembers(ms, isObj)
    decreases ms, 0
  {
    PairedMember(ms.m, isObj) && (ms.More? ==> PairedMembers(ms.rest, isObj))
  }

  /** Every string and every name in the value has its surrogate escapes paired. */
  predicate AllPaired(j: Json)
    requires WellFormed(j)
    decreases j, 0
  {
    match j
    case String(t) => Paired(t)
    case Full(isObj, ms) => PairedMembers(ms, isObj)
    case _ => true
  }

  predicate Stops(j: Json, c: byte) {
    j.Number? ==> NumStops(j.n, c)
  }
}
