/** Opaque values: what skipValue walks over, against the grammar. */
module Skip {
  import opened Bytes
  import opened Strings
  import opened Grammar
  import opened Texts
  import Integers

  const DEPTH_LIMIT := 64

  const TRUE: Bytes := [0x74, 0x72, 0x75, 0x65]
  const FALSE: Bytes := [0x66, 0x61, 0x6C, 0x73, 0x65]
  const NULL: Bytes := [0x6E, 0x75, 0x6C, 0x6C]
  const COMMA: byte := 0x2C
  const COLON: byte := 0x3A
  const DOT: byte := 0x2E
  const MINUS: byte := 0x2D
  const ZERO: byte := 0x30

  function Open(isObj: bool): byte {
    if isObj then 0x7B else 0x5B
  }

  function Shut(isObj: bool): byte {
    if isObj then 0x7D else 0x5D
  }

  predicate ExpMark(c: byte) {
    c == 0x65 || c == 0x45
  }

  /** The words an opaque value may be refused with: it is cut off or misbuilt, a string, a number, or too deep. */
  predicate Lexical(w: Word) {
    w == Malformed || w == BadString || w == NumberSpelling || w == DepthExceeded
  }

  function Step(q: nat): Res<()> {
    Ok((), q)
  }

  function LiteralAt(b: Bytes, p: nat, word: Bytes): (r: Res<()>)
    requires p <= |b|
    ensures r.Ok? ==> r.pos == p + |word| <= |b|
    ensures r.Err? ==> r.off <= |b| && r.word == Malformed
  {
    if StartsAt(b, p, word) then Step(p + |word|) else Err(Malformed, p)
  }

  function DigitsFrom(b: Bytes, p: nat): (r: Res<()>)
    requires p <= |b|
    ensures r.Ok? ==> p < r.pos <= |b|
    ensures r.Err? ==> r.off <= |b| && r.word == NumberSpelling
  {
    var q := Integers.RunEnd(b, p);
    if q == p then Err(NumberSpelling, p) else Step(q)
  }

  function SkipExp(b: Bytes, p: nat): (r: Res<()>)
    requires p <= |b|
    ensures r.Ok? ==> p <= r.pos <= |b|
    ensures r.Err? ==> r.off <= |b| && r.word == NumberSpelling
  {
    if !ExpMark(At(b, p)) then Step(p)
    else
      var s := p + 1;
      DigitsFrom(b, if At(b, s) == 0x2B || At(b, s) == MINUS then s + 1 else s)
  }

  function SkipFrac(b: Bytes, p: nat): (r: Res<()>)
    requires p <= |b|
    ensures r.Ok? ==> p <= r.pos <= |b|
    ensures r.Err? ==> r.off <= |b| && r.word == NumberSpelling
  {
    if At(b, p) == DOT then DigitsFrom(b, p + 1) else Step(p)
  }

  function SkipWhole(b: Bytes, p: nat): (r: Res<()>)
    requires p <= |b|
    ensures r.Ok? ==> p < r.pos <= |b|
    ensures r.Err? ==> r.off <= |b| && r.word == NumberSpelling
  {
    if At(b, p) == ZERO then Step(p + 1) else DigitsFrom(b, p)
  }

  function SkipNumber(b: Bytes, p: nat): (r: Res<()>)
    requires p <= |b|
    ensures r.Ok? ==> p < r.pos <= |b|
    ensures r.Err? ==> r.off <= |b| && r.word == NumberSpelling
  {
    var s := if At(b, p) == MINUS then p + 1 else p;
    match SkipWhole(b, s)
    case Err(w, o) => Err(w, o)
    case Ok(_, e) =>
      match SkipFrac(b, e)
      case Err(w, o) => Err(w, o)
      case Ok(_, f) => SkipExp(b, f)
  }

  /** A member name, its colon and the blanks around it, when the container is an object. */
  function SkipKey(b: Bytes, p: nat, isObj: bool): (r: Res<()>)
    requires p <= |b|
    ensures r.Ok? ==> p <= r.pos <= |b|
    ensures r.Err? ==> r.off <= |b| && Lexical(r.word)
  {
    if !isObj then Step(p)
    else if At(b, p) != QUOTE then Err(Malformed, p)
    else
      match Str(b, p)
      case Err(w, o) => Err(w, o)
      case Ok(_, q) =>
        var k := Ws(b, q);
        if At(b, k) != COLON then Err(Malformed, k) else Step(Ws(b, k + 1))
  }

  /** From the opening bracket at p, with depth d outside it. */
  function SkipContainer(b: Bytes, p: nat, d: nat): (r: Res<()>)
    requires p < |b|
    ensures r.Ok? ==> p < r.pos <= |b|
    ensures r.Err? ==> r.off <= |b| && Lexical(r.word)
    decreases |b| - p, 0
  {
    var isObj := b[p] == Open(true);
    if d + 1 > DEPTH_LIMIT then Err(DepthExceeded, p)
    else
      var q := Ws(b, p + 1);
      if At(b, q) == Shut(isObj) then Step(q + 1) else SkipMembers(b, q, d + 1, isObj)
  }

  /** The loop over members, up to and over the closing bracket. */
  function SkipMembers(b: Bytes, p: nat, d: nat, isObj: bool): (r: Res<()>)
    requires p <= |b|
    ensures r.Ok? ==> p < r.pos <= |b|
    ensures r.Err? ==> r.off <= |b| && Lexical(r.word)
    decreases |b| - p, 2
  {
    match SkipKey(b, Ws(b, p), isObj)
    case Err(w, o) => Err(w, o)
    case Ok(_, v) =>
      match SkipValue(b, v, d)
      case Err(w, o) => Err(w, o)
      case Ok(_, e) =>
        var q := Ws(b, e);
        if At(b, q) == COMMA then SkipMembers(b, q + 1, d, isObj)
        else if At(b, q) == Shut(isObj) then Step(q + 1)
        else Err(Malformed, q)
  }

  function SkipValue(b: Bytes, p: nat, d: nat): (r: Res<()>)
    requires p <= |b|
    ensures r.Ok? ==> p < r.pos <= |b|
    ensures r.Err? ==> r.off <= |b| && Lexical(r.word)
    decreases |b| - p, 1
  {
    var c := At(b, p);
    if c == QUOTE then
      match Str(b, p)
      case Err(w, o) => Err(w, o)
      case Ok(_, q) => Step(q)
    else if c == Open(true) || c == Open(false) then SkipContainer(b, p, d)
    else if c == TRUE[0] then LiteralAt(b, p, TRUE)
    else if c == FALSE[0] then LiteralAt(b, p, FALSE)
    else if c == NULL[0] then LiteralAt(b, p, NULL)
    else if c == MINUS || Digit(c) then SkipNumber(b, p)
    else Err(Malformed, p)
  }

  /** With what an opaque value is refused, told by its first byte. */
  lemma RefusalIs(b: Bytes, p: nat, d: nat)
    requires p <= |b| && d <= DEPTH_LIMIT && SkipValue(b, p, d).Err?
    ensures var c, r := At(b, p), SkipValue(b, p, d);
      if c == 0x22 then r.word == Malformed || r.word == BadString
      else if c == 0x2D || Digit(c) then r.word == NumberSpelling
      else if c == 0x7B || c == 0x5B then r == Err(DepthExceeded, p) <==> d == 64
      else r.word == Malformed && r.off == p
    ensures Lexical(SkipValue(b, p, d).word)
  {
    hide SkipMembers, Str, SkipNumber, Ws;
    if At(b, p) == 0x7B || At(b, p) == 0x5B {
      Deeper(b, p, d);
    }
  }

  /** Inside a container no refusal is made at its bracket. */
  lemma Deeper(b: Bytes, p: nat, d: nat)
    requires p < |b|
    ensures SkipContainer(b, p, d).Err? && d + 1 <= DEPTH_LIMIT ==> SkipContainer(b, p, d) != Err(DepthExceeded, p)
  {
    hide SkipMembers, Ws;
    var q := Ws(b, p + 1);
    MembersRefuseLater(b, q, d + 1, b[p] == Open(true));
  }

  lemma {:induction false} MembersRefuseLater(b: Bytes, p: nat, d: nat, isObj: bool)
    requires p <= |b|
    ensures SkipMembers(b, p, d, isObj).Err? && SkipMembers(b, p, d, isObj).word == DepthExceeded ==> SkipMembers(b, p, d, isObj).off >= p
    decreases |b| - p, 1
  {
    hide SkipMembers, SkipValue, Str;
    MembersGo(b, p, d, isObj);
    var k := SkipKey(b, Ws(b, p), isObj);
    if k.Ok? {
      ValueRefusesLater(b, k.pos, d);
      var v := SkipValue(b, k.pos, d);
      if v.Ok? && At(b, Ws(b, v.pos)) == COMMA {
        MembersRefuseLater(b, Ws(b, v.pos) + 1, d, isObj);
      }
    }
  }

  /** What the loop over members comes to, by its first turn. */
  lemma MembersGo(b: Bytes, p: nat, d: nat, isObj: bool)
    requires p <= |b|
    ensures var k := SkipKey(b, Ws(b, p), isObj); var r := SkipMembers(b, p, d, isObj);
      if k.Err? then r == Err(k.word, k.off) && (k.word == Malformed || k.word == BadString)
      else
        var v := SkipValue(b, k.pos, d);
        if v.Err? then r == Err(v.word, v.off)
        else
          var q := Ws(b, v.pos);
          if At(b, q) == COMMA then q < |b| && r == SkipMembers(b, q + 1, d, isObj) else r.Ok? || r.word == Malformed
  {
    hide SkipValue, Str, Ws;
  }

  lemma {:induction false} ValueRefusesLater(b: Bytes, p: nat, d: nat)
    requires p <= |b|
    ensures SkipValue(b, p, d).Err? && SkipValue(b, p, d).word == DepthExceeded ==> SkipValue(b, p, d).off >= p
    decreases |b| - p, 0
  {
    hide SkipMembers, Str, SkipNumber, Ws;
    if At(b, p) == Open(true) || At(b, p) == Open(false) {
      MembersRefuseLater(b, Ws(b, p + 1), d + 1, b[p] == Open(true));
    }
  }

  // ------------------------------------------------------------ the meaning

  /** j is the value that stands at p, ends at q, fits under the limit and is not cut short. */
  ghost predicate Means(b: Bytes, p: nat, d: nat, q: nat, j: Json) {
    && WellFormed(j) && AllPaired(j)
    && StartsAt(b, p, Spell(j)) && q == p + |Spell(j)|
    && d + Depth(j) <= DEPTH_LIMIT
    && Stops(j, At(b, q))
  }

  // ------------------------------------------------- where the parts stand

  lemma StartsCat3(b: Bytes, p: nat, x: Bytes, y: Bytes, z: Bytes)
    ensures StartsAt(b, p, x + (y + z)) <==>
            StartsAt(b, p, x) && StartsAt(b, p + |x|, y) && StartsAt(b, p + |x| + |y|, z)
  {
    hide StartsAt;
    StartsCat(b, p, x, y + z);
    StartsCat(b, p + |x|, y, z);
  }

  lemma KeyParts(b: Bytes, p: nat, t: Text, mid: Bytes, gap: Bytes)
    requires GoodKey(Key(t, mid, gap), true)
    ensures var q := Quoted(t); var c := p + |q| + |mid|; var s := SpellKey(Key(t, mid, gap), true);
            |s| == |q| + |mid| + 1 + |gap|
            && (StartsAt(b, p, s) <==>
                StartsAt(b, p, q) && StartsAt(b, p + |q|, mid) && c < |b| && b[c] == COLON && StartsAt(b, c + 1, gap))
  {
    hide StartsAt;
    var q := Quoted(t);
    StartsCat3(b, p, q, mid, [COLON] + gap);
    StartsCat(b, p + |q| + |mid|, [COLON], gap);
    StartsOne(b, p + |q| + |mid|, COLON);
  }

  lemma MemberSpelled(b: Bytes, p: nat, m: Member, isObj: bool)
    requires GoodMember(m, isObj)
    ensures var key, val := SpellKey(m.key, isObj), Spell(m.v); var s := SpellMember(m, isObj);
            var k := p + |m.before|; var v := k + |key|; var e := v + |val|;
            |s| == |m.before| + |key| + |val| + |m.after|
            && (StartsAt(b, p, s) <==>
                StartsAt(b, p, m.before) && StartsAt(b, k, key) && StartsAt(b, v, val) && StartsAt(b, e, m.after))
  {
    hide StartsAt, SpellKey, Spell;
    var key, val := SpellKey(m.key, isObj), Spell(m.v);
    StartsCat3(b, p, m.before, key, val + m.after);
    StartsCat(b, p + |m.before| + |key|, val, m.after);
  }

  lemma MembersSpelled(b: Bytes, p: nat, ms: Members, isObj: bool)
    requires GoodMembers(ms, isObj)
    ensures ms.Last? ==> SpellMembers(ms, isObj) == SpellMember(ms.m, isObj)
    ensures ms.More? ==>
      var m, r := SpellMember(ms.m, isObj), SpellMembers(ms.rest, isObj); var s := SpellMembers(ms, isObj);
      |s| == |m| + 1 + |r|
      && (StartsAt(b, p, s) <==> StartsAt(b, p, m) && p + |m| < |b| && b[p + |m|] == COMMA && StartsAt(b, p + |m| + 1, r))
  {
    hide StartsAt, SpellMember;
    if ms.More? {
      var m, r := SpellMember(ms.m, isObj), SpellMembers(ms.rest, isObj);
      StartsCat3(b, p, m, [COMMA], r);
      StartsOne(b, p + |m|, COMMA);
    }
  }

  lemma BracketParts(b: Bytes, p: nat, isObj: bool, s: Bytes)
    ensures StartsAt(b, p, [Open(isObj)] + (s + [Shut(isObj)])) <==>
            p < |b| && b[p] == Open(isObj) && StartsAt(b, p + 1, s) && p + 1 + |s| < |b| && b[p + 1 + |s|] == Shut(isObj)
  {
    hide StartsAt;
    StartsCat3(b, p, [Open(isObj)], s, [Shut(isObj)]);
    StartsOne(b, p, Open(isObj));
    StartsOne(b, p + 1 + |s|, Shut(isObj));
  }

  lemma ExpParts(b: Bytes, p: nat, x: Exp)
    requires GoodExp(x)
    ensures var d := if x.sign.Some? then p + 2 else p + 1; var s := SpellExp(Some(x));
            |s| == d - p + |x.digits|
            && (StartsAt(b, p, s) <==>
                p < |b| && b[p] == x.mark && StartsAt(b, d, x.digits)
                && (x.sign.Some? ==> p + 1 < |b| && b[p + 1] == x.sign.value))
  {
    hide StartsAt;
    var sign := if x.sign.Some? then [x.sign.value] else [];
    StartsCat3(b, p, [x.mark], sign, x.digits);
    StartsOne(b, p, x.mark);
    if x.sign.Some? {
      StartsOne(b, p + 1, x.sign.value);
    } else {
      EmptyStarts(b, p + 1, x.digits);
    }
  }

  lemma EmptyStarts(b: Bytes, p: nat, s: Bytes)
    ensures StartsAt(b, p, s) ==> StartsAt(b, p, [])
  {
  }

  lemma NumParts(b: Bytes, p: nat, n: Num)
    requires GoodNum(n) && p <= |b|
    ensures var f, e := SpellFrac(n.frac), SpellExp(n.exp); var s := if n.neg then p + 1 else p; var t := SpellNum(n);
            |t| == s - p + |n.whole| + |f| + |e|
            && (StartsAt(b, p, t) <==>
                (n.neg ==> p < |b| && b[p] == MINUS) && StartsAt(b, s, n.whole)
                && StartsAt(b, s + |n.whole|, f) && StartsAt(b, s + |n.whole| + |f|, e))
  {
    var f, e := SpellFrac(n.frac), SpellExp(n.exp);
    EmptyStarts(b, p, n.whole);
    hide StartsAt, SpellFrac, SpellExp;
    var s := if n.neg then p + 1 else p;
    StartsCat(b, p, SpellSign(n.neg), n.whole + (f + e));
    StartsCat3(b, s, n.whole, f, e);
    if n.neg {
      StartsOne(b, p, MINUS);
    }
  }

  // ----------------------------------------------------------- completeness

  lemma DigitsRead(b: Bytes, p: nat, s: Bytes)
    requires SomeDigits(s) && StartsAt(b, p, s) && !Digit(At(b, p + |s|))
    ensures DigitsFrom(b, p) == Step(p + |s|)
  {
    Integers.RunEndIs(b, p, p + |s|);
  }

  lemma ExpRead(b: Bytes, p: nat, e: Option<Exp>)
    requires p <= |b| && (e.Some? ==> GoodExp(e.value)) && StartsAt(b, p, SpellExp(e))
    requires if e.Some? then !Digit(At(b, p + |SpellExp(e)|)) else !ExpMark(At(b, p))
    ensures SkipExp(b, p) == Step(p + |SpellExp(e)|)
  {
    if e.Some? {
      var x := e.value;
      ExpParts(b, p, x);
      var d := if x.sign.Some? then p + 2 else p + 1;
      StartsHead(b, d, x.digits);
      DigitsRead(b, d, x.digits);
    }
  }

  lemma FirstByte(b: Bytes, p: nat, s: Bytes)
    requires StartsAt(b, p, s) && |s| > 0
    ensures p < |b| && b[p] == s[0] == At(b, p)
  {
    StartsHead(b, p, s);
  }

  lemma NumberRead(b: Bytes, p: nat, n: Num)
    requires p <= |b| && GoodNum(n) && StartsAt(b, p, SpellNum(n)) && NumStops(n, At(b, p + |SpellNum(n)|))
    ensures SkipNumber(b, p) == Step(p + |SpellNum(n)|)
    ensures p < |b| && (b[p] == MINUS || Digit(b[p]))
  {
    hide StartsAt, SpellNum, SkipWhole, SkipFrac, SkipExp, SpellExp, SpellFrac, NumStops;
    NumParts(b, p, n);
    var s := if n.neg then p + 1 else p;
    var w := s + |n.whole|;
    var f := w + |SpellFrac(n.frac)|;
    FirstByte(b, s, n.whole);
    NumberEnds(b, w, n);
    WholeRead(b, s, n);
    FracRead(b, w, n);
    ExpRead(b, f, n.exp);
  }

  /** What stands after the whole part, after the fraction, and after the exponent. */
  lemma NumberEnds(b: Bytes, w: nat, n: Num)
    requires GoodNum(n) && StartsAt(b, w, SpellFrac(n.frac)) && StartsAt(b, w + |SpellFrac(n.frac)|, SpellExp(n.exp))
    requires NumStops(n, At(b, w + |SpellFrac(n.frac)| + |SpellExp(n.exp)|))
    ensures var f := w + |SpellFrac(n.frac)|; var e := f + |SpellExp(n.exp)|;
      && (n.whole == [ZERO] || !Digit(At(b, w)))
      && (n.frac.Some? <==> At(b, w) == DOT) && (n.frac.Some? ==> !Digit(At(b, f)))
      && (if n.exp.Some? then !Digit(At(b, e)) else !ExpMark(At(b, f)))
  {
    if n.frac.Some? {
      FirstByte(b, w, SpellFrac(n.frac));
    }
    if n.exp.Some? {
      FirstByte(b, w + |SpellFrac(n.frac)|, SpellExp(n.exp));
    }
  }

  lemma WholeRead(b: Bytes, p: nat, n: Num)
    requires p <= |b| && GoodNum(n) && StartsAt(b, p, n.whole)
    requires n.whole == [ZERO] || !Digit(At(b, p + |n.whole|))
    ensures SkipWhole(b, p) == Step(p + |n.whole|)
  {
    StartsHead(b, p, n.whole);
    if n.whole[0] != ZERO {
      DigitsRead(b, p, n.whole);
    }
  }

  lemma FracRead(b: Bytes, p: nat, n: Num)
    requires p <= |b| && GoodNum(n) && StartsAt(b, p, SpellFrac(n.frac))
    requires n.frac.Some? <==> At(b, p) == DOT
    requires n.frac.Some? ==> !Digit(At(b, p + |SpellFrac(n.frac)|))
    ensures SkipFrac(b, p) == Step(p + |SpellFrac(n.frac)|)
  {
    if n.frac.Some? {
      StartsCat(b, p, [DOT], n.frac.value);
      DigitsRead(b, p + 1, n.frac.value);
    }
  }

  /** The first byte of a value: never a blank, never a bracket's end. */
  lemma SpellStart(b: Bytes, p: nat, j: Json)
    requires WellFormed(j) && StartsAt(b, p, Spell(j))
    ensures p < |b| && !Blank(b[p]) && b[p] != Shut(true) && b[p] != Shut(false) && b[p] != COMMA && b[p] != COLON
    ensures j.String? <==> b[p] == QUOTE
    ensures j.Empty? || j.Full? <==> b[p] == Open(true) || b[p] == Open(false)
    ensures j.Empty? || j.Full? ==> b[p] == Open(j.isObj)
    ensures j.Literal? ==> b[p] == j.word[0]
    ensures j.Number? ==> b[p] == MINUS || Digit(b[p])
  {
    match j
    case Literal(w) => FirstByte(b, p, w);
    case String(t) => FirstByte(b, p, Quoted(t));
    case Number(n) =>
      FirstByte(b, p, SpellNum(n));
      NumFirst(n);
    case Empty(isObj, blank) => BracketParts(b, p, isObj, blank);
    case Full(isObj, ms) => BracketParts(b, p, isObj, SpellMembers(ms, isObj));
  }

  lemma NumFirst(n: Num)
    requires GoodNum(n)
    ensures |SpellNum(n)| > 0 && (SpellNum(n)[0] == MINUS || Digit(SpellNum(n)[0]))
  {
  }

  lemma KeyRead(b: Bytes, p: nat, k: Key, isObj: bool)
    requires p <= |b| && GoodKey(k, isObj) && StartsAt(b, p, SpellKey(k, isObj))
    requires !Blank(At(b, p + |SpellKey(k, isObj)|)) && (k.Key? ==> Paired(k.t))
    ensures SkipKey(b, p, isObj) == Step(p + |SpellKey(k, isObj)|)
  {
    hide StartsAt, SkipKey, Paired, SpellText, GoodText;
    if k.Key? {
      NameRead(b, p, k);
    } else {
      NoKeyTaken(b, p);
    }
  }

  lemma NameRead(b: Bytes, p: nat, k: Key)
    requires p <= |b| && k.Key? && GoodKey(k, true) && StartsAt(b, p, SpellKey(k, true))
    requires !Blank(At(b, p + |SpellKey(k, true)|)) && Paired(k.t)
    requires GoodText(k.t) && AllBlank(k.mid) && AllBlank(k.gap)
    ensures SkipKey(b, p, true) == Step(p + |SpellKey(k, true)|)
  {
    hide *;
    KeyParts(b, p, k.t, k.mid, k.gap);
    var q := p + |Quoted(k.t)|;
    StrOfText(b, p, k.t);
    var c := q + |k.mid|;
    ColonIsNoBlank(b, c);
    WsOver(b, q, k.mid);
    WsOver(b, c + 1, k.gap);
    KeyTaken(b, p, q, c, p + |SpellKey(k, true)|);
  }

  lemma NoKeyTaken(b: Bytes, p: nat)
    requires p <= |b|
    ensures SkipKey(b, p, false) == Step(p)
  {
  }

  lemma ColonIsNoBlank(b: Bytes, c: nat)
    requires c < |b| && b[c] == COLON
    ensures !Blank(At(b, c))
  {
  }

  lemma KeyTaken(b: Bytes, p: nat, q: nat, c: nat, e: nat)
    requires p < |b| && b[p] == QUOTE && Str(b, p).Ok? && Str(b, p).pos == q
    requires Ws(b, q) == c < |b| && b[c] == COLON && Ws(b, c + 1) == e
    ensures SkipKey(b, p, true) == Step(e)
  {
  }

  /** A member stands at p, and a comma or the closing bracket after it. */
  ghost predicate MemberAt(b: Bytes, p: nat, m: Member, isObj: bool) {
    && GoodMember(m, isObj) && StartsAt(b, p, SpellMember(m, isObj)) && p <= |b|
    && (At(b, p + |SpellMember(m, isObj)|) == COMMA || At(b, p + |SpellMember(m, isObj)|) == Shut(isObj))
  }

  lemma KeyStart(b: Bytes, p: nat, k: Key, isObj: bool, j: Json)
    requires GoodKey(k, isObj) && StartsAt(b, p, SpellKey(k, isObj))
    requires WellFormed(j) && StartsAt(b, p + |SpellKey(k, isObj)|, Spell(j))
    ensures p < |b| && !Blank(b[p]) && b[p] != Shut(isObj)
  {
    if k.Key? {
      KeyParts(b, p, k.t, k.mid, k.gap);
      FirstByte(b, p, Quoted(k.t));
    } else {
      SpellStart(b, p, j);
    }
  }

  lemma AfterBlanks(b: Bytes, p: nat, w: Bytes, c: byte)
    requires AllBlank(w) && StartsAt(b, p, w) && At(b, p + |w|) == c && !Blank(c)
    ensures p <= |b| && Ws(b, p) == p + |w| && (At(b, p) == c || Blank(At(b, p)))
  {
    WsOver(b, p, w);
    if |w| > 0 {
      FirstByte(b, p, w);
    }
  }

  /** Where the parts of a member stand. */
  lemma MemberParts(b: Bytes, p: nat, m: Member, isObj: bool)
    requires MemberAt(b, p, m, isObj)
    ensures var k := p + |m.before|; var v := k + |SpellKey(m.key, isObj)|; var e := v + |Spell(m.v)|;
            && Ws(b, p) == k <= v <= e <= |b| && StartsAt(b, k, SpellKey(m.key, isObj)) && !Blank(At(b, v))
            && StartsAt(b, v, Spell(m.v)) && Stops(m.v, At(b, e)) && At(b, k) != Shut(isObj)
            && Ws(b, e) == e + |m.after| && p + |SpellMember(m, isObj)| == e + |m.after|
  {
    hide StartsAt, SpellMember, SpellKey, Spell, WellFormed, GoodKey;
    var k := p + |m.before|;
    var v := k + |SpellKey(m.key, isObj)|;
    var e := v + |Spell(m.v)|;
    MemberSpelled(b, p, m, isObj);
    SpellStart(b, v, m.v);
    KeyStart(b, k, m.key, isObj, m.v);
    AfterBlanks(b, p, m.before, At(b, k));
    AfterBlanks(b, e, m.after, At(b, e + |m.after|));
  }

  /** Completeness: a paired value of the grammar, within the limit and not cut short, is skipped. */
  lemma {:induction false} SkipComplete(b: Bytes, p: nat, d: nat, j: Json)
    requires WellFormed(j) && StartsAt(b, p, Spell(j)) && Stops(j, At(b, p + |Spell(j)|)) && p <= |b|
    requires d + Depth(j) <= DEPTH_LIMIT && AllPaired(j)
    ensures SkipValue(b, p, d) == Step(p + |Spell(j)|)
    decreases j, 1
  {
    hide SkipContainer, SkipNumber, StartsAt, SpellNum, SpellText, GoodMembers, SpellMembers, PairedMembers, DepthOfMembers,
      GoodText, Paired, Decoded, NumStops, GoodNum;
    SpellStart(b, p, j);
    match j
    case Literal(w) => WordRead(b, p, w);
    case String(t) => StrOfText(b, p, t);
    case Number(n) => NumberRead(b, p, n);
    case Empty(isObj, blank) => EmptyComplete(b, p, d, isObj, blank);
    case Full(isObj, ms) => FullComplete(b, p, d, isObj, ms);
  }

  lemma WordRead(b: Bytes, p: nat, w: Bytes)
    requires StartsAt(b, p, w) && p <= |b|
    ensures LiteralAt(b, p, w) == Step(p + |w|)
  {
  }

  lemma EmptyComplete(b: Bytes, p: nat, d: nat, isObj: bool, blank: Bytes)
    requires AllBlank(blank) && StartsAt(b, p, Spell(Empty(isObj, blank))) && d < DEPTH_LIMIT
    ensures p < |b| && SkipContainer(b, p, d) == Step(p + |Spell(Empty(isObj, blank))|)
  {
    BracketParts(b, p, isObj, blank);
    WsOver(b, p + 1, blank);
  }

  lemma {:induction false} FullComplete(b: Bytes, p: nat, d: nat, isObj: bool, ms: Members)
    requires GoodMembers(ms, isObj) && StartsAt(b, p, Spell(Full(isObj, ms)))
    requires d + 1 + DepthOfMembers(ms) <= DEPTH_LIMIT && PairedMembers(ms, isObj)
    ensures p < |b| && SkipContainer(b, p, d) == Step(p + |Spell(Full(isObj, ms))|)
    decreases ms, 2
  {
    hide StartsAt, SpellMembers, GoodMembers, DepthOfMembers, PairedMembers, SkipMembers, GoodMember, Ws;
    BracketParts(b, p, isObj, SpellMembers(ms, isObj));
    MembersComplete(b, p + 1, d + 1, ms, isObj);
    SkipFromWs(b, p + 1, d + 1, isObj);
    FirstIsNotShut(b, p + 1, ms, isObj);
  }

  lemma FirstIsNotShut(b: Bytes, p: nat, ms: Members, isObj: bool)
    requires MembersAt(b, p, ms, isObj)
    ensures p <= |b| && At(b, Ws(b, p)) != Shut(isObj)
  {
    hide MembersAt, Ws, StartsAt, SpellMember, SpellKey, Spell;
    MembersHead(b, p, ms, isObj);
    MemberParts(b, p, ms.m, isObj);
  }

  /** Blanks before the first member are skipped twice, which changes nothing. */
  lemma SkipFromWs(b: Bytes, p: nat, d: nat, isObj: bool)
    requires p <= |b|
    ensures SkipMembers(b, Ws(b, p), d, isObj) == SkipMembers(b, p, d, isObj)
  {
    WsOver(b, Ws(b, p), []);
  }

  ghost predicate MembersAt(b: Bytes, p: nat, ms: Members, isObj: bool) {
    GoodMembers(ms, isObj) && StartsAt(b, p, SpellMembers(ms, isObj)) && At(b, p + |SpellMembers(ms, isObj)|) == Shut(isObj)
  }

  lemma MembersHead(b: Bytes, p: nat, ms: Members, isObj: bool)
    requires MembersAt(b, p, ms, isObj)
    ensures MemberAt(b, p, ms.m, isObj)
    ensures var q := p + |SpellMember(ms.m, isObj)|;
      if ms.More? then At(b, q) == COMMA && MembersAt(b, q + 1, ms.rest, isObj)
                       && |SpellMembers(ms, isObj)| == |SpellMember(ms.m, isObj)| + 1 + |SpellMembers(ms.rest, isObj)|
      else At(b, q) == Shut(isObj) && SpellMembers(ms, isObj) == SpellMember(ms.m, isObj)
  {
    hide StartsAt, SpellMember, SpellMembers, GoodMember;
    StartsBound(b, p, SpellMembers(ms, isObj));
    MembersSpelled(b, p, ms, isObj);
  }

  lemma StartsBound(b: Bytes, p: nat, s: Bytes)
    requires StartsAt(b, p, s)
    ensures p + |s| <= |b|
  {
  }

  lemma HeadIsGood(d: nat, ms: Members, isObj: bool)
    requires GoodMembers(ms, isObj) && d + DepthOfMembers(ms) <= DEPTH_LIMIT && PairedMembers(ms, isObj)
    ensures GoodMember(ms.m, isObj) && WellFormed(ms.m.v) && GoodKey(ms.m.key, isObj)
    ensures (ms.m.key.Key? ==> Paired(ms.m.key.t)) && AllPaired(ms.m.v) && d + Depth(ms.m.v) <= DEPTH_LIMIT
    ensures ms.More? ==> GoodMembers(ms.rest, isObj) && PairedMembers(ms.rest, isObj)
                         && d + DepthOfMembers(ms.rest) <= DEPTH_LIMIT
  {
  }

  /** One turn of the loop. */
  lemma MembersTurn(b: Bytes, p: nat, d: nat, isObj: bool, k: nat, v: nat, e: nat, q: nat)
    requires p <= |b| && Ws(b, p) == k && SkipKey(b, k, isObj).Ok? && SkipKey(b, k, isObj).pos == v
    requires SkipValue(b, v, d).Ok? && SkipValue(b, v, d).pos == e && Ws(b, e) == q
    ensures q < |b| && At(b, q) == COMMA ==> SkipMembers(b, p, d, isObj) == SkipMembers(b, q + 1, d, isObj)
    ensures At(b, q) == Shut(isObj) ==> SkipMembers(b, p, d, isObj) == Step(q + 1)
  {
    hide SkipKey, SkipValue, Ws;
  }

  lemma {:induction false} MembersComplete(b: Bytes, p: nat, d: nat, ms: Members, isObj: bool)
    requires GoodMembers(ms, isObj) && MembersAt(b, p, ms, isObj) && p <= |b|
    requires d + DepthOfMembers(ms) <= DEPTH_LIMIT && PairedMembers(ms, isObj)
    ensures SkipMembers(b, p, d, isObj) == Step(p + |SpellMembers(ms, isObj)| + 1)
    decreases ms, 1
  {
    hide *;
    AfterMember(b, p, ms, isObj);
    HeadIsGood(d, ms, isObj);
    MembersHead(b, p, ms, isObj);
    FirstMember(b, p, d, ms, isObj);
    if ms.More? {
      MembersComplete(b, p + |SpellMember(ms.m, isObj)| + 1, d, ms.rest, isObj);
    }
  }

  /** The loop reads the first member and stands at the comma or the end. */
  lemma {:induction false} FirstMember(b: Bytes, p: nat, d: nat, ms: Members, isObj: bool)
    requires MembersAt(b, p, ms, isObj) && MemberAt(b, p, ms.m, isObj)
    requires d + Depth(ms.m.v) <= DEPTH_LIMIT && (ms.m.key.Key? ==> Paired(ms.m.key.t)) && AllPaired(ms.m.v)
    ensures var q := p + |SpellMember(ms.m, isObj)|;
      && q < |b|
      && (At(b, q) == COMMA ==> SkipMembers(b, p, d, isObj) == SkipMembers(b, q + 1, d, isObj))
      && (At(b, q) == Shut(isObj) ==> SkipMembers(b, p, d, isObj) == Step(q + 1))
    decreases ms, 0
  {
    hide SkipMembers, SkipKey, SkipValue, SpellMember, SpellMembers, StartsAt, Spell, SpellKey, GoodMembers, Ws, Stops, AllPaired;
    AfterMember(b, p, ms, isObj);
    var m := ms.m;
    MemberParts(b, p, m, isObj);
    var k := p + |m.before|;
    var v := k + |SpellKey(m.key, isObj)|;
    var e := v + |Spell(m.v)|;
    KeyRead(b, k, m.key, isObj);
    SkipComplete(b, v, d, m.v);
    MembersTurn(b, p, d, isObj, k, v, e, e + |m.after|);
  }

  lemma AfterMember(b: Bytes, p: nat, ms: Members, isObj: bool)
    requires MembersAt(b, p, ms, isObj)
    ensures GoodMember(ms.m, isObj) && (ms.More? ==> GoodMembers(ms.rest, isObj))
    ensures p + |SpellMember(ms.m, isObj)| < |b|
  {
    hide StartsAt, SpellMembers, SpellMember;
    MembersHead(b, p, ms, isObj);
  }

  // --------------------------------------------------------------- soundness

  lemma RunIs(b: Bytes, p: nat) returns (s: Bytes)
    requires p <= |b| && DigitsFrom(b, p).Ok?
    ensures SomeDigits(s) && StartsAt(b, p, s) && DigitsFrom(b, p).pos == p + |s| && !Digit(At(b, p + |s|))
    ensures s[0] == b[p]
  {
    var q := Integers.RunEnd(b, p);
    s := b[p..q];
  }

  lemma ExpOf(b: Bytes, p: nat) returns (e: Option<Exp>)
    requires p <= |b| && SkipExp(b, p).Ok?
    ensures e.Some? ==> GoodExp(e.value)
    ensures StartsAt(b, p, SpellExp(e)) && SkipExp(b, p).pos == p + |SpellExp(e)|
    ensures e.Some? ==> !Digit(At(b, p + |SpellExp(e)|))
    ensures e.None? ==> !ExpMark(At(b, p))
  {
    e := None;
    if ExpMark(At(b, p)) {
      var c := At(b, p + 1);
      var signed := c == 0x2B || c == MINUS;
      var s := RunIs(b, if signed then p + 2 else p + 1);
      e := Some(Exp(b[p], if signed then Some(c) else None, s));
      hide StartsAt, SpellExp;
      ExpParts(b, p, e.value);
    } else {
      EmptyStarts(b, p, b[p..]);
    }
  }

  lemma FracOf(b: Bytes, p: nat) returns (f: Option<Bytes>)
    requires p <= |b| && SkipFrac(b, p).Ok?
    ensures StartsAt(b, p, SpellFrac(f)) && SkipFrac(b, p).pos == p + |SpellFrac(f)|
    ensures f.Some? ==> SomeDigits(f.value) && !Digit(At(b, p + |SpellFrac(f)|))
    ensures f.None? ==> At(b, p) != DOT
  {
    if At(b, p) == DOT {
      var s := RunIs(b, p + 1);
      f := Some(s);
      StartsOne(b, p, DOT);
      StartsCat(b, p, [DOT], s);
    } else {
      f := None;
    }
  }

  lemma WholeOf(b: Bytes, p: nat) returns (s: Bytes)
    requires p <= |b| && SkipWhole(b, p).Ok?
    ensures SomeDigits(s) && (|s| > 1 ==> s[0] != ZERO) && StartsAt(b, p, s) && SkipWhole(b, p).pos == p + |s|
    ensures s == [ZERO] || !Digit(At(b, p + |s|))
  {
    if At(b, p) == ZERO {
      s := [ZERO];
      StartsOne(b, p, ZERO);
    } else {
      s := RunIs(b, p);
    }
  }

  lemma NumberOf(b: Bytes, p: nat) returns (n: Num)
    requires p <= |b| && SkipNumber(b, p).Ok?
    ensures GoodNum(n) && StartsAt(b, p, SpellNum(n)) && SkipNumber(b, p).pos == p + |SpellNum(n)|
    ensures NumStops(n, At(b, p + |SpellNum(n)|))
  {
    hide StartsAt, SpellNum, SkipWhole, SkipFrac, SkipExp, SpellExp, SpellFrac, SpellSign, At, SomeDigits, NumStops;
    var neg := At(b, p) == MINUS;
    var s := if neg then p + 1 else p;
    var whole := WholeOf(b, s);
    var frac := FracOf(b, s + |whole|);
    var exp := ExpOf(b, s + |whole| + |SpellFrac(frac)|);
    n := Num(neg, whole, frac, exp);
    MinusAt(b, p);
    NumParts(b, p, n);
    EmptyParts();
    StopsAfter(n, At(b, s + |whole|), At(b, s + |whole| + |SpellFrac(frac)|), At(b, p + |SpellNum(n)|));
  }

  lemma MinusAt(b: Bytes, p: nat)
    ensures At(b, p) == MINUS <==> p < |b| && b[p] == MINUS
  {
  }

  lemma StopsAfter(n: Num, w: byte, f: byte, e: byte)
    requires n.whole == [ZERO] || !Digit(w)
    requires if n.frac.Some? then !Digit(f) else w != DOT && f == w
    requires if n.exp.Some? then !Digit(e) else !ExpMark(f) && e == f
    ensures NumStops(n, e)
  {
  }

  lemma EmptyParts()
    ensures SpellExp(None) == [] && SpellFrac(None) == []
  {
  }

  lemma KeyOf(b: Bytes, p: nat, isObj: bool) returns (k: Key)
    requires p <= |b| && SkipKey(b, p, isObj).Ok?
    ensures GoodKey(k, isObj) && (k.Key? ==> Paired(k.t))
    ensures StartsAt(b, p, SpellKey(k, isObj)) && SkipKey(b, p, isObj).pos == p + |SpellKey(k, isObj)|
  {
    if isObj {
      k := NamedKey(b, p);
    } else {
      k := NoKey;
    }
  }

  lemma NamedKey(b: Bytes, p: nat) returns (k: Key)
    requires p <= |b| && SkipKey(b, p, true).Ok?
    ensures k.Key? && GoodKey(k, true) && Paired(k.t)
    ensures StartsAt(b, p, SpellKey(k, true)) && SkipKey(b, p, true).pos == p + |SpellKey(k, true)|
  {
    hide *;
    KeyShape(b, p);
    var q := Str(b, p).pos;
    var c := Ws(b, q);
    var e := Ws(b, c + 1);
    var t := TextOfStr(b, p);
    k := Key(t, b[q..c], b[c + 1..e]);
    KeyIsGood(t, k.mid, k.gap);
    KeyParts(b, p, t, k.mid, k.gap);
    StartsSlice(b, q, c);
    StartsSlice(b, c + 1, e);
  }

  lemma KeyIsGood(t: Text, mid: Bytes, gap: Bytes)
    requires GoodText(t) && AllBlank(mid) && AllBlank(gap)
    ensures GoodKey(Key(t, mid, gap), true)
  {
  }

  /** A name, a colon after it, and where the blanks end. */
  lemma KeyShape(b: Bytes, p: nat)
    requires p <= |b| && SkipKey(b, p, true).Ok?
    ensures Str(b, p).Ok?
    ensures var c := Ws(b, Str(b, p).pos); c < |b| && b[c] == COLON && SkipKey(b, p, true).pos == Ws(b, c + 1)
  {
    hide Str, Ws;
  }

  /** Soundness: whatever is skipped is a value of the grammar, paired, within the limit, not cut short. */
  lemma {:induction false} ValueOf(b: Bytes, p: nat, d: nat) returns (j: Json)
    requires p <= |b| && d <= DEPTH_LIMIT && SkipValue(b, p, d).Ok?
    ensures Means(b, p, d, SkipValue(b, p, d).pos, j)
    decreases |b| - p, 1
  {
    var c := At(b, p);
    if c == QUOTE {
      var t := TextOfStr(b, p);
      j := String(t);
    } else if c == Open(true) || c == Open(false) {
      j := ContainerOf(b, p, d);
    } else if c == TRUE[0] {
      j := Literal(TRUE);
    } else if c == FALSE[0] {
      j := Literal(FALSE);
    } else if c == NULL[0] {
      j := Literal(NULL);
    } else {
      var n := NumberOf(b, p);
      j := Number(n);
    }
  }

  lemma {:induction false} ContainerOf(b: Bytes, p: nat, d: nat) returns (j: Json)
    requires p < |b| && d <= DEPTH_LIMIT && SkipContainer(b, p, d).Ok? && (b[p] == Open(true) || b[p] == Open(false))
    ensures Means(b, p, d, SkipContainer(b, p, d).pos, j)
    decreases |b| - p, 0
  {
    hide SkipMembers, StartsAt, SpellMembers, GoodMembers, PairedMembers, DepthOfMembers, MembersAt, Ws;
    var isObj := b[p] == Open(true);
    var q := Ws(b, p + 1);
    StartsSlice(b, p + 1, q);
    if At(b, q) == Shut(isObj) {
      j := Empty(isObj, b[p + 1..q]);
      EmptyMeans(b, p, d, isObj, b[p + 1..q]);
    } else {
      SkipFromWs(b, p + 1, d + 1, isObj);
      var ms := MembersOf(b, p + 1, d + 1, isObj);
      j := Full(isObj, ms);
      FullMeans(b, p, d, isObj, ms);
    }
  }

  lemma StartsSlice(b: Bytes, p: nat, q: nat)
    requires p <= q <= |b|
    ensures StartsAt(b, p, b[p..q])
  {
  }

  lemma EmptyMeans(b: Bytes, p: nat, d: nat, isObj: bool, blank: Bytes)
    requires p < |b| && b[p] == Open(isObj) && AllBlank(blank) && StartsAt(b, p + 1, blank) && d + 1 <= DEPTH_LIMIT
    requires p + 1 + |blank| < |b| && b[p + 1 + |blank|] == Shut(isObj)
    ensures Means(b, p, d, p + |blank| + 2, Empty(isObj, blank))
  {
    hide StartsAt;
    BracketParts(b, p, isObj, blank);
  }

  lemma FullMeans(b: Bytes, p: nat, d: nat, isObj: bool, ms: Members)
    requires p < |b| && b[p] == Open(isObj)
    requires MembersAt(b, p + 1, ms, isObj) && PairedMembers(ms, isObj) && d + 1 + DepthOfMembers(ms) <= DEPTH_LIMIT
    ensures Means(b, p, d, p + 1 + |SpellMembers(ms, isObj)| + 1, Full(isObj, ms))
  {
    hide StartsAt, SpellMembers, GoodMembers, PairedMembers, DepthOfMembers;
    BracketParts(b, p, isObj, SpellMembers(ms, isObj));
  }

  lemma {:induction false} MembersOf(b: Bytes, p: nat, d: nat, isObj: bool) returns (ms: Members)
    requires p <= |b| && d <= DEPTH_LIMIT && SkipMembers(b, p, d, isObj).Ok?
    ensures MembersAt(b, p, ms, isObj) && PairedMembers(ms, isObj) && d + DepthOfMembers(ms) <= DEPTH_LIMIT
    ensures SkipMembers(b, p, d, isObj).pos == p + |SpellMembers(ms, isObj)| + 1
    decreases |b| - p, 3
  {
    hide StartsAt, SkipMembers, SpellMember;
    var m := MemberOf(b, p, d, isObj);
    var s := SpellMember(m, isObj);
    var q := p + |s|;
    if At(b, q) == COMMA {
      var rest := MembersOf(b, q + 1, d, isObj);
      ms := More(m, rest);
      PushMember(b, p, m, rest, isObj, d);
    } else {
      ms := Last(m);
      assert SpellMembers(ms, isObj) == s;
    }
  }

  lemma MoreIsGood(m: Member, rest: Members, isObj: bool, d: nat)
    requires GoodMember(m, isObj) && PairedMember(m, isObj) && d + Depth(m.v) <= DEPTH_LIMIT
    requires GoodMembers(rest, isObj) && PairedMembers(rest, isObj) && d + DepthOfMembers(rest) <= DEPTH_LIMIT
    ensures GoodMembers(More(m, rest), isObj) && PairedMembers(More(m, rest), isObj)
    ensures d + DepthOfMembers(More(m, rest)) <= DEPTH_LIMIT
  {
    hide GoodMember, PairedMember, Depth;
  }

  lemma PushMember(b: Bytes, p: nat, m: Member, rest: Members, isObj: bool, d: nat)
    requires GoodMember(m, isObj) && PairedMember(m, isObj) && d + Depth(m.v) <= DEPTH_LIMIT
    requires StartsAt(b, p, SpellMember(m, isObj))
    requires var q := p + |SpellMember(m, isObj)|; q < |b| && b[q] == COMMA && MembersAt(b, q + 1, rest, isObj)
    requires PairedMembers(rest, isObj) && d + DepthOfMembers(rest) <= DEPTH_LIMIT
    ensures MembersAt(b, p, More(m, rest), isObj) && PairedMembers(More(m, rest), isObj)
    ensures d + DepthOfMembers(More(m, rest)) <= DEPTH_LIMIT
    ensures |SpellMembers(More(m, rest), isObj)| == |SpellMember(m, isObj)| + 1 + |SpellMembers(rest, isObj)|
  {
    hide StartsAt, SpellMember, SpellMembers, GoodMember, GoodMembers, PairedMembers, PairedMember, DepthOfMembers, Depth;
    MoreIsGood(m, rest, isObj, d);
    MembersSpelled(b, p, More(m, rest), isObj);
  }

  /** The member the loop reads first, and what the loop does after it. */
  lemma {:induction false} MemberOf(b: Bytes, p: nat, d: nat, isObj: bool) returns (m: Member)
    requires p <= |b| && d <= DEPTH_LIMIT && SkipMembers(b, p, d, isObj).Ok?
    ensures GoodMember(m, isObj) && PairedMember(m, isObj) && d + Depth(m.v) <= DEPTH_LIMIT
    ensures StartsAt(b, p, SpellMember(m, isObj))
    ensures var q := p + |SpellMember(m, isObj)|;
      && q < |b|
      && if b[q] == COMMA then SkipMembers(b, p, d, isObj) == SkipMembers(b, q + 1, d, isObj)
         else b[q] == Shut(isObj) && SkipMembers(b, p, d, isObj) == Step(q + 1)
    decreases |b| - p, 2
  {
    hide SkipMembers, SkipKey, SkipValue, Ws, AllPaired, WellFormed, Spell, SpellKey, SpellMember, StartsAt, GoodKey, Paired, Depth, Stops;
    MembersGoOn(b, p, d, isObj);
    var k := Ws(b, p);
    var v := SkipKey(b, k, isObj).pos;
    var e := SkipValue(b, v, d).pos;
    var q := Ws(b, e);
    MembersTurn(b, p, d, isObj, k, v, e, q);
    var key := KeyOf(b, k, isObj);
    var j := ValueOf(b, v, d);
    m := Member(b[p..k], key, j, b[e..q]);
    MemberFits(b, p, d, m, isObj, k, v, e, q);
  }

  /** The loop that succeeds has read a key and a value and then met a comma or the end. */
  lemma MembersGoOn(b: Bytes, p: nat, d: nat, isObj: bool)
    requires p <= |b| && SkipMembers(b, p, d, isObj).Ok?
    ensures SkipKey(b, Ws(b, p), isObj).Ok?
    ensures var v := SkipKey(b, Ws(b, p), isObj).pos; SkipValue(b, v, d).Ok?
    ensures var q := Ws(b, SkipValue(b, SkipKey(b, Ws(b, p), isObj).pos, d).pos); q < |b| && (b[q] == COMMA || b[q] == Shut(isObj))
  {
  }

  lemma MemberFits(b: Bytes, p: nat, d: nat, m: Member, isObj: bool, k: nat, v: nat, e: nat, q: nat)
    requires p <= k <= |b| && e <= q <= |b| && m.before == b[p..k] && m.after == b[e..q]
    requires AllBlank(m.before) && AllBlank(m.after)
    requires GoodKey(m.key, isObj) && (m.key.Key? ==> Paired(m.key.t))
    requires StartsAt(b, k, SpellKey(m.key, isObj)) && v == k + |SpellKey(m.key, isObj)|
    requires Means(b, v, d, e, m.v)
    ensures GoodMember(m, isObj) && PairedMember(m, isObj) && d + Depth(m.v) <= DEPTH_LIMIT
    ensures StartsAt(b, p, SpellMember(m, isObj)) && q == p + |SpellMember(m, isObj)|
  {
    hide StartsAt, SpellMember, SpellKey, Spell, WellFormed, GoodKey, AllPaired, Paired, Stops, Depth, AllBlank, AllSpace;
    BlanksAgree(m.before);
    BlanksAgree(m.after);
    StartsSlice(b, p, k);
    StartsSlice(b, e, q);
    MemberSpelled(b, p, m, isObj);
  }

  /**
   * skipValue succeeds at q exactly when a value of the grammar stands there, paired and within
   * the depth limit, and is not the beginning of a longer number.
   */
  lemma SkipIsGrammar(b: Bytes, p: nat, d: nat, q: nat)
    requires p <= |b| && d <= DEPTH_LIMIT
    ensures SkipValue(b, p, d) == Step(q) <==> exists j :: Means(b, p, d, q, j)
  {
    hide SkipValue, WellFormed, AllPaired, StartsAt, Spell, Depth, Stops;
    if SkipValue(b, p, d) == Step(q) {
      var j := ValueOf(b, p, d);
      assert Means(b, p, d, q, j);
    }
    if exists j :: Means(b, p, d, q, j) {
      var j :| Means(b, p, d, q, j);
      SkipComplete(b, p, d, j);
    }
  }

  // ------------------------------------------------------- the longest value

  lemma {:induction false} RunIsLongest(b: Bytes, p: nat, s: Bytes)
    requires AllDigits(s) && StartsAt(b, p, s)
    ensures p + |s| <= |b| && Integers.RunEnd(b, p) >= p + |s|
    ensures Integers.RunEnd(b, p) == Integers.RunEnd(b, p + |s|)
    decreases |s|
  {
    if |s| > 0 {
      StartsHead(b, p, s);
      RunIsLongest(b, p + 1, s[1..]);
    }
  }

  /** No number that stands where one was walked over reaches further. */
  lemma NumberIsLongest(b: Bytes, p: nat, n: Num)
    requires p <= |b| && GoodNum(n) && StartsAt(b, p, SpellNum(n)) && SkipNumber(b, p).Ok?
    ensures p + |SpellNum(n)| <= SkipNumber(b, p).pos
  {
    hide StartsAt, SpellNum, SpellExp, SpellFrac, Integers.RunEnd, SkipWhole, SkipExp, GoodExp;
    NumParts(b, p, n);
    var s := if n.neg then p + 1 else p;
    var w := s + |n.whole|;
    var f := w + |SpellFrac(n.frac)|;
    var e := f + |SpellExp(n.exp)|;
    FirstByte(b, s, n.whole);
    RunIsLongest(b, s, n.whole);
    StartsBound(b, f, SpellExp(n.exp));
    StartsBound(b, w, SpellFrac(n.frac));
    WholeReaches(b, s, n);
    FracReaches(b, w, n);
    ExpReaches(b, f, n);
  }

  lemma WholeReaches(b: Bytes, s: nat, n: Num)
    requires s <= |b| && GoodNum(n) && StartsAt(b, s, n.whole) && SkipWhole(b, s).Ok?
    ensures SkipWhole(b, s).pos >= s + |n.whole|
    ensures s + |n.whole| <= |b| && (!Digit(At(b, s + |n.whole|)) ==> SkipWhole(b, s).pos == s + |n.whole|)
  {
    FirstByte(b, s, n.whole);
    RunIsLongest(b, s, n.whole);
  }

  lemma FracReaches(b: Bytes, w: nat, n: Num)
    requires w <= |b| && GoodNum(n) && StartsAt(b, w, SpellFrac(n.frac))
    ensures if n.frac.Some? then At(b, w) == DOT else |SpellFrac(n.frac)| == 0
    ensures n.frac.Some? && SkipFrac(b, w).Ok? ==> SkipFrac(b, w).pos >= w + |SpellFrac(n.frac)|
    ensures w + |SpellFrac(n.frac)| <= |b|
    ensures n.frac.Some? && SkipFrac(b, w).Ok? && !Digit(At(b, w + |SpellFrac(n.frac)|)) ==> SkipFrac(b, w).pos == w + |SpellFrac(n.frac)|
  {
    StartsBound(b, w, SpellFrac(n.frac));
    if n.frac.Some? {
      StartsCat(b, w, [DOT], n.frac.value);
      StartsOne(b, w, DOT);
      RunIsLongest(b, w + 1, n.frac.value);
    }
  }

  lemma ExpReaches(b: Bytes, f: nat, n: Num)
    requires f <= |b| && GoodNum(n) && StartsAt(b, f, SpellExp(n.exp))
    ensures n.exp.Some? ==> ExpMark(At(b, f)) && !Digit(At(b, f)) && At(b, f) != DOT
    ensures n.exp.Some? && SkipExp(b, f).Ok? ==> SkipExp(b, f).pos >= f + |SpellExp(n.exp)|
    ensures n.exp.None? ==> |SpellExp(n.exp)| == 0
  {
    if n.exp.Some? {
      ExpParts(b, f, n.exp.value);
      var d := if n.exp.value.sign.Some? then f + 2 else f + 1;
      FirstByte(b, d, n.exp.value.digits);
      RunIsLongest(b, d, n.exp.value.digits);
    }
  }

  /** What is walked over is the longest value that stands there. */
  lemma SkipIsLongest(b: Bytes, p: nat, d: nat, j: Json)
    requires p <= |b| && SkipValue(b, p, d).Ok?
    requires WellFormed(j) && AllPaired(j) && StartsAt(b, p, Spell(j)) && d + Depth(j) <= DEPTH_LIMIT
    ensures p + |Spell(j)| <= SkipValue(b, p, d).pos
  {
    hide StartsAt, SpellNum, SkipNumber, SkipContainer, GoodNum;
    if j.Number? {
      SpellStart(b, p, j);
      NumberIsLongest(b, p, j.n);
    } else {
      SkipComplete(b, p, d, j);
    }
  }

  /** But a longest value is not always walked over: 1 stands before .x, and the walk wants digits after the point. */
  lemma LongestMayBeRefused()
    ensures var b: Bytes := [0x31, DOT, 0x78];
      SkipValue(b, 0, 0).Err? && WellFormed(Number(Num(false, [0x31], None, None)))
      && StartsAt(b, 0, Spell(Number(Num(false, [0x31], None, None))))
      && forall j :: WellFormed(j) && StartsAt(b, 0, Spell(j)) ==> j.Number? && !Stops(j, At(b, |Spell(j)|))
  {
    var b: Bytes := [0x31, DOT, 0x78];
    OneIsOne();
    assert !Digit(At(b, 1)) && Integers.RunEnd(b, 1) == 1;
    assert Integers.RunEnd(b, 0) == 1;
    assert Integers.RunEnd(b, 2) == 2;
    forall j | WellFormed(j) && StartsAt(b, 0, Spell(j))
      ensures j.Number? && !Stops(j, At(b, |Spell(j)|))
    {
      SpellStart(b, 0, j);
      if j.Number? && Stops(j, At(b, |Spell(j)|)) {
        NumberRead(b, 0, j.n);
      }
    }
  }

  lemma OneIsOne()
    ensures SpellNum(Num(false, [0x31], None, None)) == [0x31]
  {
  }
}
