/** The reader as the source has it: an immutable buffer, a position and a depth that move. */
module Reader {
  import opened Bytes
  import B = Bytes
  import I = Integers
  import M = Masks
  import R = Records
  import K = Skip
  import L = Lockstep
  import S = Strings
  import T = RoundTrip
  import Utf8

  /** Where a step leaves the position: after the value, or at the byte the refusal names. */
  function Where<T>(r: Res<T>): nat {
    if r.Ok? then r.pos else r.off
  }

  function Sixteens(b: Bytes, p: nat, n: nat): int
    requires p + n <= |b|
  {
    if n == 0 then 0 else Sixteens(b, p, n - 1) * 16 + S.HexValue(b[p + n - 1])
  }

  /** The marks of the fields read so far, and the values they came with. */
  ghost predicate Marks(seen: nat, vals: seq<Option<R.Value>>) {
    forall i: nat :: Marked(seen, vals, i)
  }

  predicate Marked(seen: nat, vals: seq<Option<R.Value>>, i: nat) {
    M.Bit(seen, i) <==> i < |vals| && vals[i].Some?
  }

  /** The marks of the required fields. */
  function Wanted(fields: seq<R.Field>): nat {
    if |fields| == 0 then 0 else 2 * Wanted(fields[1..]) + if fields[0].required then 1 else 0
  }

  lemma {:induction false} WantedBits(fields: seq<R.Field>, i: nat)
    ensures M.Bit(Wanted(fields), i) <==> i < |fields| && fields[i].required
    decreases |fields|
  {
    if |fields| == 0 {
      M.NoBits(i);
    } else if i > 0 {
      assert Wanted(fields) / 2 == Wanted(fields[1..]);
      WantedBits(fields[1..], i - 1);
    }
  }

  lemma NoMarks(n: nat)
    ensures Marks(0, R.NoVals(n))
  {
    forall i: nat
      ensures Marked(0, R.NoVals(n), i)
    {
      M.NoBits(i);
    }
  }

  /** With at most 32 fields the word never overflows. */
  lemma MarksFit(seen: nat, vals: seq<Option<R.Value>>)
    requires Marks(seen, vals) && |vals| <= 32
    ensures seen < 0x1_0000_0000
  {
    forall i: nat | i >= |vals|
      ensures !M.Bit(seen, i)
    {
      assert Marked(seen, vals, i);
    }
    M.FitsWord(seen, |vals|);
    M.PowGrows(|vals|, 32);
    M.Pow32();
  }

  lemma MarkOne(seen: nat, vals: seq<Option<R.Value>>, i: nat, x: R.Value)
    requires Marks(seen, vals) && i < |vals| && vals[i].None?
    ensures Marks(seen + M.Pow2(i), vals[i := Some(x)])
  {
    hide M.Bit, M.Pow2;
    assert Marked(seen, vals, i);
    var set', more := seen + M.Pow2(i), vals[i := Some(x)];
    forall j: nat
      ensures Marked(set', more, j)
    {
      M.SetBit(seen, i, j);
      assert Marked(seen, vals, j);
    }
  }

  /** Comparing the word with the mask of required fields is the account of what is missing. */
  lemma MarksComplete(seen: nat, fields: seq<R.Field>, vals: seq<Option<R.Value>>)
    requires Marks(seen, vals) && |vals| == |fields|
    ensures M.And(seen, Wanted(fields)) == Wanted(fields) <==> R.Complete(fields, vals)
  {
    M.Covers(seen, Wanted(fields));
    forall i: nat
      ensures M.Bit(Wanted(fields), i) <==> i < |fields| && fields[i].required
      ensures Marked(seen, vals, i)
    {
      WantedBits(fields, i);
    }
    if M.Within(Wanted(fields), seen) {
      forall i | 0 <= i < |fields| && fields[i].required
        ensures vals[i].Some?
      {
        assert M.Bit(Wanted(fields), i);
      }
    }
  }

  class Reader {
    const buf: Bytes
    var pos: nat
    var depth: nat

    ghost predicate Valid()
      reads this
    {
      pos <= |buf|
    }

    constructor (input: Bytes, start: nat)
      ensures Valid() && buf == input && pos == 0 && depth == start
    {
      buf := input;
      pos := 0;
      depth := start;
    }

    function Refuse<T>(word: Word): Res<T>
      reads this
    {
      Err(word, pos)
    }

    function At(): byte
      reads this
    {
      B.At(buf, pos)
    }

    method Ws()
      requires Valid()
      modifies this`pos
      ensures Valid() && pos == B.Ws(buf, old(pos))
    {
      while pos < |buf| && Blank(buf[pos])
        invariant pos <= |buf| && B.Ws(buf, pos) == B.Ws(buf, old(pos))
      {
        pos := pos + 1;
      }
    }

    /** One level deeper, unless that is past the limit. */
    method Enter() returns (ok: bool)
      modifies this`depth
      ensures depth == old(depth) + 1 && (ok <==> depth <= K.DEPTH_LIMIT)
    {
      depth := depth + 1;
      ok := depth <= K.DEPTH_LIMIT;
    }

    method Hex4() returns (r: Res<int>)
      requires Valid()
      modifies this`pos
      ensures Valid() && pos == Where(r)
      ensures r == if S.HexAt(buf, old(pos)) then Ok(S.Hex4(buf, old(pos)), old(pos) + 4) else Err(BadString, old(pos))
    {
      if pos + 4 > |buf| {
        return Refuse(BadString);
      }
      var u := 0;
      for i := 0 to 4
        invariant forall j :: pos <= j < pos + i ==> S.HexValue(buf[j]) >= 0
        invariant u == Sixteens(buf, pos, i)
      {
        var v := S.HexValue(buf[pos + i]);
        if v < 0 {
          return Refuse(BadString);
        }
        u := u * 16 + v;
      }
      assert Sixteens(buf, pos, 2) == Sixteens(buf, pos, 1) * 16 + S.HexValue(buf[pos + 1]);
      pos := pos + 4;
      return Ok(u, pos);
    }

    method Escape(out: Bytes) returns (r: Res<Bytes>)
      requires Valid() && pos < |buf|
      modifies this`pos
      ensures Valid() && pos == Where(r)
      ensures r == S.Prepend(out, S.Escape(buf, old(pos)))
    {
      hide S.HexAt, S.Hex4, S.Short, S.HexValue, Utf8.AppendRune;
      pos := pos + 1;
      if pos >= |buf| {
        return Refuse(Malformed);
      }
      var c := buf[pos];
      pos := pos + 1;
      var short := S.Short(c);
      if short.Some? {
        return Ok(out + [short.value], pos);
      }
      if c != S.LOWER_U {
        return Refuse(BadString);
      }
      var first := Hex4();
      if first.Err? {
        return Err(first.word, first.off);
      }
      var u := first.value;
      if S.LowHalf(u) {
        return Refuse(BadString);
      }
      if S.High(u) {
        if pos + 1 >= |buf| || buf[pos] != S.BACKSLASH || buf[pos + 1] != S.LOWER_U {
          return Refuse(BadString);
        }
        pos := pos + 2;
        var second := Hex4();
        if second.Err? {
          return Err(second.word, second.off);
        }
        if !S.LowHalf(second.value) {
          return Refuse(BadString);
        }
        u := S.Pair(u, second.value);
      }
      return Ok(out + Utf8.AppendRune(u), pos);
    }

    method Str() returns (r: Res<Bytes>)
      requires Valid()
      modifies this`pos
      ensures Valid() && pos == Where(r) && r == S.Str(buf, old(pos))
    {
      hide Utf8.ValidUtf8, S.Escape, S.StrBody;
      if At() != S.QUOTE {
        return Refuse(WrongType);
      }
      pos := pos + 1;
      var out: Bytes := [];
      ghost var body := pos;
      PrependNothing(S.StrBody(buf, body));
      while true
        invariant body <= pos <= |buf|
        invariant S.StrBody(buf, body) == S.Prepend(out, S.StrBody(buf, pos))
        decreases |buf| - pos
      {
        ghost var was, sofar := pos, out;
        StrStep(buf, pos, out);
        if pos >= |buf| {
          return Refuse(Malformed);
        }
        var c := buf[pos];
        if c == S.QUOTE {
          pos := pos + 1;
          var ok := Utf8.CheckUtf8(out);
          Utf8.ValidIsOctets(out);
          if !ok {
            return Refuse(BadString);
          }
          return Ok(out, pos);
        } else if c < 0x20 {
          return Refuse(BadString);
        } else if c == S.BACKSLASH {
          var e := Escape(out);
          if e.Err? {
            return Err(e.word, e.off);
          }
          out := e.value;
        } else {
          out := out + [c];
          pos := pos + 1;
        }
      }
    }

    method Integer(min: int, max: int) returns (r: Res<int>)
      requires Valid()
      modifies this`pos
      ensures Valid() && pos == Where(r) && r == I.Integer(buf, old(pos), min, max)
    {
      var c := At();
      if c != I.MINUS && !Digit(c) {
        return Refuse(WrongType);
      }
      var neg := c == I.MINUS;
      if neg {
        pos := pos + 1;
      }
      var d := At();
      if !Digit(d) {
        return Refuse(Malformed);
      }
      var u: nat := 0;
      if d == I.ZERO {
        pos := pos + 1;
      } else {
        ghost var s := pos;
        while Digit(At())
          invariant s <= pos <= |buf| && u < I.TWO64
          invariant I.GoRun(buf, s, 0) == I.GoRun(buf, pos, u)
          decreases |buf| - pos
        {
          if u > I.GUARD {
            return Refuse(NumberSpelling);
          }
          u := u * 10 + (At() - I.ZERO);
          pos := pos + 1;
        }
      }
      if I.Continues(At()) {
        return Refuse(NumberSpelling);
      }
      if neg && u == 0 {
        return Refuse(NumberSpelling);
      }
      var n: int;
      if neg && u == 0x8000_0000_0000_0000 {
        n := I.MIN64;
      } else if u > I.MAX64 {
        return Refuse(NumberSpelling);
      } else {
        n := I.Signed(neg, u);
      }
      if n < min || n > max {
        return Refuse(NumberSpelling);
      }
      return Ok(n, pos);
    }

    method Literal(word: Bytes) returns (r: Res<()>)
      requires Valid()
      modifies this`pos
      ensures Valid() && pos == Where(r) && r == K.LiteralAt(buf, old(pos), word)
    {
      if pos + |word| > |buf| || buf[pos..pos + |word|] != word {
        return Refuse(Malformed);
      }
      pos := pos + |word|;
      return K.Step(pos);
    }

    method Boolean() returns (r: Res<bool>)
      requires Valid()
      modifies this`pos
      ensures Valid() && pos == Where(r) && r == R.Boolean(buf, old(pos))
    {
      if At() == K.TRUE[0] {
        var t := Literal(K.TRUE);
        return if t.Ok? then Ok(true, t.pos) else Err(t.word, t.off);
      }
      if At() == K.FALSE[0] {
        var f := Literal(K.FALSE);
        return if f.Ok? then Ok(false, f.pos) else Err(f.word, f.off);
      }
      return Refuse(WrongType);
    }

    method SomeDigits() returns (r: Res<()>)
      requires Valid()
      modifies this`pos
      ensures Valid() && pos == Where(r) && r == K.DigitsFrom(buf, old(pos))
      ensures r.Ok? ==> r == K.Step(pos)
    {
      var n := 0;
      while Digit(At())
        invariant old(pos) <= pos <= |buf| && n == pos - old(pos)
        invariant I.RunEnd(buf, pos) == I.RunEnd(buf, old(pos))
        decreases |buf| - pos
      {
        pos := pos + 1;
        n := n + 1;
      }
      if n == 0 {
        return Refuse(NumberSpelling);
      }
      return K.Step(pos);
    }

    method SkipNumber() returns (r: Res<()>)
      requires Valid()
      modifies this`pos
      ensures Valid() && pos == Where(r) && r == K.SkipNumber(buf, old(pos))
    {
      hide I.RunEnd, K.DigitsFrom, K.SkipFrac, K.SkipExp;
      if At() == I.MINUS {
        pos := pos + 1;
      }
      DigitsStart(buf, pos);
      if At() == I.ZERO {
        pos := pos + 1;
      } else if Digit(At()) {
        r := SomeDigits();
      } else {
        return Refuse(NumberSpelling);
      }
      r := Fraction();
      if r.Err? {
        return;
      }
      r := Exponent();
    }

    method Fraction() returns (r: Res<()>)
      requires Valid()
      modifies this`pos
      ensures Valid() && pos == Where(r) && r == K.SkipFrac(buf, old(pos))
    {
      if At() != K.DOT {
        return K.Step(pos);
      }
      pos := pos + 1;
      r := SomeDigits();
    }

    method Exponent() returns (r: Res<()>)
      requires Valid()
      modifies this`pos
      ensures Valid() && pos == Where(r) && r == K.SkipExp(buf, old(pos))
    {
      if !K.ExpMark(At()) {
        return K.Step(pos);
      }
      pos := pos + 1;
      if At() == 0x2B || At() == I.MINUS {
        pos := pos + 1;
      }
      r := SomeDigits();
    }

    /** The name of a member, its colon and the blanks around it: the same lines in every loop. */
    method MemberName() returns (r: Res<Bytes>)
      requires Valid()
      modifies this`pos
      ensures Valid() && pos == Where(r) && r == R.Name(buf, old(pos))
    {
      Ws();
      if At() != S.QUOTE {
        return Refuse(Malformed);
      }
      r := Str();
      if r.Err? {
        return;
      }
      Ws();
      if At() != K.COLON {
        return Refuse(Malformed);
      }
      return Ok(r.value, pos);
    }

    method SkipValue() returns (r: Res<()>)
      requires Valid()
      modifies this`pos, this`depth
      ensures Valid() && pos == Where(r) && r == K.SkipValue(buf, old(pos), old(depth))
      ensures r.Ok? ==> depth == old(depth)
      decreases |buf| - pos, 1
    {
      var c := At();
      if c == S.QUOTE {
        var s := Str();
        return if s.Ok? then K.Step(s.pos) else Err(s.word, s.off);
      } else if c == K.Open(true) || c == K.Open(false) {
        r := SkipContainer();
      } else if c == K.TRUE[0] {
        r := Literal(K.TRUE);
      } else if c == K.FALSE[0] {
        r := Literal(K.FALSE);
      } else if c == K.NULL[0] {
        r := Literal(K.NULL);
      } else if c == I.MINUS || Digit(c) {
        r := SkipNumber();
      } else {
        r := Refuse(Malformed);
      }
    }

    /** One turn of the loop over members: a key if there is one, and a value. */
    method SkipMember(isObj: bool) returns (r: Res<()>)
      requires Valid()
      modifies this`pos, this`depth
      ensures Valid() && pos == Where(r) && (r.Ok? ==> depth == old(depth) && pos > old(pos))
      ensures r == var k := K.SkipKey(buf, B.Ws(buf, old(pos)), isObj);
                   if k.Err? then Err(k.word, k.off) else K.SkipValue(buf, k.pos, old(depth))
      decreases |buf| - pos, 2
    {
      hide K.SkipValue, K.SkipKey, R.Name, B.Ws;
      L.NameIsKey(buf, pos);
      K.NoKeyTaken(buf, B.Ws(buf, pos));
      WsTwice(buf, pos);
      Ws();
      if isObj {
        var k := MemberName();
        if k.Err? {
          return Err(k.word, k.off);
        }
        pos := pos + 1;
        Ws();
      }
      r := SkipValue();
    }

    method SkipContainer() returns (r: Res<()>)
      requires Valid() && pos < |buf|
      modifies this`pos, this`depth
      ensures Valid() && pos == Where(r) && r == K.SkipContainer(buf, old(pos), old(depth))
      ensures r.Ok? ==> depth == old(depth)
      decreases |buf| - pos, 0
    {
      hide K.SkipContainer, K.SkipMembers, K.SkipValue, K.SkipKey, R.Name, B.Ws;
      ContainerOpens(buf, pos, depth);
      var isObj := buf[pos] == K.Open(true);
      var ok := Enter();
      if !ok {
        return Refuse(DepthExceeded);
      }
      pos := pos + 1;
      Ws();
      if At() != K.Shut(isObj) {
        while true
          invariant old(pos) < pos <= |buf| && depth == old(depth) + 1
          invariant K.SkipContainer(buf, old(pos), old(depth)) == K.SkipMembers(buf, pos, depth, isObj)
          decreases |buf| - pos
        {
          L.MembersStep(buf, pos, depth, isObj);
          r := SkipMember(isObj);
          if r.Err? {
            return;
          }
          Ws();
          if At() != K.COMMA {
            break;
          }
          pos := pos + 1;
        }
      }
      if At() != K.Shut(isObj) {
        return Refuse(Malformed);
      }
      pos := pos + 1;
      depth := depth - 1;
      return K.Step(pos);
    }

    method RawValue() returns (r: Res<Bytes>)
      requires Valid()
      modifies this`pos, this`depth
      ensures Valid() && pos == Where(r)
      ensures match K.SkipValue(buf, old(pos), old(depth))
              case Ok(_, q) => r == Ok(buf[old(pos)..q], q) && depth == old(depth)
              case Err(w, o) => r == Err(w, o)
    {
      var start := pos;
      var s := SkipValue();
      if s.Err? {
        return Err(s.word, s.off);
      }
      return Ok(buf[start..pos], pos);
    }

    /** One turn of the map's loop. */
    method Entry(out: map<Bytes, Bytes>) returns (r: Res<map<Bytes, Bytes>>)
      requires Valid()
      modifies this`pos
      ensures Valid() && pos == Where(r) && (r.Ok? ==> pos > old(pos))
      ensures r == OneEntry(buf, old(pos), out)
    {
      hide R.Name, B.Ws, S.Str;
      var k := MemberName();
      if k.Err? {
        return Err(k.word, k.off);
      }
      pos := pos + 1;
      Ws();
      var v := Str();
      if v.Err? {
        return Err(v.word, v.off);
      }
      return Ok(out[k.value := v.value], pos);
    }

    method StrMap() returns (r: Res<R.Value>)
      requires Valid()
      modifies this`pos, this`depth
      ensures Valid() && pos == Where(r) && r == R.DecMap(buf, old(pos), old(depth))
      ensures r.Ok? ==> depth == old(depth)
    {
      hide R.DecMembers, OneEntry, B.Ws;
      if At() != R.LBRACE {
        return Refuse(WrongType);
      }
      var ok := Enter();
      if !ok {
        return Refuse(DepthExceeded);
      }
      pos := pos + 1;
      var out: map<Bytes, Bytes> := map[];
      Ws();
      if At() != R.RBRACE {
        while true
          invariant old(pos) < pos <= |buf| && depth == old(depth) + 1
          invariant R.DecMap(buf, old(pos), old(depth)) == R.DecMembers(buf, pos, out)
          decreases |buf| - pos
        {
          EntriesTurn(buf, pos, out);
          var e := Entry(out);
          if e.Err? {
            return Err(e.word, e.off);
          }
          out := e.value;
          Ws();
          if At() != K.COMMA {
            break;
          }
          pos := pos + 1;
        }
      }
      if At() != R.RBRACE {
        return Refuse(Malformed);
      }
      pos := pos + 1;
      depth := depth - 1;
      return Ok(R.VMap(out), pos);
    }

    /** One turn of a record's loop: a name, its mark, and its value. */
    method Member(fields: seq<R.Field>, seen: nat, vals: seq<Option<R.Value>>)
      returns (r: Res<seq<Option<R.Value>>>, marks: nat)
      requires Valid() && Narrow(R.KRec(fields)) && |vals| == |fields| && Marks(seen, vals)
      modifies this`pos, this`depth
      ensures Valid() && pos == Where(r) && r == OneField(buf, old(pos), old(depth), fields, vals)
      ensures r.Ok? ==> pos > old(pos) && depth == old(depth) && Marks(marks, r.value) && marks < 0x1_0000_0000
      decreases |buf| - pos, 2
    {
      hide R.Name, B.Ws, R.Dec, M.Bit, M.Pow2;
      marks := seen;
      var key := MemberName();
      if key.Err? {
        r := Err(key.word, key.off);
        return;
      }
      if |fields| == 0 {
        r := Refuse(UnknownField);
        return;
      }
      pos := pos + 1;
      Ws();
      var i := R.FieldIndex(fields, key.value, 0);
      if i == |fields| {
        r := Refuse(UnknownField);
        return;
      }
      assert Marked(seen, vals, i);
      if M.Bit(seen, i) {
        r := Refuse(DuplicateField);
        return;
      }
      var x := Value(fields[i].kind);
      if x.Err? {
        r := Err(x.word, x.off);
        return;
      }
      MarkOne(seen, vals, i, x.value);
      marks := seen + M.Pow2(i);
      MarksFit(marks, vals[i := Some(x.value)]);
      r := Ok(vals[i := Some(x.value)], pos);
    }

    /** The record template, filled in from the field list. */
    method Record(fields: seq<R.Field>) returns (r: Res<R.Value>)
      requires Valid() && Narrow(R.KRec(fields))
      modifies this`pos, this`depth
      ensures Valid() && pos == Where(r) && r == R.DecRec(buf, old(pos), old(depth), fields)
      ensures r.Ok? ==> depth == old(depth)
      decreases |buf| - pos, 0
    {
      hide R.DecFields, B.Ws, OneField, Marks, M.And, Wanted, R.Complete;
      if At() != R.LBRACE {
        return Refuse(WrongType);
      }
      var ok := Enter();
      if !ok {
        return Refuse(DepthExceeded);
      }
      pos := pos + 1;
      var vals := R.NoVals(|fields|);
      var seen: nat := 0;
      NoMarks(|fields|);
      Ws();
      if At() != R.RBRACE {
        while true
          invariant old(pos) < pos <= |buf| && depth == old(depth) + 1
          invariant |vals| == |fields| && Marks(seen, vals) && seen < 0x1_0000_0000
          invariant R.DecRec(buf, old(pos), old(depth), fields) == R.DecFields(buf, pos, depth, fields, vals)
          decreases |buf| - pos
        {
          FieldsTurn(buf, pos, depth, fields, vals);
          var e, marks := Member(fields, seen, vals);
          if e.Err? {
            return Err(e.word, e.off);
          }
          vals, seen := e.value, marks;
          Ws();
          if At() != K.COMMA {
            break;
          }
          pos := pos + 1;
        }
      }
      if At() != R.RBRACE {
        return Refuse(Malformed);
      }
      pos := pos + 1;
      depth := depth - 1;
      MarksComplete(seen, fields, vals);
      if M.And(seen, Wanted(fields)) != Wanted(fields) {
        return Refuse(MissingField);
      }
      return Ok(R.VRec(vals), pos);
    }

    /** The step the template takes for a field of this kind. */
    method Value(k: R.Kind) returns (r: Res<R.Value>)
      requires Valid() && Narrow(k)
      modifies this`pos, this`depth
      ensures Valid() && pos == Where(r) && r == R.Dec(buf, old(pos), old(depth), k)
      ensures r.Ok? ==> depth == old(depth)
      decreases |buf| - pos, 1
    {
      match k
      case KStr =>
        var s := Str();
        return if s.Ok? then Ok(R.VStr(s.value), s.pos) else Err(s.word, s.off);
      case KInt(min, max) =>
        var n := Integer(min, max);
        return if n.Ok? then Ok(R.VInt(n.value), n.pos) else Err(n.word, n.off);
      case KBool =>
        var t := Boolean();
        return if t.Ok? then Ok(R.VBool(t.value), t.pos) else Err(t.word, t.off);
      case KMap =>
        r := StrMap();
      case KEnum(words) =>
        var s := Str();
        if s.Err? {
          return Err(s.word, s.off);
        }
        var i := R.Index(words, s.value, 0);
        if i == |words| {
          return Refuse(BadEnum);
        }
        return Ok(R.VEnum(i + 1), pos);
      case KRaw =>
        var v := RawValue();
        return if v.Ok? then Ok(R.VRaw(v.value), v.pos) else Err(v.word, v.off);
      case KRec(fields) =>
        r := Record(fields);
    }

    /** A whole text: blanks, one value, blanks, and nothing more. */
    method Whole(k: R.Kind) returns (r: Res<R.Value>)
      requires Valid() && Narrow(k)
      modifies this`pos, this`depth
      ensures r == R.Text(buf, old(pos), old(depth), k)
    {
      Ws();
      r := Value(k);
      if r.Err? {
        return;
      }
      Ws();
      if pos < |buf| {
        return Refuse(TrailingBytes);
      }
      return Ok(r.value, pos);
    }
  }

  /** A record's marks fit the 32 bits of the word they are kept in. */
  predicate Narrow(k: R.Kind) {
    k.KRec? ==> |k.fields| <= 32 && forall i :: 0 <= i < |k.fields| ==> Narrow(k.fields[i].kind)
  }

  /** What one turn of a map's loop makes of the entries so far. */
  function OneEntry(b: Bytes, p: nat, out: map<Bytes, Bytes>): (r: Res<map<Bytes, Bytes>>)
    requires p <= |b|
    ensures r.Ok? ==> r.pos <= |b|
  {
    match R.Name(b, p)
    case Err(w, o) => Err(w, o)
    case Ok(k, c) =>
      match S.Str(b, B.Ws(b, c + 1))
      case Err(w, o) => Err(w, o)
      case Ok(v, e) => Ok(out[k := v], e)
  }

  lemma EntriesTurn(b: Bytes, p: nat, out: map<Bytes, Bytes>)
    requires p <= |b|
    ensures R.DecMembers(b, p, out) ==
      match OneEntry(b, p, out)
      case Err(w, o) => Err(w, o)
      case Ok(more, e) => T.AfterEntry(b, B.Ws(b, e), more)
  {
    hide R.Name, B.Ws, S.Str;
    T.EntryStep(b, p, out);
  }

  /** What one turn of a record's loop makes of the values so far. */
  function OneField(b: Bytes, p: nat, d: nat, fields: seq<R.Field>, vals: seq<Option<R.Value>>): (r: Res<seq<Option<R.Value>>>)
    requires p <= |b| && |vals| == |fields|
    ensures r.Ok? ==> |r.value| == |vals| && r.pos <= |b|
  {
    match R.Name(b, p)
    case Err(w, o) => Err(w, o)
    case Ok(key, c) =>
      var v := B.Ws(b, c + 1);
      var i := R.FieldIndex(fields, key, 0);
      if |fields| == 0 then Err(UnknownField, c)
      else if i == |fields| then Err(UnknownField, v)
      else if vals[i].Some? then Err(DuplicateField, v)
      else
        match R.Dec(b, v, d, fields[i].kind)
        case Err(w, o) => Err(w, o)
        case Ok(x, e) => Ok(vals[i := Some(x)], e)
  }

  lemma FieldsTurn(b: Bytes, p: nat, d: nat, fields: seq<R.Field>, vals: seq<Option<R.Value>>)
    requires p <= |b| && |vals| == |fields|
    ensures R.DecFields(b, p, d, fields, vals) ==
      match OneField(b, p, d, fields, vals)
      case Err(w, o) => Err(w, o)
      case Ok(more, e) => R.After(b, e, d, fields, more)
  {
    hide R.Name, B.Ws, R.Dec, R.After;
  }

  lemma DigitsStart(b: Bytes, p: nat)
    requires p <= |b|
    ensures if Digit(B.At(b, p)) then K.DigitsFrom(b, p).Ok? else K.DigitsFrom(b, p) == Err(NumberSpelling, p)
  {
  }

  lemma WsTwice(b: Bytes, p: nat)
    requires p <= |b|
    ensures B.Ws(b, B.Ws(b, p)) == B.Ws(b, p) && R.Name(b, B.Ws(b, p)) == R.Name(b, p)
  {
    hide S.Str;
  }

  lemma PrependNothing(r: Res<Bytes>)
    ensures S.Prepend([], r) == r
  {
    if r.Ok? {
      assert [] + r.value == r.value;
    }
  }

  /** What one turn of the literal's loop does to the whole reading. */
  lemma StrStep(b: Bytes, p: nat, out: Bytes)
    requires p <= |b|
    ensures var r := S.Prepend(out, S.StrBody(b, p));
      && (p == |b| ==> r == Err(Malformed, p))
      && (p < |b| ==>
        var c := b[p];
        if c == S.QUOTE then r == Ok(out, p + 1)
        else if c < 0x20 then r == Err(BadString, p)
        else if c == S.BACKSLASH then
          var e := S.Prepend(out, S.Escape(b, p));
          r == if e.Ok? then S.Prepend(e.value, S.StrBody(b, e.pos)) else Err(e.word, e.off)
        else r == S.Prepend(out + [c], S.StrBody(b, p + 1)))
  {
    if p < |b| {
      if b[p] == S.QUOTE {
        assert out + [] == out;
      } else if b[p] == S.BACKSLASH {
        if S.Escape(b, p).Ok? {
          Regroup(out, S.Escape(b, p).value, S.StrBody(b, S.Escape(b, p).pos));
        }
      } else if b[p] >= 0x20 {
        Regroup(out, [b[p]], S.StrBody(b, p + 1));
      }
    }
  }

  lemma Regroup(out: Bytes, x: Bytes, r: Res<Bytes>)
    ensures S.Prepend(out, S.Prepend(x, r)) == S.Prepend(out + x, r)
  {
    if r.Ok? {
      assert out + (x + r.value) == out + x + r.value;
    }
  }

  /** What the walker does once inside a container. */
  lemma ContainerOpens(b: Bytes, p: nat, d: nat)
    requires p < |b|
    ensures var isObj := b[p] == K.Open(true); var q := B.Ws(b, p + 1);
      K.SkipContainer(b, p, d) ==
      if d + 1 > K.DEPTH_LIMIT then Err(DepthExceeded, p)
      else if B.At(b, q) == K.Shut(isObj) then K.Step(q + 1) else K.SkipMembers(b, q, d + 1, isObj)
  {
    hide K.SkipMembers, B.Ws;
  }
}
