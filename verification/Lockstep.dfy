/** The typed decoders and the opaque walker take the same steps. */
module Lockstep {
  import opened Bytes
  import opened Utf8
  import opened Strings
  import opened Skip
  import opened Records
  import opened RoundTrip
  import Grammar
  import Integers

  /** Where the decoder succeeds the walker ends at the same byte; where a string stops one, it stops both. */
  predicate Follows<T>(r: Res<T>, s: Res<()>) {
    && (r.Ok? ==> s == Step(r.pos))
    && (r.Err? && r.word == BadString ==> s == Err(BadString, r.off))
  }

  lemma NameIsKey(b: Bytes, p: nat)
    requires p <= |b|
    ensures Name(b, p).Ok? ==> SkipKey(b, Ws(b, p), true) == Step(Ws(b, Name(b, p).pos + 1))
    ensures Name(b, p).Err? ==> SkipKey(b, Ws(b, p), true) == Err(Name(b, p).word, Name(b, p).off)
  {
    hide Str, Ws;
  }

  lemma MembersStep(b: Bytes, p: nat, d: nat, isObj: bool)
    requires p <= |b|
    ensures var k := SkipKey(b, Ws(b, p), isObj);
      if k.Err? then SkipMembers(b, p, d, isObj) == Err(k.word, k.off)
      else
        var v := SkipValue(b, k.pos, d);
        if v.Err? then SkipMembers(b, p, d, isObj) == Err(v.word, v.off)
        else SkipMembers(b, p, d, isObj) == NextMember(b, Ws(b, v.pos), d, isObj)
  {
    var k := SkipKey(b, Ws(b, p), isObj);
    hide *;
    if k.Err? {
      KeyStops(b, p, d, isObj);
    } else if SkipValue(b, k.pos, d).Err? {
      ValueStops(b, p, d, isObj);
    } else {
      MemberPasses(b, p, d, isObj);
    }
  }

  lemma KeyStops(b: Bytes, p: nat, d: nat, isObj: bool)
    requires p <= |b| && SkipKey(b, Ws(b, p), isObj).Err?
    ensures var k := SkipKey(b, Ws(b, p), isObj); SkipMembers(b, p, d, isObj) == Err(k.word, k.off)
  {
    hide SkipKey, SkipValue, Ws, At;
  }

  lemma ValueStops(b: Bytes, p: nat, d: nat, isObj: bool)
    requires p <= |b| && SkipKey(b, Ws(b, p), isObj).Ok? && SkipValue(b, SkipKey(b, Ws(b, p), isObj).pos, d).Err?
    ensures var v := SkipValue(b, SkipKey(b, Ws(b, p), isObj).pos, d); SkipMembers(b, p, d, isObj) == Err(v.word, v.off)
  {
    hide SkipKey, SkipValue, Ws, At;
  }

  lemma MemberPasses(b: Bytes, p: nat, d: nat, isObj: bool)
    requires p <= |b| && SkipKey(b, Ws(b, p), isObj).Ok? && SkipValue(b, SkipKey(b, Ws(b, p), isObj).pos, d).Ok?
    ensures var v := SkipValue(b, SkipKey(b, Ws(b, p), isObj).pos, d);
      SkipMembers(b, p, d, isObj) == NextMember(b, Ws(b, v.pos), d, isObj)
  {
    hide SkipKey, SkipValue, Ws, At;
  }

  function NextMember(b: Bytes, n: nat, d: nat, isObj: bool): Res<()>
    requires n <= |b|
  {
    if At(b, n) == COMMA then SkipMembers(b, n + 1, d, isObj)
    else if At(b, n) == Shut(isObj) then Step(n + 1)
    else Err(Malformed, n)
  }

  lemma StringStep(b: Bytes, p: nat, d: nat)
    requires p <= |b|
    ensures Follows(Str(b, p), SkipValue(b, p, d))
  {
    hide StrBody, ValidUtf8;
  }

  lemma {:induction false} MapStep(b: Bytes, p: nat, d: nat, acc: map<Bytes, Bytes>)
    requires p <= |b|
    ensures Follows(DecMembers(b, p, acc), SkipMembers(b, p, d, true))
    decreases |b| - p
  {
    hide Name, SkipKey, SkipValue, SkipMembers, DecMembers, Str, Ws;
    NameIsKey(b, p);
    MembersStep(b, p, d, true);
    EntryStep(b, p, acc);
    if Name(b, p).Ok? {
      var v := Ws(b, Name(b, p).pos + 1);
      StringStep(b, v, d);
      if Str(b, v).Ok? {
        var n := Ws(b, Str(b, v).pos);
        if At(b, n) == COMMA {
          CommaInside(b, n);
          MapStep(b, n + 1, d, acc[Name(b, p).value := Str(b, v).value]);
        }
      }
    }
  }

  lemma CommaInside(b: Bytes, n: nat)
    requires At(b, n) == COMMA
    ensures n < |b|
  {
  }

  lemma ContainerStep(b: Bytes, p: nat, d: nat)
    requires p < |b| && b[p] == LBRACE
    ensures SkipValue(b, p, d) ==
      if d + 1 > DEPTH_LIMIT then Err(DepthExceeded, p)
      else
        var q := Ws(b, p + 1);
        if At(b, q) == RBRACE then Step(q + 1) else SkipMembers(b, q, d + 1, true)
  {
    hide SkipMembers, Ws;
  }

  lemma MapFollows(b: Bytes, p: nat, d: nat)
    requires p <= |b|
    ensures Follows(DecMap(b, p, d), SkipValue(b, p, d))
  {
    hide SkipMembers, SkipValue, DecMembers, Ws;
    if At(b, p) == LBRACE {
      ContainerStep(b, p, d);
      MapStep(b, Ws(b, p + 1), d + 1, map[]);
    }
  }

  lemma IntegerFollows(b: Bytes, p: nat, d: nat, min: int, max: int)
    requires p <= |b| && Integers.MIN64 <= min && max <= Integers.MAX64
    ensures Follows(Integers.Integer(b, p, min, max), SkipValue(b, p, d))
  {
    var r := Integers.Integer(b, p, min, max);
    if r.Ok? {
      Integers.IntegerIsNum(b, p, min, max, r.value, r.pos);
      SpelledIsSkipped(b, p, r.value, r.pos);
      NumberDispatch(b, p, d);
    } else {
      NoStringInInteger(b, p, min, max);
    }
  }

  lemma NoStringInInteger(b: Bytes, p: nat, min: int, max: int)
    requires p <= |b|
    ensures Integers.Integer(b, p, min, max).Err? ==> Integers.Integer(b, p, min, max).word != BadString
  {
  }

  lemma NumberDispatch(b: Bytes, p: nat, d: nat)
    requires p <= |b| && (At(b, p) == MINUS || Digit(At(b, p)))
    ensures SkipValue(b, p, d) == SkipNumber(b, p)
  {
    hide SkipNumber, SkipContainer;
  }

  /** A canonical spelling as a number of the grammar. */
  function Tree(n: int): Grammar.Num {
    Grammar.Num(n < 0, Integers.Digits(if n < 0 then -n else n), None, None)
  }

  lemma TreeSpells(n: int)
    ensures Grammar.GoodNum(Tree(n)) && Grammar.SpellNum(Tree(n)) == Integers.Num(n)
  {
    Integers.DigitsAreCanonical(if n < 0 then -n else n);
    hide Integers.Digits, Integers.Val;
  }

  lemma SpelledStops(b: Bytes, p: nat, n: int, q: nat)
    requires Integers.Spelled(b, p, n, q)
    ensures StartsAt(b, p, Integers.Num(n)) && q == p + |Integers.Num(n)| && Grammar.NumStops(Tree(n), At(b, q))
  {
    hide Integers.Num, Integers.Digits, StartsAt;
  }

  lemma SpelledIsSkipped(b: Bytes, p: nat, n: int, q: nat)
    requires p <= |b| && Integers.Spelled(b, p, n, q)
    ensures SkipNumber(b, p) == Step(q) && (At(b, p) == MINUS || Digit(At(b, p)))
  {
    hide *;
    TreeSpells(n);
    SpelledStops(b, p, n, q);
    NumberRead(b, p, Tree(n));
    AtInside(b, p);
  }

  lemma AtInside(b: Bytes, p: nat)
    requires p < |b|
    ensures At(b, p) == b[p]
  {
  }

  lemma BooleanFollows(b: Bytes, p: nat, d: nat)
    requires p <= |b|
    ensures Follows(Boolean(b, p), SkipValue(b, p, d))
  {
    hide SkipContainer, SkipNumber, StartsAt;
  }

  lemma FieldsStep(b: Bytes, p: nat, d: nat, fields: seq<Field>, vals: seq<Option<Value>>)
    requires p <= |b| && |vals| == |fields|
    ensures var r := DecFields(b, p, d, fields, vals);
      && (Name(b, p).Err? ==> r == Err(Name(b, p).word, Name(b, p).off))
      && (Name(b, p).Ok? ==>
        var v := Ws(b, Name(b, p).pos + 1);
        var i := FieldIndex(fields, Name(b, p).value, 0);
        if i == |fields| then r == Err(UnknownField, if |fields| == 0 then Name(b, p).pos else v)
        else if vals[i].Some? then r == Err(DuplicateField, v)
        else
          var x := Dec(b, v, d, fields[i].kind);
          if x.Err? then r == Err(x.word, x.off) else r == After(b, x.pos, d, fields, vals[i := Some(x.value)]))
  {
    hide Name, Ws, Dec, After;
  }

  lemma {:induction false} FieldsFollow(b: Bytes, p: nat, d: nat, fields: seq<Field>, vals: seq<Option<Value>>)
    requires p <= |b| && |vals| == |fields| && GoodKind(KRec(fields))
    ensures Follows(DecFields(b, p, d, fields, vals), SkipMembers(b, p, d, true))
    decreases |b| - p, 2
  {
    hide Name, SkipKey, SkipValue, SkipMembers, DecFields, Dec, Ws, After;
    NameIsKey(b, p);
    MembersStep(b, p, d, true);
    FieldsStep(b, p, d, fields, vals);
    if Name(b, p).Ok? {
      var v := Ws(b, Name(b, p).pos + 1);
      var i := FieldIndex(fields, Name(b, p).value, 0);
      if i < |fields| && vals[i].None? {
        DecFollows(b, v, d, fields[i].kind);
        var x := Dec(b, v, d, fields[i].kind);
        if x.Ok? {
          AfterFollows(b, x.pos, d, fields, vals[i := Some(x.value)]);
        }
      }
    }
  }

  lemma {:induction false} AfterFollows(b: Bytes, p: nat, d: nat, fields: seq<Field>, vals: seq<Option<Value>>)
    requires p <= |b| && |vals| == |fields| && GoodKind(KRec(fields))
    ensures Follows(After(b, p, d, fields, vals), NextMember(b, Ws(b, p), d, true))
    decreases |b| - p, 1
  {
    hide SkipMembers, DecFields, Ws, GoodKind, Complete;
    var n := Ws(b, p);
    if At(b, n) == COMMA {
      CommaInside(b, n);
      FieldsFollow(b, n + 1, d, fields, vals);
    }
  }

  lemma {:induction false} RecordFollows(b: Bytes, p: nat, d: nat, fields: seq<Field>)
    requires p <= |b| && GoodKind(KRec(fields))
    ensures Follows(DecRec(b, p, d, fields), SkipValue(b, p, d))
    decreases |b| - p, 0
  {
    hide SkipMembers, SkipValue, DecFields, Ws, GoodKind, Complete, NoVals;
    if At(b, p) == LBRACE {
      ContainerStep(b, p, d);
      FieldsFollow(b, Ws(b, p + 1), d + 1, fields, NoVals(|fields|));
    }
  }

  /** Whatever a typed decoder accepts is a JSON value that ends at the same byte, at the same depth. */
  lemma {:induction false} DecFollows(b: Bytes, p: nat, d: nat, k: Kind)
    requires p <= |b| && GoodKind(k)
    ensures Follows(Dec(b, p, d, k), SkipValue(b, p, d))
    decreases |b| - p, 1
  {
    hide SkipValue, DecRec, DecMap, Str, Boolean, Index;
    match k
    case KStr => StringStep(b, p, d);
    case KInt(min, max) => IntegerFollows(b, p, d, min, max);
    case KBool => BooleanFollows(b, p, d);
    case KMap => MapFollows(b, p, d);
    case KEnum(words) => StringStep(b, p, d);
    case KRaw =>
      if SkipValue(b, p, d).Ok? {
        assert SkipValue(b, p, d).value == ();
      }
    case KRec(fields) => RecordFollows(b, p, d, fields);
  }

  /** An encoded value is one whole opaque value, or is broken by a bad string in it. */
  lemma EncIsOpaque(k: Kind, v: Value, depth: nat, d: nat)
    requires Sendable(k, v, d)
    ensures Valid(k, v, d) ==> Whole(Enc(k, v, depth), d)
    ensures !Valid(k, v, d) ==> Broken(Enc(k, v, depth), d)
  {
    hide SkipValue, Dec, StartsAt, GoodKind, Typed, Known, Fits, Opaque, Valid, Enc, Integers.Continues;
    var text := Enc(k, v, depth);
    EncStart(k, v, depth, d);
    forall b: Bytes, p: nat | p <= |b| && StartsAt(b, p, text) && !Integers.Continues(At(b, p + |text|))
      ensures Valid(k, v, d) ==> SkipValue(b, p, d) == Step(p + |text|)
      ensures !Valid(k, v, d) ==> SkipValue(b, p, d).Err? && SkipValue(b, p, d).word == BadString
    {
      DecEnc(b, p, d, depth, k, v);
      DecFollows(b, p, d, k);
    }
  }

  /** Any JSON value of the grammar, paired and within the limit, may be carried as an opaque one. */
  lemma GrammarIsWhole(j: Grammar.Json, d: nat)
    requires Grammar.WellFormed(j) && Grammar.AllPaired(j) && d + Grammar.Depth(j) <= DEPTH_LIMIT
    ensures Whole(Grammar.Spell(j), d)
  {
    hide SkipValue, StartsAt, Grammar.Spell, Grammar.WellFormed, Grammar.AllPaired, Grammar.Depth;
    var text := Grammar.Spell(j);
    StartsItself(text);
    SpellStart(text, 0, j);
    forall b: Bytes, p: nat | p <= |b| && StartsAt(b, p, text) && !Integers.Continues(At(b, p + |text|))
      ensures SkipValue(b, p, d) == Step(p + |text|)
    {
      StopsAtAny(j, At(b, p + |text|));
      SkipComplete(b, p, d, j);
    }
  }

  lemma BrokenIsNotWhole(text: Bytes, d: nat)
    requires Broken(text, d)
    ensures !Whole(text, d)
  {
    StartsItself(text);
    assert SkipValue(text, 0, d).Err?;
  }

  lemma StartsItself(s: Bytes)
    ensures StartsAt(s, 0, s)
  {
  }

  lemma StopsAtAny(j: Grammar.Json, c: byte)
    requires !Integers.Continues(c)
    ensures Grammar.Stops(j, c)
  {
  }
}
