/** What a decoder accepts is a well-formed value: typed, complete, in vocabulary, and fit to be sent again. */
module Decoded {
  import opened Bytes
  import opened Utf8
  import opened Strings
  import opened Skip
  import opened Records
  import opened Lockstep
  import Grammar
  import Integers
  import Reader
  import RoundTrip

  ghost predicate Sound(k: Kind, v: Value, d: nat) {
    Typed(k, v) && Known(k, v) && Valid(k, v, d)
  }

  /** The fields read so far are sound; the others are not there yet. */
  ghost predicate Partial(fields: seq<Field>, vals: seq<Option<Value>>, d: nat) {
    |vals| == |fields| && forall i :: 0 <= i < |fields| && vals[i].Some? ==> Sound(fields[i].kind, vals[i].value, d)
  }

  lemma CompleteIsSound(fields: seq<Field>, vals: seq<Option<Value>>, d: nat)
    requires Partial(fields, vals, d + 1) && Complete(fields, vals)
    ensures Sound(KRec(fields), VRec(vals), d)
  {
  }

  lemma SkippedIsWhole(b: Bytes, p: nat, d: nat)
    requires p <= |b| && d <= DEPTH_LIMIT && SkipValue(b, p, d).Ok?
    ensures Whole(b[p..SkipValue(b, p, d).pos], d)
  {
    hide SkipValue, Whole, Grammar.WellFormed, Grammar.AllPaired, Grammar.Spell, Grammar.Depth, Grammar.Stops;
    var j := ValueOf(b, p, d);
    GrammarIsWhole(j, d);
  }

  ghost predicate ValidEntries(m: map<Bytes, Bytes>) {
    forall x :: x in m ==> ValidUtf8(x) && ValidUtf8(m[x])
  }

  lemma {:induction false} MembersSound(b: Bytes, p: nat, m: map<Bytes, Bytes>)
    requires p <= |b| && ValidEntries(m)
    ensures DecMembers(b, p, m).Ok? ==> DecMembers(b, p, m).value.VMap? && ValidEntries(DecMembers(b, p, m).value.m)
    decreases |b| - p
  {
    hide Str, Ws, ValidUtf8, Name;
    NameIsValid(b, p);
    RoundTrip.EntryStep(b, p, m);
    if Name(b, p).Ok? {
      var s := Str(b, Ws(b, Name(b, p).pos + 1));
      if s.Ok? {
        var n := Ws(b, s.pos);
        if At(b, n) == COMMA {
          CommaInside(b, n);
          MembersSound(b, n + 1, m[Name(b, p).value := s.value]);
        }
      }
    }
  }

  lemma NameIsValid(b: Bytes, p: nat)
    requires p <= |b|
    ensures Name(b, p).Ok? ==> ValidUtf8(Name(b, p).value)
  {
    hide StrBody;
  }

  lemma {:induction false} FieldsSound(b: Bytes, p: nat, d: nat, fields: seq<Field>, vals: seq<Option<Value>>)
    requires p <= |b| && GoodKind(KRec(fields)) && Partial(fields, vals, d + 1) && d + 1 <= DEPTH_LIMIT
    ensures DecFields(b, p, d + 1, fields, vals).Ok? ==> Sound(KRec(fields), DecFields(b, p, d + 1, fields, vals).value, d)
    decreases |b| - p, 2
  {
    hide DecFields, Dec, Name, Ws, After, Sound, GoodKind, Reader.OneField;
    Reader.FieldsTurn(b, p, d + 1, fields, vals);
    var f := Reader.OneField(b, p, d + 1, fields, vals);
    if f.Ok? {
      FieldSound(b, p, d, fields, vals);
      AfterSound(b, f.pos, d, fields, f.value);
    }
  }

  lemma {:induction false} FieldSound(b: Bytes, p: nat, d: nat, fields: seq<Field>, vals: seq<Option<Value>>)
    requires p <= |b| && GoodKind(KRec(fields)) && Partial(fields, vals, d + 1) && d + 1 <= DEPTH_LIMIT
    ensures var f := Reader.OneField(b, p, d + 1, fields, vals); f.Ok? ==> f.pos > p && Partial(fields, f.value, d + 1)
    decreases |b| - p, 1
  {
    hide Dec, Name, Ws, Sound;
    if Name(b, p).Ok? {
      var v := Ws(b, Name(b, p).pos + 1);
      var i := FieldIndex(fields, Name(b, p).value, 0);
      if i < |fields| {
        DecSound(b, v, d + 1, fields[i].kind);
      }
    }
  }

  lemma {:induction false} AfterSound(b: Bytes, p: nat, d: nat, fields: seq<Field>, vals: seq<Option<Value>>)
    requires p <= |b| && GoodKind(KRec(fields)) && Partial(fields, vals, d + 1) && d + 1 <= DEPTH_LIMIT
    ensures After(b, p, d + 1, fields, vals).Ok? ==> Sound(KRec(fields), After(b, p, d + 1, fields, vals).value, d)
    decreases |b| - p, 3
  {
    hide DecFields, Ws, Sound, GoodKind, Complete;
    var n := Ws(b, p);
    if At(b, n) == COMMA {
      CommaInside(b, n);
      FieldsSound(b, n + 1, d, fields, vals);
    } else if Complete(fields, vals) {
      CompleteIsSound(fields, vals, d);
    }
  }

  lemma {:induction false} RecordSound(b: Bytes, p: nat, d: nat, fields: seq<Field>)
    requires p <= |b| && GoodKind(KRec(fields))
    ensures DecRec(b, p, d, fields).Ok? ==> Sound(KRec(fields), DecRec(b, p, d, fields).value, d)
    decreases |b| - p, 0
  {
    hide DecFields, Ws, Sound, GoodKind, Complete;
    if At(b, p) == LBRACE && d + 1 <= DEPTH_LIMIT {
      var vals := NoVals(|fields|);
      if At(b, Ws(b, p + 1)) != RBRACE {
        FieldsSound(b, Ws(b, p + 1), d, fields, vals);
      } else if Complete(fields, vals) {
        CompleteIsSound(fields, vals, d);
      }
    }
  }

  /**
   * A decoder yields only values of its type: every required field present, every enum in its
   * vocabulary, every integer in range, every string valid UTF-8 and every opaque value whole.
   */
  lemma {:induction false} DecSound(b: Bytes, p: nat, d: nat, k: Kind)
    requires p <= |b| && GoodKind(k) && d <= DEPTH_LIMIT
    ensures Dec(b, p, d, k).Ok? ==> Sound(k, Dec(b, p, d, k).value, d)
    decreases |b| - p, 1
  {
    hide DecRec, DecMembers, SkipValue, StrBody, Boolean, ValidUtf8, Ws, Whole;
    match k
    case KInt(min, max) =>
      var r := Integers.Integer(b, p, min, max);
      if r.Ok? {
        Integers.IntegerIsNum(b, p, min, max, r.value, r.pos);
      }
    case KMap =>
      MembersSound(b, Ws(b, p + if p < |b| then 1 else 0), map[]);
    case KRaw =>
      if SkipValue(b, p, d).Ok? {
        SkippedIsWhole(b, p, d);
      }
    case KRec(fields) =>
      RecordSound(b, p, d, fields);
    case _ =>
  }

  lemma {:induction false} ValidIsOpaque(k: Kind, v: Value, d: nat)
    requires Typed(k, v) && Valid(k, v, d)
    ensures Opaque(k, v, d)
    decreases k
  {
    hide Whole, Broken;
    if k.KRec? {
      forall i | 0 <= i < |k.fields| && v.vals[i].Some?
        ensures Opaque(k.fields[i].kind, v.vals[i].value, d + 1)
      {
        ValidIsOpaque(k.fields[i].kind, v.vals[i].value, d + 1);
      }
    }
  }

  /** A whole text is an encoding with blanks after it, or refused for a bad string in it. */
  lemma TextOfEnc(k: Kind, v: Value, depth: nat, d: nat, tail: Bytes)
    requires RoundTrip.Sendable(k, v, d) && AllBlank(tail)
    ensures var b := Enc(k, v, depth) + tail;
      RoundTrip.Answers(Text(b, 0, d, k), Valid(k, v, d), v, |b|)
  {
    hide Dec, Enc, Valid, Ws, Typed, Known, StartsAt, Opaque, Fits, GoodKind;
    var e := Enc(k, v, depth);
    var b := e + tail;
    RoundTrip.EncStart(k, v, depth, d);
    TailStops(e, tail);
    RoundTrip.WsNone(b, 0);
    WsOver(b, |e|, tail);
    RoundTrip.DecEnc(b, 0, d, depth, k, v);
  }

  lemma TailStops(e: Bytes, tail: Bytes)
    requires AllBlank(tail)
    ensures StartsAt(e + tail, 0, e) && StartsAt(e + tail, |e|, tail)
    ensures !Integers.Continues(At(e + tail, |e|)) && !Blank(At(e + tail, |e| + |tail|))
  {
  }

  /** Whatever text was accepted, writing its value again gives a text that is accepted as the same value. */
  lemma Reencodes(b: Bytes, p: nat, d: nat, k: Kind, depth: nat)
    requires p <= |b| && GoodKind(k) && Fits(k, d) && d <= DEPTH_LIMIT && Text(b, p, d, k).Ok?
    ensures var v := Text(b, p, d, k).value;
      Typed(k, v) && Known(k, v) && Text(Enc(k, v, depth), 0, d, k) == Ok(v, |Enc(k, v, depth)|)
  {
    hide Dec, Enc, GoodKind, Fits, Valid, Opaque, Typed, Known;
    DecSound(b, Ws(b, p), d, k);
    var v := Text(b, p, d, k).value;
    ValidIsOpaque(k, v, d);
    TextOfEnc(k, v, depth, d, []);
    assert Enc(k, v, depth) + [] == Enc(k, v, depth);
  }
}
