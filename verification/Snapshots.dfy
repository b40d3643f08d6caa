/** The snapshot record as a document of its own: Encode and Decode. */
module Snapshots {
  import opened Bytes
  import opened Records
  import C = Canonical
  import D = Decoded
  import Grammar
  import Layout
  import Meaning
  import Reader
  import RoundTrip
  import Schemas
  import Writer

  predicate IsSnapshot(s: Value) {
    Typed(Schemas.SNAPSHOT, s) && Known(Schemas.SNAPSHOT, s)
  }

  /** The document of a snapshot. */
  ghost function Document(s: Value): Bytes
    requires IsSnapshot(s)
  {
    Enc(Schemas.SNAPSHOT, s, 0) + [NEWLINE]
  }

  method Encode(s: Value) returns (out: Bytes)
    requires IsSnapshot(s)
    ensures out == Document(s)
  {
    hide Enc, Typed, Known, GoodKind, Fits;
    Schemas.SnapshotGood(0);
    var text := Writer.Value([], Schemas.SNAPSHOT, s, 0);
    assert text.value == [] + Enc(Schemas.SNAPSHOT, s, 0) == Enc(Schemas.SNAPSHOT, s, 0);
    out := text.value + [NEWLINE];
  }

  method Decode(input: Bytes) returns (r: Res<Value>)
    ensures r == Text(input, 0, 0, Schemas.SNAPSHOT)
  {
    hide Text, GoodKind, Fits;
    Schemas.SnapshotGood(0);
    var reader := new Reader.Reader(input, 0);
    r := reader.Whole(Schemas.SNAPSHOT);
  }

  lemma Sendable(s: Value)
    requires IsSnapshot(s)
    ensures RoundTrip.Sendable(Schemas.SNAPSHOT, s, 0)
  {
    hide Typed, Known, GoodKind, Fits, Reader.Narrow, Opaque, Schemas.Interpreted;
    Schemas.SnapshotGood(0);
    Schemas.InterpretedIsOpaque(Schemas.SNAPSHOT, s, 0);
  }

  /** Decode(Encode(s)) is s, or the refusal of a bad string if one of its strings is not valid UTF-8. */
  lemma DecodesBack(s: Value)
    requires IsSnapshot(s)
    ensures RoundTrip.Answers(Text(Document(s), 0, 0, Schemas.SNAPSHOT), Valid(Schemas.SNAPSHOT, s, 0), s, |Document(s)|)
  {
    hide Typed, Known, GoodKind, Fits, Opaque, Enc, Text, Valid, RoundTrip.Sendable;
    Sendable(s);
    D.TextOfEnc(Schemas.SNAPSHOT, s, 0, 0, [NEWLINE]);
  }

  /** The document of a snapshot is a JSON text of one layout, a line break after it, and says the snapshot. */
  lemma DocumentIsPrinted(s: Value) returns (j: Grammar.Json)
    requires IsSnapshot(s) && Valid(Schemas.SNAPSHOT, s, 0)
    ensures Grammar.WellFormed(j) && Grammar.AllPaired(j) && Document(s) == Grammar.Spell(j) + [0x0A]
    ensures Layout.Printed(Schemas.SNAPSHOT, j, 0) && Meaning.SenseOf(Schemas.SNAPSHOT, j) == Meaning.Is(s)
  {
    hide Typed, Known, GoodKind, Fits, Opaque, Enc, Valid, RoundTrip.Sendable, Grammar.WellFormed, Grammar.AllPaired, Grammar.Spell,
      Layout.Printed, Meaning.SenseOf;
    Sendable(s);
    j := Layout.EncIsPrinted(Schemas.SNAPSHOT, s, 0, 0);
  }

  /** A text is decoded as a snapshot exactly when it is a JSON text that says it, blanks around it and nothing more. */
  lemma DecodeIsJson(input: Bytes, s: Value)
    ensures Text(input, 0, 0, Schemas.SNAPSHOT) == Ok(s, |input|) <==>
      exists p: nat, j: Grammar.Json ::
        Meaning.Stands(input, 0, 0, p, j) && Meaning.BlankUpTo(input, p + |Grammar.Spell(j)|, |input|)
        && Meaning.SenseOf(Schemas.SNAPSHOT, j) == Meaning.Is(s)
  {
    hide GoodKind, Fits, Text, Meaning.SenseOf, Reader.Narrow, Schemas.Interpreted;
    Schemas.SnapshotGood(0);
    Meaning.TextIsJson(input, 0, 0, Schemas.SNAPSHOT, s);
  }

  /** Different snapshots have different documents, whatever bytes their strings hold. */
  lemma DocumentsTellApart(s: Value, t: Value)
    requires IsSnapshot(s) && IsSnapshot(t) && Document(s) == Document(t)
    ensures s == t
  {
    hide Typed, Known, GoodKind, Fits, Reader.Narrow, Schemas.Interpreted, Enc, C.Carried;
    Schemas.SnapshotGood(0);
    C.InterpretedIsCarried(Schemas.SNAPSHOT, s, 0);
    C.InterpretedIsCarried(Schemas.SNAPSHOT, t, 0);
    var x, y := Enc(Schemas.SNAPSHOT, s, 0), Enc(Schemas.SNAPSHOT, t, 0);
    assert x == (x + [NEWLINE])[..|x|] && y == (y + [NEWLINE])[..|y|] && |x + [NEWLINE]| == |y + [NEWLINE]|;
    C.EncIsInjective(Schemas.SNAPSHOT, s, t, 0, 0);
  }
}
