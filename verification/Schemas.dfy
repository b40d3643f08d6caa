/** The records and service messages of the configuration facade, as field lists. */
module Schemas {
  import opened Bytes
  import opened Utf8
  import opened Records
  import Integers
  import Reader
  import Skip

  function Need(key: string, kind: Kind): Field
    requires forall i :: 0 <= i < |key| ==> key[i] as int < 128
  {
    Field(Ascii(key), true, kind)
  }

  const INT32 := KInt(-0x8000_0000, 0x7FFF_FFFF)
  const INT64 := KInt(Integers.MIN64, Integers.MAX64)

  const RUN_OVERRIDES := KRec([Need("nas_store", KStr), Need("store", KStr), Need("log_sink", KStr), Need("log_service", KStr)])
  const ORIGIN := KRec([Need("rung", KStr), Need("path", KStr)])
  const ORIGINS := KRec([Need("nas_store", ORIGIN), Need("store", ORIGIN), Need("log_sink", ORIGIN),
                         Need("log_service", ORIGIN), Need("off", ORIGIN)])
  const SNAPSHOT := KRec([Need("nas_store", KStr), Need("store", KStr), Need("log_sink", KStr), Need("log_service", KStr),
                          Need("off", KMap), Need("origins", ORIGINS), Need("stamp", KStr)])
  const USER_SETTINGS := KRec([Need("nas_store", KStr), Need("store", KStr), Need("log_sink", KStr), Need("log_service", KStr),
                               Need("off", KMap)])
  const USER_SNAPSHOT := KRec([Need("values", USER_SETTINGS), Need("revision", KStr)])
  const REPLACE_WORDS := KEnum([Ascii("applied"), Ascii("conflict"), Ascii("forbidden"), Ascii("unavailable")])
  const REPLACE_RESULT := KRec([Need("outcome", REPLACE_WORDS), Need("snapshot", USER_SNAPSHOT)])
  const OBSERVE_WORDS := KEnum([Ascii("snapshot"), Ascii("unchanged"), Ascii("gap"), Ascii("unavailable"), Ascii("unsupported"),
                                Ascii("invalid")])
  const OBSERVATION := KRec([Need("outcome", OBSERVE_WORDS), Need("cursor", KStr), Field(Ascii("snapshot"), false, SNAPSHOT)])

  const READ_ARGUMENTS := KRec([Need("overrides", RUN_OVERRIDES)])
  const READ_USER_ARGUMENTS := KRec([])
  const REPLACE_USER_ARGUMENTS := KRec([Need("expected_revision", KStr), Need("values", USER_SETTINGS)])
  const OBSERVE_ARGUMENTS := KRec([Need("overrides", RUN_OVERRIDES), Need("cursor", KStr), Need("wait_ms", INT64)])

  function ResultOf(kind: Kind): Kind {
    KRec([Need("value", kind)])
  }

  const FRAME_FIELDS := [Need("version", INT32), Need("service", KStr), Need("method", KStr), Need("arguments", KRaw)]
  const REPLY_FIELDS := [Need("version", INT32), Need("service", KStr), Need("method", KStr), Need("ok", KBool), Need("payload", KRaw)]
  const ERROR_FIELDS := [Need("code", KStr), Need("message", KStr)]
  const FRAME := KRec(FRAME_FIELDS)
  const REPLY := KRec(REPLY_FIELDS)
  const ERROR := KRec(ERROR_FIELDS)

  lemma {:induction false} AsciiIsUtf8(b: Bytes)
    requires forall i :: 0 <= i < |b| ==> b[i] < 0x80
    ensures ValidUtf8(b)
  {
    if |b| > 0 {
      assert Point(b, 1) == b[0];
      assert CharLen(b) == 1;
      AsciiIsUtf8(b[1..]);
    }
  }

  lemma LiteralIsUtf8(s: string)
    requires forall i :: 0 <= i < |s| ==> s[i] as int < 128
    ensures ValidUtf8(Ascii(s)) && |Ascii(s)| == |s|
  {
    AsciiIsUtf8(Ascii(s));
  }

  lemma LiteralsDiffer(s: string, t: string)
    requires forall i :: 0 <= i < |s| ==> s[i] as int < 128
    requires forall i :: 0 <= i < |t| ==> t[i] as int < 128
    ensures Ascii(s) == Ascii(t) ==> s == t
  {
    if Ascii(s) == Ascii(t) {
      forall i | 0 <= i < |s|
        ensures s[i] == t[i]
      {
        assert Ascii(s)[i] == Ascii(t)[i];
      }
    }
  }

  /** A schema the codec can carry from depth d: well formed, narrow enough, within the limit. */
  predicate Good(k: Kind, d: nat) {
    GoodKind(k) && Reader.Narrow(k) && Fits(k, d)
  }

  /** The wire names of a record, all required but the last. */
  predicate Names(fields: seq<Field>, names: seq<string>) {
    && |fields| == |names|
    && (forall i, j :: 0 <= i < |names| && 0 <= j < |names[i]| ==> names[i][j] as int < 128)
    && (forall i :: 0 <= i < |names| ==> fields[i].key == Ascii(names[i]))
    && (forall i, j :: 0 <= i < j < |names| ==> names[i] != names[j])
  }

  lemma RecordGood(fields: seq<Field>, names: seq<string>, d: nat)
    requires Names(fields, names) && |fields| <= 32 && (|fields| > 0 ==> fields[0].required) && d + 1 <= Skip.DEPTH_LIMIT
    requires forall i :: 0 <= i < |fields| ==> Good(fields[i].kind, d + 1)
    ensures Good(KRec(fields), d)
  {
    forall i, j | 0 <= i < j < |fields|
      ensures fields[i].key != fields[j].key
    {
      LiteralsDiffer(names[i], names[j]);
    }
    forall i | 0 <= i < |fields|
      ensures ValidUtf8(fields[i].key)
    {
      LiteralIsUtf8(names[i]);
    }
  }

  lemma PlainGood(d: nat)
    requires d < 64
    ensures Good(KStr, d) && Good(KBool, d) && Good(KRaw, d) && Good(INT32, d)
    ensures Data(KStr, d) && Data(KMap, d) && Data(INT64, d)
  {
  }

  /** No part of the record is carried without being read. */
  predicate Interpreted(k: Kind) {
    !k.KRaw? && (k.KRec? ==> forall i :: 0 <= i < |k.fields| ==> Interpreted(k.fields[i].kind))
  }

  /** A record of the service: the codec can carry it, and reads all of it. */
  predicate Data(k: Kind, d: nat) {
    Good(k, d) && Interpreted(k)
  }

  lemma {:induction false} InterpretedIsOpaque(k: Kind, v: Value, d: nat)
    requires Interpreted(k) && Typed(k, v)
    ensures Opaque(k, v, d)
    decreases k
  {
    if k.KRec? {
      forall i | 0 <= i < |k.fields| && v.vals[i].Some?
        ensures Opaque(k.fields[i].kind, v.vals[i].value, d + 1)
      {
        InterpretedIsOpaque(k.fields[i].kind, v.vals[i].value, d + 1);
      }
    }
  }

  lemma RecordData(fields: seq<Field>, names: seq<string>, d: nat)
    requires Names(fields, names) && |fields| <= 32 && (|fields| > 0 ==> fields[0].required) && d + 1 <= Skip.DEPTH_LIMIT
    requires forall i :: 0 <= i < |fields| ==> Data(fields[i].kind, d + 1)
    ensures Data(KRec(fields), d)
  {
    RecordGood(fields, names, d);
  }

  lemma OverridesGood(d: nat)
    requires d < 60
    ensures Data(RUN_OVERRIDES, d)
  {
    hide Data, GoodKind, Fits, Reader.Narrow, Ascii, ValidUtf8;
    PlainGood(d + 1);
    RecordData(RUN_OVERRIDES.fields, ["nas_store", "store", "log_sink", "log_service"], d);
  }

  lemma OriginGood(d: nat)
    requires d < 60
    ensures Data(ORIGIN, d)
  {
    hide Data, GoodKind, Fits, Reader.Narrow, Ascii, ValidUtf8;
    PlainGood(d + 1);
    RecordData(ORIGIN.fields, ["rung", "path"], d);
  }

  lemma OriginsGood(d: nat)
    requires d < 59
    ensures Data(ORIGINS, d)
  {
    hide Data, GoodKind, Fits, Reader.Narrow, Ascii, ValidUtf8;
    PlainGood(d + 1);
    OriginGood(d + 1);
    RecordData(ORIGINS.fields, ["nas_store", "store", "log_sink", "log_service", "off"], d);
  }

  lemma SnapshotGood(d: nat)
    requires d < 58
    ensures Data(SNAPSHOT, d)
  {
    hide Data, GoodKind, Fits, Reader.Narrow, Ascii, ValidUtf8;
    PlainGood(d + 1);
    OriginsGood(d + 1);
    RecordData(SNAPSHOT.fields, ["nas_store", "store", "log_sink", "log_service", "off", "origins", "stamp"], d);
  }

  lemma SettingsGood(d: nat)
    requires d < 60
    ensures Data(USER_SETTINGS, d)
  {
    hide Data, GoodKind, Fits, Reader.Narrow, Ascii, ValidUtf8;
    PlainGood(d + 1);
    RecordData(USER_SETTINGS.fields, ["nas_store", "store", "log_sink", "log_service", "off"], d);
  }

  lemma UserSnapshotGood(d: nat)
    requires d < 59
    ensures Data(USER_SNAPSHOT, d)
  {
    hide Data, GoodKind, Fits, Reader.Narrow, Ascii, ValidUtf8;
    PlainGood(d + 1);
    SettingsGood(d + 1);
    RecordData(USER_SNAPSHOT.fields, ["values", "revision"], d);
  }

  /** The words of an enum, told apart by their text. */
  lemma WordsGood(words: seq<Bytes>, names: seq<string>, d: nat)
    requires forall i, j :: 0 <= i < |names| && 0 <= j < |names[i]| ==> names[i][j] as int < 128
    requires |words| == |names| && forall i :: 0 <= i < |names| ==> words[i] == Ascii(names[i])
    requires forall i, j :: 0 <= i < j < |names| ==> names[i] != names[j]
    ensures Data(KEnum(words), d)
  {
    forall i, j | 0 <= i < j < |words|
      ensures words[i] != words[j]
    {
      LiteralsDiffer(names[i], names[j]);
    }
    forall i | 0 <= i < |words|
      ensures ValidUtf8(words[i])
    {
      LiteralIsUtf8(names[i]);
    }
  }

  lemma ReplaceResultGood(d: nat)
    requires d < 58
    ensures Data(REPLACE_RESULT, d)
  {
    hide Data, GoodKind, Fits, Reader.Narrow, Ascii, ValidUtf8;
    PlainGood(d + 1);
    UserSnapshotGood(d + 1);
    WordsGood(REPLACE_WORDS.words, ["applied", "conflict", "forbidden", "unavailable"], d + 1);
    RecordData(REPLACE_RESULT.fields, ["outcome", "snapshot"], d);
  }

  lemma ObservationGood(d: nat)
    requires d < 57
    ensures Data(OBSERVATION, d)
  {
    hide Data, GoodKind, Fits, Reader.Narrow, Ascii, ValidUtf8;
    PlainGood(d + 1);
    SnapshotGood(d + 1);
    WordsGood(OBSERVE_WORDS.words, ["snapshot", "unchanged", "gap", "unavailable", "unsupported", "invalid"], d + 1);
    RecordData(OBSERVATION.fields, ["outcome", "cursor", "snapshot"], d);
  }

  lemma ResultGood(k: Kind, d: nat)
    requires Data(k, d + 1) && d < 60
    ensures Data(ResultOf(k), d)
  {
    hide Data, GoodKind, Fits, Reader.Narrow, Ascii, ValidUtf8;
    PlainGood(d + 1);
    RecordData(ResultOf(k).fields, ["value"], d);
  }

  lemma FrameGood()
    ensures Good(FRAME, 0)
  {
    hide Good, GoodKind, Fits, Reader.Narrow, Ascii, ValidUtf8;
    PlainGood(1);
    RecordGood(FRAME_FIELDS, ["version", "service", "method", "arguments"], 0);
  }

  lemma ReplyGood()
    ensures Good(REPLY, 0)
  {
    hide Good, GoodKind, Fits, Reader.Narrow, Ascii, ValidUtf8;
    PlainGood(1);
    RecordGood(REPLY_FIELDS, ["version", "service", "method", "ok", "payload"], 0);
  }

  lemma ErrorGood()
    ensures Good(ERROR, 1)
  {
    hide Good, GoodKind, Fits, Reader.Narrow, Ascii, ValidUtf8;
    PlainGood(2);
    RecordGood(ERROR_FIELDS, ["code", "message"], 1);
  }

  lemma ReadArgumentsGood()
    ensures Data(READ_ARGUMENTS, 1) && Data(READ_USER_ARGUMENTS, 1)
  {
    hide Data, GoodKind, Fits, Reader.Narrow, Ascii, ValidUtf8;
    OverridesGood(2);
    RecordData(READ_ARGUMENTS.fields, ["overrides"], 1);
    RecordData(READ_USER_ARGUMENTS.fields, [], 1);
  }

  lemma ReplaceArgumentsGood()
    ensures Data(REPLACE_USER_ARGUMENTS, 1)
  {
    hide Data, GoodKind, Fits, Reader.Narrow, Ascii, ValidUtf8;
    PlainGood(2);
    SettingsGood(2);
    RecordData(REPLACE_USER_ARGUMENTS.fields, ["expected_revision", "values"], 1);
  }

  lemma ObserveArgumentsGood()
    ensures Data(OBSERVE_ARGUMENTS, 1)
  {
    hide Data, GoodKind, Fits, Reader.Narrow, Ascii, ValidUtf8;
    PlainGood(2);
    OverridesGood(2);
    RecordData(OBSERVE_ARGUMENTS.fields, ["overrides", "cursor", "wait_ms"], 1);
  }
}
