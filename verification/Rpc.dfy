/** One call through the generated client and dispatcher of a service. */
module Rpc {
  import opened Bytes
  import opened Utf8
  import opened Records
  import opened Schemas
  import D = Decoded
  import T = RoundTrip
  import L = Lockstep
  import Reader
  import Skip

  /** A service method: its wire names, its argument record and the record it answers with. */
  datatype Contract = Contract(service: Bytes, name: Bytes, args: Kind, result: Kind)

  ghost predicate GoodContract(c: Contract) {
    ValidUtf8(c.service) && ValidUtf8(c.name) && Data(c.args, 1) && Data(c.result, 2)
  }

  const READ := Contract(Ascii("abstraction.config/reader@1"), Ascii("Read"), READ_ARGUMENTS, SNAPSHOT)
  const READ_USER := Contract(Ascii("abstraction.config/editor@1"), Ascii("ReadUser"), READ_USER_ARGUMENTS, USER_SNAPSHOT)
  const REPLACE_USER := Contract(Ascii("abstraction.config/editor@1"), Ascii("ReplaceUser"), REPLACE_USER_ARGUMENTS, REPLACE_RESULT)
  const OBSERVE := Contract(Ascii("abstraction.config/observer@1"), Ascii("Observe"), OBSERVE_ARGUMENTS, OBSERVATION)

  lemma ReadGood()
    ensures GoodContract(READ)
  {
    hide ValidUtf8, Ascii, Data;
    LiteralIsUtf8("abstraction.config/reader@1");
    LiteralIsUtf8("Read");
    ReadArgumentsGood();
    SnapshotGood(2);
  }

  lemma ReadUserGood()
    ensures GoodContract(READ_USER)
  {
    hide ValidUtf8, Ascii, Data;
    LiteralIsUtf8("abstraction.config/editor@1");
    LiteralIsUtf8("ReadUser");
    ReadArgumentsGood();
    UserSnapshotGood(2);
  }

  lemma ReplaceUserGood()
    ensures GoodContract(REPLACE_USER)
  {
    hide ValidUtf8, Ascii, Data;
    LiteralIsUtf8("abstraction.config/editor@1");
    LiteralIsUtf8("ReplaceUser");
    ReplaceArgumentsGood();
    ReplaceResultGood(2);
  }

  lemma ObserveGood()
    ensures GoodContract(OBSERVE)
  {
    hide ValidUtf8, Ascii, Data;
    LiteralIsUtf8("abstraction.config/observer@1");
    LiteralIsUtf8("Observe");
    ObserveArgumentsGood();
    ObservationGood(2);
  }

  /** The four methods of the facade meet the conditions of the theorems below. */
  lemma ContractsGood()
    ensures GoodContract(READ) && GoodContract(READ_USER) && GoodContract(REPLACE_USER) && GoodContract(OBSERVE)
  {
    hide GoodContract;
    ReadGood();
    ReadUserGood();
    ReplaceUserGood();
    ObserveGood();
  }

  /** The errors a call can end with: a codec refusal, a dispatch word, a service error, or any other. */
  datatype Fault = Refused(word: Bytes, off: nat) | Dispatch(code: Bytes) | Service(code: Bytes, message: Bytes) | Other
  datatype Answer<+T> = Done(value: T) | Failure(error: Fault)
  /** What a handler does: return a value, return an error, or panic with a refusal or with anything else. */
  datatype Outcome = Returned(v: Value) | Failed(error: Fault) | Panicked(refusal: bool)

  datatype Request = Request(service: Bytes, name: Bytes, arguments: Bytes)

  function WordText(w: Word): Bytes {
    match w
    case Malformed => Ascii("malformed")
    case BadString => Ascii("bad_string")
    case NumberSpelling => Ascii("number_spelling")
    case WrongType => Ascii("wrong_type")
    case DepthExceeded => Ascii("depth_exceeded")
    case DuplicateField => Ascii("duplicate_field")
    case UnknownField => Ascii("unknown_field")
    case MissingField => Ascii("missing_field")
    case BadEnum => Ascii("bad_enum")
    case TrailingBytes => Ascii("trailing_bytes")
  }

  const HANDLER_ERROR := Ascii("handler_error")
  const HANDLER_FAILED := Ascii("handler failed")
  const INVALID_RESULT := Ascii("invalid_result")
  const INVALID_ERROR := Ascii("invalid_error")
  const UNKNOWN_VERSION := Ascii("unknown_version")
  const UNKNOWN_SERVICE := Ascii("unknown_service")
  const UNKNOWN_METHOD := Ascii("unknown_method")
  const WRONG_MODE := Ascii("wrong_mode")
  const ENDPOINT := Ascii("abstraction.facade/endpoint@1")
  const MISMATCHED := Ascii("mismatched_response")

  // --------------------------------------------------------- the envelopes

  function FrameOf(q: Request): Value {
    VRec([Some(VInt(1)), Some(VStr(q.service)), Some(VStr(q.name)), Some(VRaw(q.arguments))])
  }

  function ReplyOf(service: Bytes, name: Bytes, ok: bool, payload: Bytes): Value {
    VRec([Some(VInt(1)), Some(VStr(service)), Some(VStr(name)), Some(VBool(ok)), Some(VRaw(payload))])
  }

  function ErrorOf(code: Bytes, message: Bytes): Value {
    VRec([Some(VStr(code)), Some(VStr(message))])
  }

  lemma FrameTypes(q: Request)
    ensures Typed(FRAME, FrameOf(q)) && Known(FRAME, FrameOf(q))
  {
    var vals := FrameOf(q).vals;
    forall i | 0 <= i < 4
      ensures Typed(FRAME_FIELDS[i].kind, vals[i].value) && Known(FRAME_FIELDS[i].kind, vals[i].value)
    {
      if i == 0 {
        assert FRAME_FIELDS[0].kind == INT32;
      } else if i == 1 {
        assert FRAME_FIELDS[1].kind == KStr;
      } else if i == 2 {
        assert FRAME_FIELDS[2].kind == KStr;
      } else if i == 3 {
        assert FRAME_FIELDS[3].kind == KRaw;
      }
    }
  }

  lemma ReplyTypes(service: Bytes, name: Bytes, ok: bool, payload: Bytes)
    ensures Typed(REPLY, ReplyOf(service, name, ok, payload)) && Known(REPLY, ReplyOf(service, name, ok, payload))
  {
    var vals := ReplyOf(service, name, ok, payload).vals;
    forall i | 0 <= i < 5
      ensures Typed(REPLY_FIELDS[i].kind, vals[i].value) && Known(REPLY_FIELDS[i].kind, vals[i].value)
    {
      if i == 0 {
        assert REPLY_FIELDS[0].kind == INT32;
      } else if i == 1 {
        assert REPLY_FIELDS[1].kind == KStr;
      } else if i == 2 {
        assert REPLY_FIELDS[2].kind == KStr;
      } else if i == 3 {
        assert REPLY_FIELDS[3].kind == KBool;
      } else if i == 4 {
        assert REPLY_FIELDS[4].kind == KRaw;
      }
    }
  }

  lemma ErrorTypes(code: Bytes, message: Bytes)
    ensures Typed(ERROR, ErrorOf(code, message)) && Known(ERROR, ErrorOf(code, message))
  {
    var vals := ErrorOf(code, message).vals;
    forall i | 0 <= i < 2
      ensures Typed(ERROR_FIELDS[i].kind, vals[i].value) && Known(ERROR_FIELDS[i].kind, vals[i].value)
    {
      if i == 0 {
        assert ERROR_FIELDS[0].kind == KStr;
      } else if i == 1 {
        assert ERROR_FIELDS[1].kind == KStr;
      }
    }
  }

  /** What it takes for the envelopes to be read back: valid strings, and a payload that is whole. */
  lemma FrameCarries(q: Request)
    requires Whole(q.arguments, 1) || Broken(q.arguments, 1)
    ensures Typed(FRAME, FrameOf(q)) && T.Sendable(FRAME, FrameOf(q), 0)
    ensures Valid(FRAME, FrameOf(q), 0) <==> ValidUtf8(q.service) && ValidUtf8(q.name) && Whole(q.arguments, 1)
  {
    hide Whole, Broken, ValidUtf8, GoodKind, Fits, Known;
    FrameTypes(q);
    FrameGood();
    var vals := FrameOf(q).vals;
    forall i | 0 <= i < 4
      ensures Opaque(FRAME_FIELDS[i].kind, vals[i].value, 1)
    {
      if i == 0 {
        assert FRAME_FIELDS[0].kind != KRaw;
      } else if i == 1 {
        assert FRAME_FIELDS[1].kind != KRaw;
      } else if i == 2 {
        assert FRAME_FIELDS[2].kind != KRaw;
      } else {
        assert Opaque(KRaw, vals[3].value, 1);
      }
    }
    assert FRAME_FIELDS[1].kind == FRAME_FIELDS[2].kind == KStr && FRAME_FIELDS[3].kind == KRaw;
    assert Valid(KStr, vals[1].value, 1) <==> ValidUtf8(q.service);
    assert Valid(KStr, vals[2].value, 1) <==> ValidUtf8(q.name);
    assert Valid(KRaw, vals[3].value, 1) <==> Whole(q.arguments, 1);
  }

  lemma ReplyCarries(service: Bytes, name: Bytes, ok: bool, payload: Bytes)
    requires Whole(payload, 1) || Broken(payload, 1)
    ensures var v := ReplyOf(service, name, ok, payload); Typed(REPLY, v) && T.Sendable(REPLY, v, 0)
    ensures var v := ReplyOf(service, name, ok, payload);
      Typed(REPLY, v) && (Valid(REPLY, v, 0) <==> ValidUtf8(service) && ValidUtf8(name) && Whole(payload, 1))
  {
    hide Whole, Broken, ValidUtf8, GoodKind, Fits, Known;
    ReplyTypes(service, name, ok, payload);
    ReplyGood();
    var vals := ReplyOf(service, name, ok, payload).vals;
    forall i | 0 <= i < 5
      ensures Opaque(REPLY_FIELDS[i].kind, vals[i].value, 1)
    {
      if i == 0 {
        assert REPLY_FIELDS[0].kind != KRaw;
      } else if i == 1 {
        assert REPLY_FIELDS[1].kind != KRaw;
      } else if i == 2 {
        assert REPLY_FIELDS[2].kind != KRaw;
      } else if i == 3 {
        assert REPLY_FIELDS[3].kind != KRaw;
      } else {
        assert Opaque(KRaw, vals[4].value, 1);
      }
    }
    assert REPLY_FIELDS[1].kind == REPLY_FIELDS[2].kind == KStr && REPLY_FIELDS[4].kind == KRaw;
    assert Valid(KStr, vals[1].value, 1) <==> ValidUtf8(service);
    assert Valid(KStr, vals[2].value, 1) <==> ValidUtf8(name);
    assert Valid(KRaw, vals[4].value, 1) <==> Whole(payload, 1);
  }

  lemma ErrorCarries(code: Bytes, message: Bytes)
    ensures var v := ErrorOf(code, message); Typed(ERROR, v) && T.Sendable(ERROR, v, 1)
    ensures var v := ErrorOf(code, message); Typed(ERROR, v) && (Valid(ERROR, v, 1) <==> ValidUtf8(code) && ValidUtf8(message))
  {
    hide ValidUtf8, GoodKind, Fits, Known;
    ErrorTypes(code, message);
    ErrorGood();
    var vals := ErrorOf(code, message).vals;
    forall i | 0 <= i < 2
      ensures Opaque(ERROR_FIELDS[i].kind, vals[i].value, 2)
    {
      if i == 0 {
        assert ERROR_FIELDS[0].kind != KRaw;
      } else if i == 1 {
        assert ERROR_FIELDS[1].kind != KRaw;
      }
    }
    assert ERROR_FIELDS[0].kind == ERROR_FIELDS[1].kind == KStr;
    assert Valid(KStr, vals[0].value, 2) <==> ValidUtf8(code);
    assert Valid(KStr, vals[1].value, 2) <==> ValidUtf8(message);
  }

  /** A field of a decoded record, of a kind every value of which has this shape. */
  lemma FrameShape(v: Value)
    requires Typed(FRAME, v)
    ensures v.VRec? && |v.vals| == 4 && v.vals[0].Some? && v.vals[0].value.VInt? && v.vals[1].Some? && v.vals[1].value.VStr?
    ensures v.vals[2].Some? && v.vals[2].value.VStr? && v.vals[3].Some? && v.vals[3].value.VRaw?
  {
    assert Typed(FRAME_FIELDS[0].kind, v.vals[0].value);
    assert Typed(FRAME_FIELDS[1].kind, v.vals[1].value);
    assert Typed(FRAME_FIELDS[2].kind, v.vals[2].value);
    assert Typed(FRAME_FIELDS[3].kind, v.vals[3].value);
  }

  lemma ReplyShape(v: Value)
    requires Typed(REPLY, v)
    ensures v.VRec? && |v.vals| == 5 && v.vals[0].Some? && v.vals[0].value.VInt? && v.vals[1].Some? && v.vals[1].value.VStr?
    ensures v.vals[2].Some? && v.vals[2].value.VStr? && v.vals[3].Some? && v.vals[3].value.VBool?
    ensures v.vals[4].Some? && v.vals[4].value.VRaw?
  {
    assert Typed(REPLY_FIELDS[0].kind, v.vals[0].value);
    assert Typed(REPLY_FIELDS[1].kind, v.vals[1].value);
    assert Typed(REPLY_FIELDS[2].kind, v.vals[2].value);
    assert Typed(REPLY_FIELDS[3].kind, v.vals[3].value);
    assert Typed(REPLY_FIELDS[4].kind, v.vals[4].value);
  }

  lemma ErrorShape(v: Value)
    requires Typed(ERROR, v)
    ensures v.VRec? && |v.vals| == 2 && v.vals[0].Some? && v.vals[0].value.VStr? && v.vals[1].Some? && v.vals[1].value.VStr?
  {
    assert Typed(ERROR_FIELDS[0].kind, v.vals[0].value);
    assert Typed(ERROR_FIELDS[1].kind, v.vals[1].value);
  }

  lemma TextTyped(b: Bytes, d: nat, k: Kind)
    requires GoodKind(k) && d <= Skip.DEPTH_LIMIT && Text(b, 0, d, k).Ok?
    ensures Typed(k, Text(b, 0, d, k).value)
  {
    hide Dec, GoodKind, Typed, Known, Valid, Ws;
    D.DecSound(b, Ws(b, 0), d, k);
  }

  /** The request in a frame of version one. */
  function ServicePayload(frame: Bytes): Answer<Request> {
    match Text(frame, 0, 0, FRAME)
    case Err(w, o) => Failure(Refused(WordText(w), o))
    case Ok(v, _) =>
      FrameGood();
      TextTyped(frame, 0, FRAME);
      FrameShape(v);
      if v.vals[0].value.n != 1 then Failure(Dispatch(UNKNOWN_VERSION))
      else Done(Request(v.vals[1].value.s, v.vals[2].value.s, v.vals[3].value.text))
  }

  /** The code and message an error goes out with. */
  function Diagnosis(e: Fault): (Bytes, Bytes) {
    match e
    case Service(code, message) => (if code != [] then code else HANDLER_ERROR, message)
    case Dispatch(code) => (code, [])
    case Refused(word, _) => (word, [])
    case Other => (HANDLER_ERROR, HANDLER_FAILED)
  }

  ghost function ErrorPayload(e: Fault): Bytes {
    ErrorTypes(Diagnosis(e).0, Diagnosis(e).1);
    Enc(ERROR, ErrorOf(Diagnosis(e).0, Diagnosis(e).1), 1)
  }

  /** The reply frame, checked by the reader before it is let out. */
  ghost function ServiceReply(q: Request, result: Answer<Bytes>): Answer<Bytes> {
    var payload := if result.Done? then result.value else ErrorPayload(result.error);
    ReplyTypes(q.service, q.name, result.Done?, payload);
    var frame := Enc(REPLY, ReplyOf(q.service, q.name, result.Done?, payload), 0);
    match Dec(frame, Ws(frame, 0), 0, REPLY)
    case Err(w, o) => Failure(Refused(WordText(w), o))
    case Ok(_, _) => Done(frame)
  }

  /** What a client makes of a response: the payload, or the error it stands for. */
  function ServiceResponse(frame: Bytes, service: Bytes, name: Bytes): Answer<Bytes> {
    match Text(frame, 0, 0, REPLY)
    case Err(w, o) => Failure(Refused(WordText(w), o))
    case Ok(v, _) =>
      ReplyGood();
      TextTyped(frame, 0, REPLY);
      ReplyShape(v);
      if v.vals[0].value.n != 1 then Failure(Dispatch(UNKNOWN_VERSION))
      else if v.vals[1].value.s != service || v.vals[2].value.s != name then Failure(Dispatch(MISMATCHED))
      else if v.vals[3].value.t then Done(v.vals[4].value.text)
      else ServiceFault(v.vals[4].value.text)
  }

  function ServiceFault(payload: Bytes): Answer<Bytes> {
    match Text(payload, 0, 1, ERROR)
    case Err(w, o) => Failure(Refused(WordText(w), o))
    case Ok(v, _) =>
      ErrorGood();
      TextTyped(payload, 1, ERROR);
      ErrorShape(v);
      if v.vals[0].value.s == [] then Failure(Dispatch(INVALID_ERROR))
      else Failure(Service(v.vals[0].value.s, v.vals[1].value.s))
  }

  // ---------------------------------------------------------- the two ends

  function Wrapped(v: Value): Value {
    VRec([Some(v)])
  }

  /** A handler for a method: what it may return is of the method's result type. */
  ghost predicate Handles(c: Contract, h: Value -> Outcome) {
    forall a :: Typed(c.args, a) && h(a).Returned? ==> Typed(c.result, h(a).v)
  }

  /** The handler's answer, encoded and read back before it is believed. */
  ghost function Invoke(c: Contract, h: Value -> Outcome, a: Value): Answer<Bytes>
    requires Handles(c, h) && Typed(c.args, a)
  {
    match h(a)
    case Panicked(refusal) => Failure(if refusal then Service(INVALID_RESULT, []) else Service(HANDLER_ERROR, HANDLER_FAILED))
    case Failed(e) => Failure(e)
    case Returned(v) =>
      WrappedTyped(c.result, v);
      if !Known(c.result, v) then Failure(Service(INVALID_RESULT, []))
      else
        var payload := Enc(ResultOf(c.result), Wrapped(v), 1);
        if Text(payload, 0, 1, ResultOf(c.result)).Err? then Failure(Service(INVALID_RESULT, [])) else Done(payload)
  }

  lemma WrappedTyped(k: Kind, v: Value)
    ensures Typed(ResultOf(k), Wrapped(v)) <==> Typed(k, v)
    ensures Typed(k, v) ==> (Known(ResultOf(k), Wrapped(v)) <==> Known(k, v))
    ensures forall d: nat :: Typed(k, v) ==> (Valid(ResultOf(k), Wrapped(v), d) <==> Valid(k, v, d + 1))
  {
    var fields, vals := ResultOf(k).fields, [Some(v)];
    assert fields[0].kind == k && vals[0].value == v;
  }

  /** A dispatcher: one service, its methods and the handlers behind them. */
  datatype Method = Method(contract: Contract, handler: Value -> Outcome)

  ghost predicate GoodService(service: Bytes, ms: seq<Method>) {
    && service != ENDPOINT
    && (forall i :: 0 <= i < |ms| ==> ms[i].contract.service == service)
    && (forall i :: 0 <= i < |ms| ==> GoodContract(ms[i].contract) && Handles(ms[i].contract, ms[i].handler))
    && (forall i, j :: 0 <= i < j < |ms| ==> ms[i].contract.name != ms[j].contract.name)
  }

  function Find(ms: seq<Method>, name: Bytes, i: nat): (r: nat)
    requires i <= |ms|
    ensures i <= r <= |ms|
    ensures r < |ms| ==> ms[r].contract.name == name
    ensures forall j :: i <= j < r ==> ms[j].contract.name != name
    decreases |ms| - i
  {
    if i == |ms| || ms[i].contract.name == name then i else Find(ms, name, i + 1)
  }

  ghost function Exchange(service: Bytes, ms: seq<Method>, describe: Bytes -> Answer<Bytes>, frame: Bytes): Answer<Bytes>
    requires GoodService(service, ms)
  {
    match ServicePayload(frame)
    case Failure(e) => Failure(e)
    case Done(q) =>
      var i := Find(ms, q.name, 0);
      if q.service == ENDPOINT then describe(frame)
      else if q.service != service then ServiceReply(q, Failure(Dispatch(UNKNOWN_SERVICE)))
      else if i == |ms| then ServiceReply(q, Failure(Dispatch(UNKNOWN_METHOD)))
      else
        match Text(q.arguments, 0, 1, ms[i].contract.args)
        case Err(w, o) => ServiceReply(q, Failure(Refused(WordText(w), o)))
        case Ok(a, _) =>
          TextTyped(q.arguments, 1, ms[i].contract.args);
          ServiceReply(q, Invoke(ms[i].contract, ms[i].handler, a))
  }

  /** The frame a client sends, or the refusal that stops it from sending. */
  ghost function ClientFrame(c: Contract, a: Value): Answer<Bytes>
    requires Typed(c.args, a)
  {
    if !Known(c.args, a) then Failure(Refused(WordText(BadEnum), 0))
    else
      var q := Request(c.service, c.name, Enc(c.args, a, 1));
      FrameTypes(q);
      var frame := Enc(FRAME, FrameOf(q), 0);
      match ServicePayload(frame)
      case Failure(e) => Failure(e)
      case Done(_) => Done(frame)
  }

  /** What a client makes of what the transport brings back. */
  function ClientResult(c: Contract, response: Answer<Bytes>): Answer<Value>
    requires GoodKind(ResultOf(c.result))
  {
    match response
    case Failure(e) => Failure(e)
    case Done(frame) =>
      match ServiceResponse(frame, c.service, c.name)
      case Failure(e) => Failure(e)
      case Done(payload) =>
        match Text(payload, 0, 1, ResultOf(c.result))
        case Err(w, o) => Failure(Refused(WordText(w), o))
        case Ok(v, _) =>
          TextTyped(payload, 1, ResultOf(c.result));
          Unwrap(c.result, v);
          Done(v.vals[0].value)
  }

  lemma Unwrap(k: Kind, v: Value)
    requires Typed(ResultOf(k), v)
    ensures |v.vals| == 1 && v.vals[0].Some? && Typed(k, v.vals[0].value) && v == Wrapped(v.vals[0].value)
  {
    assert ResultOf(k).fields[0].kind == k;
    assert v.vals == [v.vals[0]];
  }

  /** The client of a method, joined to the dispatcher of its service. */
  ghost function Call(ms: seq<Method>, describe: Bytes -> Answer<Bytes>, i: nat, a: Value): Answer<Value>
    requires i < |ms| && GoodService(ms[i].contract.service, ms) && Typed(ms[i].contract.args, a)
  {
    var c := ms[i].contract;
    ResultGood(c.result, 1);
    match ClientFrame(c, a)
    case Failure(e) => Failure(e)
    case Done(frame) => ClientResult(c, Exchange(c.service, ms, describe, frame))
  }

  // ------------------------------------------------------------ the theorem

  predicate IsBadString<T>(r: Answer<T>) {
    r.Failure? && r.error.Refused? && r.error.word == WordText(BadString)
  }

  /** The frame a client sends is read back as exactly the request; invalid strings never leave. */
  lemma FrameArrives(c: Contract, a: Value)
    requires GoodContract(c) && Typed(c.args, a) && Known(c.args, a)
    ensures var f := ClientFrame(c, a);
      if Valid(c.args, a, 1) then f.Done? && ServicePayload(f.value) == Done(Request(c.service, c.name, Enc(c.args, a, 1)))
      else IsBadString(f)
  {
    hide Enc, Text, Valid, Whole, Broken, Typed, Known, Opaque, GoodKind, Fits, Reader.Narrow, T.Sendable, ValidUtf8;
    InterpretedIsOpaque(c.args, a, 1);
    GoodIsSendable(c.args, a, 1);
    L.EncIsOpaque(c.args, a, 1, 1);
    if Broken(Enc(c.args, a, 1), 1) {
      L.BrokenIsNotWhole(Enc(c.args, a, 1), 1);
    }
    var q := Request(c.service, c.name, Enc(c.args, a, 1));
    FrameCarries(q);
    FrameTypes(q);
    D.TextOfEnc(FRAME, FrameOf(q), 0, 0, []);
    NoTail(Enc(FRAME, FrameOf(q), 0));
  }

  lemma GoodIsSendable(k: Kind, v: Value, d: nat)
    requires Good(k, d) && Typed(k, v) && Known(k, v) && Opaque(k, v, d)
    ensures T.Sendable(k, v, d)
  {
  }

  lemma NoTail(b: Bytes)
    ensures b + [] == b
  {
  }

  /** What a client is told of an error: its code and message, or that it had no code. */
  function Told<T>(code: Bytes, message: Bytes): Answer<T> {
    if code == [] then Failure(Dispatch(INVALID_ERROR)) else Failure(Service(code, message))
  }

  /** A reply frame goes out unless a string in it is invalid, and the client reads back what went in. */
  lemma ReplyArrives(q: Request, result: Answer<Bytes>)
    requires ValidUtf8(q.service) && ValidUtf8(q.name) && (result.Done? ==> Whole(result.value, 1))
    ensures var r := ServiceReply(q, result);
      match result
      case Done(payload) => r.Done? && ServiceResponse(r.value, q.service, q.name) == Done(payload)
      case Failure(e) =>
        var (code, message) := Diagnosis(e);
        if !(ValidUtf8(code) && ValidUtf8(message)) then IsBadString(r)
        else r.Done? && ServiceResponse(r.value, q.service, q.name) == Told(code, message)
  {
    hide Enc, Text, Dec, Valid, Whole, Broken, Known, Opaque, GoodKind, Fits, Reader.Narrow, T.Sendable, ValidUtf8;
    var payload := if result.Done? then result.value else ErrorPayload(result.error);
    if result.Failure? {
      ErrorArrives(result.error);
    }
    ReplyCarries(q.service, q.name, result.Done?, payload);
    FrameReads(REPLY, ReplyOf(q.service, q.name, result.Done?, payload), 0);
  }

  /** An error record is whole exactly when its strings are valid, and then reads back. */
  lemma ErrorArrives(e: Fault)
    ensures var (code, message) := Diagnosis(e); var p := ErrorPayload(e);
      if ValidUtf8(code) && ValidUtf8(message) then
        Whole(p, 1) && ServiceFault(p) == Told(code, message)
      else Broken(p, 1) && !Whole(p, 1)
  {
    hide Enc, Text, Valid, Whole, Broken, Known, Opaque, GoodKind, Fits, Reader.Narrow, T.Sendable, ValidUtf8;
    var v := ErrorOf(Diagnosis(e).0, Diagnosis(e).1);
    ErrorCarries(Diagnosis(e).0, Diagnosis(e).1);
    ErrorTypes(Diagnosis(e).0, Diagnosis(e).1);
    L.EncIsOpaque(ERROR, v, 1, 1);
    if Broken(ErrorPayload(e), 1) {
      L.BrokenIsNotWhole(ErrorPayload(e), 1);
    }
    FrameReads(ERROR, v, 1);
  }

  /** An encoded value alone in a buffer, read as a whole text or as its first value. */
  lemma FrameReads(k: Kind, v: Value, d: nat)
    requires T.Sendable(k, v, d)
    ensures var b := Enc(k, v, d); T.Answers(Text(b, 0, d, k), Valid(k, v, d), v, |b|)
    ensures var b := Enc(k, v, d); T.Answers(Dec(b, Ws(b, 0), d, k), Valid(k, v, d), v, |b|)
  {
    hide Enc, Dec, Valid, Ws, Typed, Known, Opaque, Fits, GoodKind;
    D.TextOfEnc(k, v, d, d, []);
    NoTail(Enc(k, v, d));
    var b := Enc(k, v, d);
    T.EncStart(k, v, d, d);
    L.StartsItself(b);
    T.WsNone(b, 0);
    T.DecEnc(b, 0, d, d, k, v);
  }

  /** A result record is whole exactly when its strings are valid, and then reads back. */
  lemma ResultArrives(c: Contract, v: Value)
    requires GoodContract(c) && Typed(c.result, v) && Known(c.result, v)
    ensures Typed(ResultOf(c.result), Wrapped(v)) && Known(ResultOf(c.result), Wrapped(v))
    ensures var p := Enc(ResultOf(c.result), Wrapped(v), 1); var r := Text(p, 0, 1, ResultOf(c.result));
      if Valid(c.result, v, 2) then Whole(p, 1) && r == Ok(Wrapped(v), |p|) else r.Err?
  {
    hide Enc, Text, Valid, Whole, Broken, Typed, Known, Opaque, GoodKind, Fits, Reader.Narrow, T.Sendable, ValidUtf8, Interpreted;
    var k := ResultOf(c.result);
    ResultGood(c.result, 1);
    ResultInterpreted(c.result);
    WrappedTyped(c.result, v);
    InterpretedIsOpaque(k, Wrapped(v), 1);
    GoodIsSendable(k, Wrapped(v), 1);
    L.EncIsOpaque(k, Wrapped(v), 1, 1);
    FrameReads(k, Wrapped(v), 1);
  }

  lemma ResultInterpreted(k: Kind)
    requires Interpreted(k)
    ensures Interpreted(ResultOf(k))
  {
  }

  /** What a caller must see when the handler does this on its arguments. */
  ghost predicate Faithful(c: Contract, o: Outcome, r: Answer<Value>)
    requires o.Returned? ==> Typed(c.result, o.v)
  {
    match o
    case Returned(v) => r == if Known(c.result, v) && Valid(c.result, v, 2) then Done(v) else Failure(Service(INVALID_RESULT, []))
    case Panicked(true) => r == Failure(Service(INVALID_RESULT, []))
    case Panicked(false) => r == Failure(Service(HANDLER_ERROR, HANDLER_FAILED))
    case Failed(Service(code, message)) =>
      if !ValidUtf8(code) || !ValidUtf8(message) then IsBadString(r)
      else r == Failure(Service(if code == [] then HANDLER_ERROR else code, message))
    case Failed(Other) => r == Failure(Service(HANDLER_ERROR, HANDLER_FAILED))
    case Failed(Dispatch(word)) => CodeAlone(word, r)
    case Failed(Refused(word, _)) => CodeAlone(word, r)
  }

  /** What a caller must see of a call with these arguments. */
  ghost predicate Sees(m: Method, a: Value, r: Answer<Value>)
    requires Handles(m.contract, m.handler) && Typed(m.contract.args, a)
  {
    if !Known(m.contract.args, a) then r == Failure(Refused(WordText(BadEnum), 0))
    else if !Valid(m.contract.args, a, 1) then IsBadString(r)
    else Faithful(m.contract, m.handler(a), r)
  }

  /** A word that travels as a code without a message; an empty one reads as a malformed error. */
  ghost predicate CodeAlone(word: Bytes, r: Answer<Value>) {
    if !ValidUtf8(word) then IsBadString(r)
    else if word == [] then r == Failure(Dispatch(INVALID_ERROR))
    else r == Failure(Service(word, []))
  }

  /** The dispatcher answers a request it can read with whatever its handler did. */
  lemma Answered(ms: seq<Method>, describe: Bytes -> Answer<Bytes>, i: nat, a: Value, frame: Bytes)
    requires i < |ms| && GoodService(ms[i].contract.service, ms)
    requires Typed(ms[i].contract.args, a) && Known(ms[i].contract.args, a) && Valid(ms[i].contract.args, a, 1)
    requires var c := ms[i].contract; ServicePayload(frame) == Done(Request(c.service, c.name, Enc(c.args, a, 1)))
    ensures GoodKind(ResultOf(ms[i].contract.result))
    ensures var c := ms[i].contract;
      Faithful(c, ms[i].handler(a), ClientResult(c, Exchange(c.service, ms, describe, frame)))
  {
    hide Enc, Text, Valid, Whole, Broken, Typed, Known, Opaque, GoodKind, Fits, Reader.Narrow, T.Sendable, ValidUtf8, Interpreted,
      ServicePayload, ServiceReply, ServiceResponse;
    var c, h := ms[i].contract, ms[i].handler;
    ResultGood(c.result, 1);
    Served(ms, describe, i, a, frame);
    var q := Request(c.service, c.name, Enc(c.args, a, 1));
    var result := Invoke(c, h, a);
    WordsAreUtf8();
    match h(a) {
      case Returned(v) =>
        WrappedTyped(c.result, v);
        if Known(c.result, v) {
          ResultArrives(c, v);
        }
        ReplyArrives(q, result);
      case Panicked(_) =>
        ReplyArrives(q, result);
      case Failed(e) =>
        ReplyArrives(q, result);
    }
  }

  lemma WordsAreUtf8()
    ensures ValidUtf8(INVALID_RESULT) && ValidUtf8(HANDLER_ERROR) && ValidUtf8(HANDLER_FAILED) && ValidUtf8([])
    ensures INVALID_RESULT != [] && HANDLER_ERROR != []
  {
    hide ValidUtf8, Ascii;
    InvalidResultText();
    HandlerErrorText();
    HandlerFailedText();
    LiteralIsUtf8("");
    assert Ascii("") == [];
  }

  lemma InvalidResultText()
    ensures ValidUtf8(INVALID_RESULT) && |INVALID_RESULT| > 0
  {
    hide ValidUtf8, Ascii;
    LiteralIsUtf8("invalid_result");
  }

  lemma HandlerErrorText()
    ensures ValidUtf8(HANDLER_ERROR) && |HANDLER_ERROR| > 0
  {
    hide ValidUtf8, Ascii;
    LiteralIsUtf8("handler_error");
  }

  lemma HandlerFailedText()
    ensures ValidUtf8(HANDLER_FAILED)
  {
    hide ValidUtf8, Ascii;
    LiteralIsUtf8("handler failed");
  }

  lemma Served(ms: seq<Method>, describe: Bytes -> Answer<Bytes>, i: nat, a: Value, frame: Bytes)
    requires i < |ms| && GoodService(ms[i].contract.service, ms)
    requires Typed(ms[i].contract.args, a) && Known(ms[i].contract.args, a) && Valid(ms[i].contract.args, a, 1)
    requires var c := ms[i].contract; ServicePayload(frame) == Done(Request(c.service, c.name, Enc(c.args, a, 1)))
    ensures var c := ms[i].contract;
      Exchange(c.service, ms, describe, frame) == ServiceReply(Request(c.service, c.name, Enc(c.args, a, 1)), Invoke(c, ms[i].handler, a))
  {
    hide Enc, Text, Valid, Typed, Known, Opaque, GoodKind, Fits, Reader.Narrow, T.Sendable, ValidUtf8, Interpreted,
      ServicePayload, ServiceReply, Invoke;
    var c := ms[i].contract;
    InterpretedIsOpaque(c.args, a, 1);
    GoodIsSendable(c.args, a, 1);
    FrameReads(c.args, a, 1);
    assert Find(ms, c.name, 0) == i;
  }

  /**
   * A call is transparent. Arguments with a bad string are refused before anything is sent; any
   * others reach the handler unchanged, and the caller sees exactly what the handler did.
   */
  lemma Transparent(ms: seq<Method>, describe: Bytes -> Answer<Bytes>, i: nat, a: Value)
    requires i < |ms| && GoodService(ms[i].contract.service, ms) && Typed(ms[i].contract.args, a)
    ensures Sees(ms[i], a, Call(ms, describe, i, a))
  {
    hide Enc, Text, Valid, Typed, Known, Opaque, GoodKind, Fits, Reader.Narrow, T.Sendable, ValidUtf8, Interpreted,
      ServicePayload, Exchange, ClientResult;
    var c := ms[i].contract;
    if Known(c.args, a) {
      FrameArrives(c, a);
      if Valid(c.args, a, 1) {
        Answered(ms, describe, i, a, ClientFrame(c, a).value);
      }
    }
  }

  // ----------------------------------------------------------- the refusals

  /** The frame is one request record and nothing more. */
  ghost predicate IsRequest(frame: Bytes, version: int, q: Request) {
    Text(frame, 0, 0, FRAME) == Ok(VRec([Some(VInt(version)), Some(VStr(q.service)), Some(VStr(q.name)), Some(VRaw(q.arguments))]), |frame|)
  }

  /** The frame is one reply record and nothing more. */
  ghost predicate IsReply(frame: Bytes, version: int, service: Bytes, name: Bytes, ok: bool, payload: Bytes) {
    Text(frame, 0, 0, REPLY) ==
      Ok(VRec([Some(VInt(version)), Some(VStr(service)), Some(VStr(name)), Some(VBool(ok)), Some(VRaw(payload))]), |frame|)
  }

  /** A request is taken exactly when it is one of version one; one of another version is refused for that. */
  lemma RequestTaken(frame: Bytes, q: Request)
    ensures ServicePayload(frame) == Done(q) <==> IsRequest(frame, 1, q)
    ensures ServicePayload(frame) == Failure(Dispatch(UNKNOWN_VERSION)) <==> exists n, r :: n != 1 && IsRequest(frame, n, r)
  {
    hide Text, Typed, GoodKind, Fits, Reader.Narrow, Ascii;
    FrameGood();
    var t := Text(frame, 0, 0, FRAME);
    if t.Ok? {
      TextTyped(frame, 0, FRAME);
      FrameShape(t.value);
      var vals := t.value.vals;
      var r := Request(vals[1].value.s, vals[2].value.s, vals[3].value.text);
      assert vals == [vals[0], vals[1], vals[2], vals[3]];
      assert IsRequest(frame, vals[0].value.n, r);
    }
  }

  lemma ReplyRead(frame: Bytes) returns (n: int, s: Bytes, m: Bytes, ok: bool, payload: Bytes)
    requires Text(frame, 0, 0, REPLY).Ok?
    ensures IsReply(frame, n, s, m, ok, payload)
  {
    hide Text, Typed, GoodKind, Fits, Reader.Narrow, Ascii;
    ReplyGood();
    TextTyped(frame, 0, REPLY);
    var v := Text(frame, 0, 0, REPLY).value;
    ReplyShape(v);
    var vals := v.vals;
    n, s, m, ok, payload := vals[0].value.n, vals[1].value.s, vals[2].value.s, vals[3].value.t, vals[4].value.text;
    assert vals == [vals[0], vals[1], vals[2], vals[3], vals[4]];
  }

  /**
   * What a client is told of a reply, by what the reply is: of another version; of another service or
   * method than it called; a result; or an error record.
   */
  lemma ReplyTold(frame: Bytes, service: Bytes, name: Bytes, n: int, s: Bytes, m: Bytes, ok: bool, payload: Bytes)
    requires IsReply(frame, n, s, m, ok, payload)
    ensures var r := ServiceResponse(frame, service, name);
      && (n != 1 ==> r == Failure(Dispatch(UNKNOWN_VERSION)))
      && (n == 1 && (s != service || m != name) ==> r == Failure(Dispatch(MISMATCHED)))
      && (n == 1 && s == service && m == name && ok ==> r == Done(payload))
      && (n == 1 && s == service && m == name && !ok ==> r == ServiceFault(payload))
  {
    hide Text, Typed, GoodKind, Fits, Reader.Narrow, Ascii, ServiceFault;
  }

  /** A payload is believed only out of a reply of version one, to this method of this service, that says it is a result. */
  lemma ResultBelieved(frame: Bytes, service: Bytes, name: Bytes, payload: Bytes)
    ensures ServiceResponse(frame, service, name) == Done(payload) <==> IsReply(frame, 1, service, name, true, payload)
  {
    hide Text, Typed, GoodKind, Fits, Reader.Narrow, Ascii, IsReply;
    if Text(frame, 0, 0, REPLY).Ok? {
      var n, s, m, ok, p := ReplyRead(frame);
      ReplyTold(frame, service, name, n, s, m, ok, p);
      FaultIsNoResult(p);
      if IsReply(frame, 1, service, name, true, payload) {
        ReplyTold(frame, service, name, 1, service, name, true, payload);
      }
    } else {
      NoReply(frame, service, name, payload);
    }
  }

  lemma FaultIsNoResult(payload: Bytes)
    ensures ServiceFault(payload).Failure?
  {
    hide Text, Typed, GoodKind, Fits, Reader.Narrow, Ascii;
  }

  lemma NoReply(frame: Bytes, service: Bytes, name: Bytes, payload: Bytes)
    requires Text(frame, 0, 0, REPLY).Err?
    ensures ServiceResponse(frame, service, name).Failure? && !IsReply(frame, 1, service, name, true, payload)
  {
    hide Text, Typed, GoodKind, Fits, Reader.Narrow, Ascii;
  }

  /** A reply that reaches the client of another method, or of another service, is refused as mismatched, whatever it says. */
  lemma Misdelivered(q: Request, result: Answer<Bytes>, service: Bytes, name: Bytes)
    requires ValidUtf8(q.service) && ValidUtf8(q.name) && (result.Done? ==> Whole(result.value, 1))
    requires service != q.service || name != q.name
    ensures var r := ServiceReply(q, result);
      r.Done? ==> ServiceResponse(r.value, service, name) == Failure(Dispatch(MISMATCHED))
  {
    hide Enc, Text, Dec, Valid, Whole, Broken, Known, Opaque, GoodKind, Fits, Reader.Narrow, T.Sendable, ValidUtf8, Ascii;
    var payload := if result.Done? then result.value else ErrorPayload(result.error);
    if result.Failure? {
      ErrorArrives(result.error);
    }
    ReplyCarries(q.service, q.name, result.Done?, payload);
    ReplyTypes(q.service, q.name, result.Done?, payload);
    var v := ReplyOf(q.service, q.name, result.Done?, payload);
    FrameReads(REPLY, v, 0);
    if ServiceReply(q, result).Done? {
      assert IsReply(Enc(REPLY, v, 0), 1, q.service, q.name, result.Done?, payload);
      ReplyTold(Enc(REPLY, v, 0), service, name, 1, q.service, q.name, result.Done?, payload);
    }
  }

  lemma DispatchTexts()
    ensures ValidUtf8(UNKNOWN_SERVICE) && |UNKNOWN_SERVICE| > 0 && ValidUtf8(UNKNOWN_METHOD) && |UNKNOWN_METHOD| > 0 && ValidUtf8([])
  {
    hide ValidUtf8, Ascii;
    LiteralIsUtf8("unknown_service");
    LiteralIsUtf8("unknown_method");
    WordsAreUtf8();
  }

  lemma WordIsText(w: Word)
    ensures ValidUtf8(WordText(w)) && |WordText(w)| > 0
  {
    hide ValidUtf8, Ascii;
    match w
    case Malformed => LiteralIsUtf8("malformed");
    case BadString => LiteralIsUtf8("bad_string");
    case NumberSpelling => LiteralIsUtf8("number_spelling");
    case WrongType => LiteralIsUtf8("wrong_type");
    case DepthExceeded => LiteralIsUtf8("depth_exceeded");
    case DuplicateField => LiteralIsUtf8("duplicate_field");
    case UnknownField => LiteralIsUtf8("unknown_field");
    case MissingField => LiteralIsUtf8("missing_field");
    case BadEnum => LiteralIsUtf8("bad_enum");
    case TrailingBytes => LiteralIsUtf8("trailing_bytes");
  }

  /**
   * What the caller sees of a call the dispatcher does not serve: another service, a method it does
   * not have, or arguments that are not of the method's record, with the codec's word for why.
   */
  lemma DispatcherRefuses(service: Bytes, ms: seq<Method>, describe: Bytes -> Answer<Bytes>, c: Contract, a: Value)
    requires GoodService(service, ms) && GoodContract(c) && c.service != ENDPOINT
    requires Typed(c.args, a) && Known(c.args, a) && Valid(c.args, a, 1)
    ensures GoodKind(ResultOf(c.result)) && ClientFrame(c, a).Done?
    ensures var r := ClientResult(c, Exchange(service, ms, describe, ClientFrame(c, a).value));
      && (c.service != service ==> r == Failure(Service(UNKNOWN_SERVICE, [])))
      && (c.service == service && (forall i :: 0 <= i < |ms| ==> ms[i].contract.name != c.name) ==> r == Failure(Service(UNKNOWN_METHOD, [])))
      && (forall i :: 0 <= i < |ms| && c.service == service && ms[i].contract.name == c.name ==>
            var t := Text(Enc(c.args, a, 1), 0, 1, ms[i].contract.args);
            t.Err? ==> r == Failure(Service(WordText(t.word), [])))
  {
    hide Enc, Text, Valid, Whole, Broken, Typed, Known, Opaque, GoodKind, Fits, Reader.Narrow, T.Sendable, ValidUtf8, Interpreted, Ascii,
      ServicePayload, ServiceReply, ServiceResponse, ClientFrame, WordText, Invoke;
    ResultGood(c.result, 1);
    FrameArrives(c, a);
    DispatchTexts();
    var q := Request(c.service, c.name, Enc(c.args, a, 1));
    var i := Find(ms, c.name, 0);
    if c.service != service {
      ReplyArrives(q, Failure(Dispatch(UNKNOWN_SERVICE)));
    } else if i == |ms| {
      ReplyArrives(q, Failure(Dispatch(UNKNOWN_METHOD)));
    } else {
      var t := Text(q.arguments, 0, 1, ms[i].contract.args);
      if t.Err? {
        WordIsText(t.word);
        ReplyArrives(q, Failure(Refused(WordText(t.word), t.off)));
      }
    }
  }

  /** A frame addressed to the endpoint itself is answered by its description, by every dispatcher. */
  lemma EndpointIsDescribed(service: Bytes, ms: seq<Method>, describe: Bytes -> Answer<Bytes>, frame: Bytes, q: Request)
    requires GoodService(service, ms) && IsRequest(frame, 1, q) && q.service == ENDPOINT
    ensures Exchange(service, ms, describe, frame) == describe(frame)
  {
    hide Text, ServicePayload, Ascii, IsRequest, Find;
    RequestTaken(frame, q);
  }
}
