/** The envelope code step by step, and the routing of frames to the services of an endpoint. */
module Endpoint {
  import opened Bytes
  import opened Records
  import opened Rpc
  import opened Schemas
  import Reader
  import Utf8
  import Writer

  /** A hosted service; one that takes only one-way frames does not exchange. */
  datatype Hosted = Hosted(name: Bytes, methods: seq<Method>, exchanges: bool)

  ghost predicate GoodHost(hs: seq<Hosted>) {
    forall i :: 0 <= i < |hs| ==> GoodService(hs[i].name, hs[i].methods)
  }

  function FindService(hs: seq<Hosted>, name: Bytes, i: nat): (r: nat)
    requires i <= |hs|
    ensures i <= r <= |hs|
    ensures r < |hs| ==> hs[r].name == name
    ensures forall j :: i <= j < r ==> hs[j].name != name
    decreases |hs| - i
  {
    if i == |hs| || hs[i].name == name then i else FindService(hs, name, i + 1)
  }

  ghost function Serve(hs: seq<Hosted>, describe: Bytes -> Answer<Bytes>, frame: Bytes): Answer<Bytes>
    requires GoodHost(hs)
  {
    match ServicePayload(frame)
    case Failure(e) => Failure(e)
    case Done(q) =>
      var i := FindService(hs, q.service, 0);
      if q.service == ENDPOINT then describe(frame)
      else if i == |hs| then ServiceReply(q, Failure(Dispatch(UNKNOWN_SERVICE)))
      else if !hs[i].exchanges then ServiceReply(q, Failure(Dispatch(WRONG_MODE)))
      else Exchange(hs[i].name, hs[i].methods, describe, frame)
  }

  /** A client joined to an endpoint that hosts several services. */
  ghost function CallEndpoint(hs: seq<Hosted>, describe: Bytes -> Answer<Bytes>, c: Contract, a: Value): Answer<Value>
    requires GoodHost(hs) && GoodContract(c) && Typed(c.args, a)
  {
    ResultGood(c.result, 1);
    match ClientFrame(c, a)
    case Failure(e) => Failure(e)
    case Done(frame) => ClientResult(c, Serve(hs, describe, frame))
  }

  /**
   * Calls through an endpoint are as transparent as calls to the first service of that name: an enum
   * outside its vocabulary or a bad string is refused before sending, and any other arguments reach
   * the handler, whose outcome the caller sees.
   */
  lemma EndpointTransparent(hs: seq<Hosted>, describe: Bytes -> Answer<Bytes>, s: nat, i: nat, a: Value)
    requires GoodHost(hs) && s < |hs| && i < |hs[s].methods| && hs[s].exchanges
    requires forall j :: 0 <= j < s ==> hs[j].name != hs[s].name
    requires Typed(hs[s].methods[i].contract.args, a)
    ensures Sees(hs[s].methods[i], a, CallEndpoint(hs, describe, hs[s].methods[i].contract, a))
  {
    hide Enc, Text, Valid, Typed, Known, GoodKind, Fits, Reader.Narrow, Utf8.ValidUtf8, Interpreted, Exchange, ClientResult,
      ServicePayload, Faithful;
    var m := hs[s].methods[i];
    if Known(m.contract.args, a) {
      FrameArrives(m.contract, a);
      if Valid(m.contract.args, a, 1) {
        assert FindService(hs, hs[s].name, 0) == s;
        Answered(hs[s].methods, describe, i, a, ClientFrame(m.contract, a).value);
      }
    }
  }

  /** A call to a service that is not hosted, or only takes one-way frames, ends with the word for that. */
  lemma EndpointRefuses(hs: seq<Hosted>, describe: Bytes -> Answer<Bytes>, c: Contract, a: Value)
    requires GoodHost(hs) && GoodContract(c) && c.service != ENDPOINT
    requires Typed(c.args, a) && Known(c.args, a) && Valid(c.args, a, 1)
    requires var s := FindService(hs, c.service, 0); s == |hs| || !hs[s].exchanges
    ensures CallEndpoint(hs, describe, c, a) ==
      Failure(Service(if FindService(hs, c.service, 0) == |hs| then UNKNOWN_SERVICE else WRONG_MODE, []))
  {
    hide Enc, Text, Valid, Typed, Known, GoodKind, Fits, Reader.Narrow, Utf8.ValidUtf8, Interpreted, Exchange, ServiceReply,
      ServiceResponse, ServicePayload, ClientFrame;
    FrameArrives(c, a);
    RouteTexts();
    var word := if FindService(hs, c.service, 0) == |hs| then UNKNOWN_SERVICE else WRONG_MODE;
    ReplyArrives(Request(c.service, c.name, Enc(c.args, a, 1)), Failure(Dispatch(word)));
  }

  /** A frame addressed to the endpoint itself is answered by its description. */
  lemma EndpointDescribes(hs: seq<Hosted>, describe: Bytes -> Answer<Bytes>, frame: Bytes, q: Request)
    requires GoodHost(hs) && IsRequest(frame, 1, q) && q.service == ENDPOINT
    ensures Serve(hs, describe, frame) == describe(frame)
  {
    hide Text, ServicePayload, Ascii, IsRequest, Exchange;
    RequestTaken(frame, q);
  }

  lemma RouteTexts()
    ensures Utf8.ValidUtf8(UNKNOWN_SERVICE) && |UNKNOWN_SERVICE| > 0 && Utf8.ValidUtf8(WRONG_MODE) && |WRONG_MODE| > 0
    ensures Utf8.ValidUtf8([])
  {
    hide Utf8.ValidUtf8, Ascii;
    UnknownServiceText();
    WrongModeText();
    WordsAreUtf8();
  }

  lemma UnknownServiceText()
    ensures Utf8.ValidUtf8(UNKNOWN_SERVICE) && |UNKNOWN_SERVICE| > 0
  {
    hide Utf8.ValidUtf8, Ascii;
    LiteralIsUtf8("unknown_service");
  }

  lemma WrongModeText()
    ensures Utf8.ValidUtf8(WRONG_MODE) && |WRONG_MODE| > 0
  {
    hide Utf8.ValidUtf8, Ascii;
    LiteralIsUtf8("wrong_mode");
  }

  // ------------------------------------------------------------ the facade

  /** What the host serves: reader, editor and observer, in that order. */
  function Facade(read: Value -> Outcome, readUser: Value -> Outcome, replaceUser: Value -> Outcome, observe: Value -> Outcome): seq<Hosted> {
    [Hosted(READ.service, [Method(READ, read)], true),
     Hosted(READ_USER.service, [Method(READ_USER, readUser), Method(REPLACE_USER, replaceUser)], true),
     Hosted(OBSERVE.service, [Method(OBSERVE, observe)], true)]
  }

  ghost predicate FacadeHandles(read: Value -> Outcome, readUser: Value -> Outcome, replaceUser: Value -> Outcome, observe: Value -> Outcome) {
    Handles(READ, read) && Handles(READ_USER, readUser) && Handles(REPLACE_USER, replaceUser) && Handles(OBSERVE, observe)
  }

  lemma ServicesDiffer()
    ensures READ.service != READ_USER.service && READ.service != OBSERVE.service && READ_USER.service != OBSERVE.service
  {
    hide Ascii;
    LiteralsDiffer("abstraction.config/reader@1", "abstraction.config/editor@1");
    LiteralsDiffer("abstraction.config/reader@1", "abstraction.config/observer@1");
    LiteralsDiffer("abstraction.config/editor@1", "abstraction.config/observer@1");
  }

  lemma ServicesAreNotEndpoint()
    ensures READ.service != ENDPOINT && READ_USER.service != ENDPOINT && OBSERVE.service != ENDPOINT
  {
    hide Ascii;
    LiteralsDiffer("abstraction.config/reader@1", "abstraction.facade/endpoint@1");
    LiteralsDiffer("abstraction.config/editor@1", "abstraction.facade/endpoint@1");
    LiteralsDiffer("abstraction.config/observer@1", "abstraction.facade/endpoint@1");
  }

  lemma MethodsDiffer()
    ensures REPLACE_USER.service == READ_USER.service && READ_USER.name != REPLACE_USER.name
  {
    hide Ascii;
    LiteralsDiffer("ReadUser", "ReplaceUser");
  }

  /** The three services are told apart from each other and from the endpoint's own, the two methods of the editor too. */
  lemma FacadeNames()
    ensures READ.service != READ_USER.service && READ.service != OBSERVE.service && READ_USER.service != OBSERVE.service
    ensures READ.service != ENDPOINT && READ_USER.service != ENDPOINT && OBSERVE.service != ENDPOINT
    ensures REPLACE_USER.service == READ_USER.service && READ_USER.name != REPLACE_USER.name
  {
    hide Ascii;
    ServicesDiffer();
    ServicesAreNotEndpoint();
    MethodsDiffer();
  }

  /** The facade meets the conditions of the call theorems. */
  lemma FacadeIsGood(read: Value -> Outcome, readUser: Value -> Outcome, replaceUser: Value -> Outcome, observe: Value -> Outcome)
    requires FacadeHandles(read, readUser, replaceUser, observe)
    ensures GoodHost(Facade(read, readUser, replaceUser, observe))
  {
    hide GoodContract, Handles, Ascii;
    ContractsGood();
    FacadeNames();
  }

  /** So all four methods are transparent through the endpoint that serves them. */
  lemma FacadeTransparent(read: Value -> Outcome, readUser: Value -> Outcome, replaceUser: Value -> Outcome, observe: Value -> Outcome,
                          describe: Bytes -> Answer<Bytes>, s: nat, i: nat, a: Value)
    requires FacadeHandles(read, readUser, replaceUser, observe) && s < 3
    requires var hs := Facade(read, readUser, replaceUser, observe); i < |hs[s].methods| && Typed(hs[s].methods[i].contract.args, a)
    ensures GoodHost(Facade(read, readUser, replaceUser, observe))
    ensures var hs := Facade(read, readUser, replaceUser, observe); var m := hs[s].methods[i];
      Sees(m, a, CallEndpoint(hs, describe, m.contract, a))
  {
    hide Typed, Sees, CallEndpoint, Ascii, GoodContract, Handles;
    FacadeIsGood(read, readUser, replaceUser, observe);
    FacadeNames();
    EndpointTransparent(Facade(read, readUser, replaceUser, observe), describe, s, i, a);
  }

  // ------------------------------------------------------- step by step

  method ReadPayload(frame: Bytes) returns (r: Answer<Request>)
    ensures r == ServicePayload(frame)
  {
    hide Text, GoodKind, Fits;
    FrameGood();
    var reader := new Reader.Reader(frame, 0);
    var t := reader.Whole(FRAME);
    if t.Err? {
      return Failure(Refused(WordText(t.word), t.off));
    }
    TextTyped(frame, 0, FRAME);
    FrameShape(t.value);
    var vals := t.value.vals;
    if vals[0].value.n != 1 {
      return Failure(Dispatch(UNKNOWN_VERSION));
    }
    return Done(Request(vals[1].value.s, vals[2].value.s, vals[3].value.text));
  }

  method WriteReply(q: Request, result: Answer<Bytes>) returns (r: Answer<Bytes>)
    ensures r == ServiceReply(q, result)
  {
    hide Enc, Dec, GoodKind, Fits;
    ReplyGood();
    ErrorGood();
    var payload: Bytes := [];
    if result.Done? {
      payload := result.value;
    } else {
      var (code, message) := Diagnosis(result.error);
      ErrorTypes(code, message);
      var e := Writer.Value([], ERROR, ErrorOf(code, message), 1);
      payload := e.value;
      assert payload == [] + ErrorPayload(result.error) == ErrorPayload(result.error);
    }
    var reply := ReplyOf(q.service, q.name, result.Done?, payload);
    ReplyTypes(q.service, q.name, result.Done?, payload);
    var w := Writer.Value([], REPLY, reply, 0);
    var frame := w.value;
    assert frame == [] + Enc(REPLY, reply, 0) == Enc(REPLY, reply, 0);
    var reader := new Reader.Reader(frame, 0);
    reader.Ws();
    var t := reader.Value(REPLY);
    if t.Err? {
      return Failure(Refused(WordText(t.word), t.off));
    }
    return Done(frame);
  }

  method ReadResponse(frame: Bytes, service: Bytes, name: Bytes) returns (r: Answer<Bytes>)
    ensures r == ServiceResponse(frame, service, name)
  {
    hide Text, GoodKind, Fits;
    ReplyGood();
    var reader := new Reader.Reader(frame, 0);
    var t := reader.Whole(REPLY);
    if t.Err? {
      return Failure(Refused(WordText(t.word), t.off));
    }
    TextTyped(frame, 0, REPLY);
    ReplyShape(t.value);
    var vals := t.value.vals;
    if vals[0].value.n != 1 {
      return Failure(Dispatch(UNKNOWN_VERSION));
    }
    if vals[1].value.s != service || vals[2].value.s != name {
      return Failure(Dispatch(MISMATCHED));
    }
    if vals[3].value.t {
      return Done(vals[4].value.text);
    }
    r := ReadFault(vals[4].value.text);
  }

  method ReadFault(payload: Bytes) returns (r: Answer<Bytes>)
    ensures r == ServiceFault(payload)
  {
    hide Text, GoodKind, Fits;
    ErrorGood();
    var reader := new Reader.Reader(payload, 1);
    var t := reader.Whole(ERROR);
    if t.Err? {
      return Failure(Refused(WordText(t.word), t.off));
    }
    TextTyped(payload, 1, ERROR);
    ErrorShape(t.value);
    var vals := t.value.vals;
    if vals[0].value.s == [] {
      return Failure(Dispatch(INVALID_ERROR));
    }
    return Failure(Service(vals[0].value.s, vals[1].value.s));
  }
}
