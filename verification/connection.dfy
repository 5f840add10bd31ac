/** One binary vDC-API connection (`VdcPbufApiConnection`) and the request
    objects it hands out (`VdcPbufApiRequest`).

    Inbound, `gotData` reassembles frames and `processMessage` classifies each
    decoded message: a generic response is matched against the table of
    pending answers, everything else is a method call (it carries a message
    id) or a notification (it does not). Outbound, `sendRequest` numbers calls
    from a per-connection counter and records the response handler, and
    `sendResult`/`sendError` answer a call.

    Protobuf packing and unpacking belong to the protobuf-c library and enter
    the model as the functions of a `Codec`; response handlers and the
    method-call handler are opaque, so dispatch returns an `Effect` saying
    which handler is invoked with what instead of invoking it. */
module PbufConnection {
  import opened Basics
  import opened ApiValue
  import opened ErrorMap
  import opened FieldMapping
  import Framing
  import Transmit

  // ---------------------------------------------------------------------
  // Messages
  // ---------------------------------------------------------------------

  /** The generic-response fields: the id it answers, the result code, an optional description. */
  datatype GenericResult = GenericResult(messageId: uint32, result: ResultCode, description: Option<string>)

  /** Inbound message types the dispatch switch names (`VDSM_REQUEST_HELLO`,
      `VDSM_REQUEST_GET_PROPERTY`, `VDSM_SEND_SET_PROPERTY`, `VDSM_SEND_REMOVE`,
      `VDSM_SEND_BYE`, the eight `VDSM_NOTIFICATION_...` types and
      `GENERIC_RESPONSE`); any other type value is `OtherType` with its number. */
  datatype InType =
    | Hello
    | GetProperty
    | SetProperty
    | Remove
    | Bye
    | Ping
    | CallScene
    | SaveScene
    | UndoScene
    | SetLocalPriority
    | SetControlValue
    | CallSceneMin
    | Identify
    | GenericResponse(response: GenericResult)
    | OtherType(code: int)

  /** A decoded inbound message: its type, the optional message id, and the
      sub-message belonging to the type (None when it was not transmitted). */
  datatype Inbound = Inbound(mtype: InType, messageId: Option<uint32>, sub: Option<Message>)

  /** Outbound message types. `NoType` is the response type 0 recorded for
      notifications; `InitializerType` is whatever type the message
      initializer leaves in place, which `sendError` never overwrites. */
  datatype OutType =
    | GenericResponseType
    | VdcResponseHello
    | VdcResponseGetProperty
    | VdcNotificationPong
    | VdcSendAnnounce
    | VdcNotificationVanish
    | VdcNotificationPushProperty
    | NoType
    | InitializerType

  datatype OutMessage = OutMessage(mtype: OutType, messageId: Option<uint32>, generic: Option<GenericResult>, sub: Option<Message>)

  /** The protobuf-c library as seen by the connection: unpacking a body,
      packing a message, and the field descriptors of each outbound sub-message. */
  datatype Codec = Codec(unpack: seq<byte> -> Option<Inbound>, pack: OutMessage -> seq<byte>, schema: OutType -> seq<FieldDesc>)

  // ---------------------------------------------------------------------
  // Connection state
  // ---------------------------------------------------------------------

  /** An opaque response handler (`VdcApiResponseCB`). */
  datatype Callback = Callback(token: nat)

  datatype ApiError = ApiError(code: int, message: string) | SocketError

  /** A request object: the id to answer and the message type the answer uses. */
  datatype Request = Request(reqId: uint32, responseType: OutType)

  datatype Conn = Conn(rx: Framing.RecvState, tx: Transmit.TxState, requestIdCounter: nat, pendingAnswers: map<int, Callback>)

  /** Every pending id was drawn from the counter. */
  predicate PendingBelowCounter(c: Conn)
  {
    forall k :: k in c.pendingAnswers ==> 1 <= k <= c.requestIdCounter
  }

  /** A fresh connection: empty buffers, counter 0, nothing pending. */
  function NewConnection(): (c: Conn)
    ensures PendingBelowCounter(c) && c.pendingAnswers == map[]
    ensures Framing.Pending(c.rx) == [] && Transmit.Armed(c.tx) && !c.tx.closed
    ensures c.requestIdCounter == 0 && c.tx.buffer == [] && !c.tx.closeWhenSent
  {
    Conn(Framing.EmptyRecv, Transmit.InitialTx, 0, map[])
  }

  // ---------------------------------------------------------------------
  // Dispatch (processMessage)
  // ---------------------------------------------------------------------

  const UnpackErrorMessage: string := "error unpacking incoming message"
  const NotImplementedMessage: string := "Error: Method is not implemented in the pbuf API"
  const UnknownMethodPrefix: string := "unknownMethod_"

  /** The method name a message type is dispatched under. */
  function MethodOf(t: InType): (name: string)
    ensures t.OtherType? ==> |name| > |UnknownMethodPrefix| && name[..|UnknownMethodPrefix|] == UnknownMethodPrefix
    ensures t.OtherType? ==> name[|UnknownMethodPrefix|..] == IntToDecimal(t.code)
    ensures t.GenericResponse? <==> name == ""
  {
    match t
    case Hello => "hello"
    case GetProperty => "getProperty"
    case SetProperty => "setProperty"
    case Remove => "remove"
    case Bye => "bye"
    case Ping => "ping"
    case CallScene => "callScene"
    case SaveScene => "saveScene"
    case UndoScene => "undoScene"
    case SetLocalPriority => "setLocalPriority"
    case SetControlValue => "setControlValue"
    case CallSceneMin => "callSceneMin"
    case Identify => "identify"
    case GenericResponse(_) => ""
    case OtherType(code) =>
      IntToDecimalSign(code);
      UnknownMethodPrefix + IntToDecimal(code)
  }

  /** Notifications: the eight types dispatched without a response type. */
  predicate IsNotification(t: InType)
  {
    t.Ping? || t.CallScene? || t.SaveScene? || t.UndoScene? || t.SetLocalPriority? || t.SetControlValue? || t.CallSceneMin? || t.Identify?
  }

  /** The response type recorded for a call of this type. */
  function ResponseTypeOf(t: InType): (rt: OutType)
    ensures rt == VdcResponseHello <==> t == Hello
    ensures rt == VdcResponseGetProperty <==> t == GetProperty
    ensures rt == NoType <==> IsNotification(t) || t.GenericResponse?
    ensures rt == GenericResponseType <==> t.SetProperty? || t.Remove? || t.Bye? || t.OtherType?
  {
    match t
    case Hello => VdcResponseHello
    case GetProperty => VdcResponseGetProperty
    case SetProperty | Remove | Bye | OtherType(_) => GenericResponseType
    case _ => NoType
  }

  /** What `paramsMsg` points to: nothing for "bye", for unknown types and for
      a generic response, else the type's sub-message (absent if not transmitted). */
  function ParamsSource(m: Inbound): (src: Option<Message>)
    ensures m.mtype.Bye? || m.mtype.OtherType? || m.mtype.GenericResponse? ==> src.None?
    ensures src.Some? ==> src == m.sub
  {
    match m.mtype
    case Bye | OtherType(_) | GenericResponse(_) => None
    case _ => m.sub
  }

  /** The parameters as written: `getObjectFromMessageFields(*paramsMsg)`;
      None stands for the null dereference when there is no sub-message. */
  function CallParamsAsWritten(src: Option<Message>): (r: Option<Value>)
    ensures r.Some? <==> src.Some?
  {
    if src.Some? then Some(ObjectFromMessageFields(src.value)) else None
  }

  /** The parameters as intended: a missing sub-message reads as one with no fields. */
  function CallParams(src: Option<Message>): (v: Value)
    ensures v.declared == ObjectKind && Consistent(v)
    ensures src.None? ==> v.data.Unallocated?
    ensures CallParamsAsWritten(src).Some? ==> v == CallParamsAsWritten(src).value
  {
    ObjectFromMessageFields(if src.Some? then src.value else Message([]))
  }

  /** The error a generic response carries: none for RESULT_OK, else the
      internal code with the description (empty when absent). */
  function ResponseError(g: GenericResult): (e: Option<ApiError>)
    ensures e.None? <==> g.result == RESULT_OK
    ensures e.Some? ==> e.value == ApiError(PbufToInternalError(g.result), if g.description.Some? then g.description.value else "")
    ensures e.Some? ==> e.value.code != 0
  {
    if g.result != RESULT_OK then
      Some(ApiError(PbufToInternalError(g.result), if g.description.Some? then g.description.value else ""))
    else None
  }

  /** What dispatching one message causes. */
  datatype Effect =
    | NoEffect
    | Delivered(cb: Callback, request: Request, err: Option<ApiError>, result: Value)
    | Handle(call: Option<Request>, methodName: string, params: Value)

  datatype Processed = Processed(conn: Conn, effect: Effect, err: Option<ApiError>)

  /** The id a generic response answers, as the signed `responseForId` of the
      source: the 32-bit `message_id` reinterpreted as `int32_t`; -1 for any
      other message. */
  function ResponseForId(m: Inbound): (id: int32)
    ensures !m.mtype.GenericResponse? ==> id == -1
    ensures m.mtype.GenericResponse? && m.mtype.response.messageId < TWO31 ==> id == m.mtype.response.messageId
    ensures m.mtype.GenericResponse? && m.mtype.response.messageId >= TWO31 ==> id == m.mtype.response.messageId - TWO32
  {
    if m.mtype.GenericResponse? then Int32Of(m.mtype.response.messageId) else -1
  }

  /** Whether the source finds no parameter message to decode for a call or
      notification: "bye" and unknown types never set `paramsMsg`, a generic
      response read as a call leaves it unset, and a type whose sub-message
      was not transmitted points it at the base of a null pointer. */
  predicate NoParamsMessage(m: Inbound)
  {
    m.mtype.Bye? || m.mtype.OtherType? || m.mtype.GenericResponse? || m.sub.None?
  }

  /** `processMessage` on the result of unpacking one frame, as intended: a
      generic response always answers the call numbered by its unsigned
      `message_id`, and a call or notification without a parameter message
      gets an empty parameter object. */
  function ProcessMessage(c: Conn, decoded: Option<Inbound>): (r: Processed)
    // undecodable: error 400, nothing else
    ensures decoded.None? ==> r == Processed(c, NoEffect, Some(ApiError(400, UnpackErrorMessage)))
    // a response to a pending call: the entry is removed and its handler invoked once
    ensures decoded.Some? && decoded.value.mtype.GenericResponse? && decoded.value.mtype.response.messageId in c.pendingAnswers ==>
      var g := decoded.value.mtype.response;
      r.err.None? &&
      r.conn == c.(pendingAnswers := c.pendingAnswers - {g.messageId}) &&
      r.effect == Delivered(c.pendingAnswers[g.messageId], Request(g.messageId, GenericResponseType), ResponseError(g), NewValue(NullKind))
    // a response to nothing pending: dropped, error reset
    ensures decoded.Some? && decoded.value.mtype.GenericResponse? && decoded.value.mtype.response.messageId !in c.pendingAnswers ==>
      r == Processed(c, NoEffect, None)
    // a call or a notification: handed to the request handler, with a request iff the message has an id
    ensures decoded.Some? && !decoded.value.mtype.GenericResponse? ==>
      var m := decoded.value;
      r.conn == c && r.err.None? && r.effect.Handle? &&
      r.effect.methodName == MethodOf(m.mtype) &&
      r.effect.params == CallParams(ParamsSource(m)) &&
      (NoParamsMessage(m) ==> r.effect.params == ObjectFromMessageFields(Message([]))) &&
      (r.effect.call.Some? <==> m.messageId.Some?) &&
      (m.messageId.Some? ==> r.effect.call.value == Request(m.messageId.value, ResponseTypeOf(m.mtype)))
    ensures r.conn.rx == c.rx && r.conn.tx == c.tx && r.conn.requestIdCounter == c.requestIdCounter
    ensures r.conn.pendingAnswers.Keys <= c.pendingAnswers.Keys
  {
    if decoded.None? then
      Processed(c, NoEffect, Some(ApiError(400, UnpackErrorMessage)))
    else
      var m := decoded.value;
      if m.mtype.GenericResponse? then
        var g := m.mtype.response;
        if g.messageId in c.pendingAnswers then
          var cb := c.pendingAnswers[g.messageId];
          var request := Request(g.messageId, GenericResponseType);
          Processed(c.(pendingAnswers := c.pendingAnswers - {g.messageId}), Delivered(cb, request, ResponseError(g), NewValue(NullKind)), None)
        else
          Processed(c, NoEffect, None)
      else
        var params := CallParams(ParamsSource(m));
        var request := if m.messageId.Some? then Some(Request(m.messageId.value, ResponseTypeOf(m.mtype))) else None;
        Processed(c, Handle(request, MethodOf(m.mtype), params), None)
  }

  /** `processMessage` as written: the signed `responseForId` decides between
      the response and the call branch, and the call branch decodes
      `*paramsMsg`. None stands for the null dereference at line 1025. */
  function ProcessMessageAsWritten(c: Conn, decoded: Option<Inbound>): (r: Option<Processed>)
    ensures r.None? <==> (decoded.Some? &&
      (decoded.value.mtype.Bye? || decoded.value.mtype.OtherType? ||
       (decoded.value.mtype.GenericResponse? && decoded.value.mtype.response.messageId >= TWO31) ||
       (!decoded.value.mtype.GenericResponse? && decoded.value.sub.None?)))
    ensures r.Some? ==> r.value == ProcessMessage(c, decoded)
  {
    if decoded.None? then
      Some(Processed(c, NoEffect, Some(ApiError(400, UnpackErrorMessage))))
    else
      var m := decoded.value;
      var err := if m.mtype.GenericResponse? then ResponseError(m.mtype.response) else None;
      var responseForId := ResponseForId(m);
      if responseForId >= 0 then
        if responseForId in c.pendingAnswers then
          var cb := c.pendingAnswers[responseForId];
          var request := Request(Uint32Of(responseForId), GenericResponseType);
          Some(Processed(c.(pendingAnswers := c.pendingAnswers - {responseForId}), Delivered(cb, request, err, NewValue(NullKind)), None))
        else
          Some(Processed(c, NoEffect, None))
      else
        match CallParamsAsWritten(ParamsSource(m))
        case None => None
        case Some(params) =>
          var request := if m.messageId.Some? then Some(Request(m.messageId.value, ResponseTypeOf(m.mtype))) else None;
          Some(Processed(c, Handle(request, MethodOf(m.mtype), params), err))
  }

  /** Dispatching keeps every pending id drawn from the counter. */
  lemma ProcessKeepsPendingBelowCounter(c: Conn, decoded: Option<Inbound>)
    requires PendingBelowCounter(c)
    ensures PendingBelowCounter(ProcessMessage(c, decoded).conn)
  {
  }

  /** Unknown message types get distinct method names, none of them a known method. */
  lemma UnknownMethodNamesDistinct(a: int, b: int, t: InType)
    requires !t.OtherType?
    ensures a != b ==> MethodOf(OtherType(a)) != MethodOf(OtherType(b))
    ensures MethodOf(OtherType(a)) != MethodOf(t)
  {
    if a != b && MethodOf(OtherType(a)) == MethodOf(OtherType(b)) {
      var pa, pb := MethodOf(OtherType(a)), MethodOf(OtherType(b));
      assert pa[|UnknownMethodPrefix|..] == IntToDecimal(a);
      assert pb[|UnknownMethodPrefix|..] == IntToDecimal(b);
      IntToDecimalInjective(a, b);
    }
    assert MethodOf(OtherType(a))[0] == 'u';
  }

  /** As written, "bye" always dereferences a null parameter message. */
  lemma ByeAsWrittenDereferencesNull(c: Conn, m: Inbound)
    requires m.mtype.Bye?
    ensures CallParamsAsWritten(ParamsSource(m)).None?
    ensures ProcessMessageAsWritten(c, Some(m)).None?
  {
  }

  /** As written, every unknown message type dereferences a null parameter
      message: the default branch names the method but never sets `paramsMsg`. */
  lemma UnknownTypeAsWrittenDereferencesNull(c: Conn, m: Inbound)
    requires m.mtype.OtherType?
    ensures CallParamsAsWritten(ParamsSource(m)).None?
    ensures ProcessMessageAsWritten(c, Some(m)).None?
  {
  }

  /** As written, a call or notification whose sub-message was not transmitted
      dereferences a null parameter message. */
  lemma AbsentSubMessageAsWrittenDereferencesNull(c: Conn, m: Inbound)
    requires !m.mtype.GenericResponse? && m.sub.None?
    ensures CallParamsAsWritten(ParamsSource(m)).None?
    ensures ProcessMessageAsWritten(c, Some(m)).None?
  {
  }

  /** As written, a generic response with an id of 2^31 or more reads as a
      negative `responseForId`, takes the call branch and dereferences a null
      parameter message. */
  lemma LargeResponseIdAsWrittenTakesCallBranch(c: Conn, m: Inbound)
    requires m.mtype.GenericResponse? && m.mtype.response.messageId >= TWO31
    ensures ResponseForId(m) < 0
    ensures ProcessMessageAsWritten(c, Some(m)).None?
  {
  }

  /** As intended, "bye" with an id is handed over as a call answered by a generic response, with empty parameters. */
  lemma ByeIsDispatched(c: Conn, id: uint32, sub: Option<Message>)
    ensures var r := ProcessMessage(c, Some(Inbound(Bye, Some(id), sub)));
      r.effect == Handle(Some(Request(id, GenericResponseType)), "bye", ObjectFromMessageFields(Message([]))) && r.err.None?
  {
  }

  /** As intended, a call of an unknown type, or one without its sub-message,
      is handed over under its method name with empty parameters. */
  lemma MissingParamsAreEmpty(c: Conn, m: Inbound)
    requires !m.mtype.GenericResponse? && (m.mtype.OtherType? || m.sub.None?)
    ensures var r := ProcessMessage(c, Some(m));
      r.effect.Handle? && r.effect.methodName == MethodOf(m.mtype) &&
      r.effect.params == ObjectFromMessageFields(Message([])) && r.err.None?
  {
  }

  /** As intended, a generic response is never handed to the request handler,
      whatever its id: one that answers no pending call is dropped. */
  lemma LargeResponseIdIsDropped(c: Conn, m: Inbound)
    requires m.mtype.GenericResponse? && m.mtype.response.messageId >= TWO31
    requires PendingBelowCounter(c) && c.requestIdCounter < TWO31
    ensures ProcessMessage(c, Some(m)) == Processed(c, NoEffect, None)
  {
  }

  // ---------------------------------------------------------------------
  // Receiving (gotData)
  // ---------------------------------------------------------------------

  /** The socket's answer when data is announced: a read error, or the bytes read. */
  datatype ReadResult = ReadFailed | ReadBytes(data: seq<byte>)

  datatype Received = Received(conn: Conn, effects: seq<Effect>)

  /** Dispatch the bodies of one read in order; each result overwrites the error. */
  function ProcessAll(c: Conn, unpack: seq<byte> -> Option<Inbound>, bodies: seq<seq<byte>>, err: Option<ApiError>): (r: Processed)
    ensures r.conn.rx == c.rx && r.conn.tx == c.tx && r.conn.requestIdCounter == c.requestIdCounter
    ensures r.conn.pendingAnswers.Keys <= c.pendingAnswers.Keys
    ensures |bodies| == 0 ==> r.err == err
    decreases |bodies|
  {
    if |bodies| == 0 then Processed(c, NoEffect, err)
    else
      var p := ProcessMessage(c, unpack(bodies[0]));
      ProcessAll(p.conn, unpack, bodies[1..], p.err)
  }

  /** The effects of dispatching the bodies of one read, in order. */
  function EffectsOf(c: Conn, unpack: seq<byte> -> Option<Inbound>, bodies: seq<seq<byte>>): (es: seq<Effect>)
    ensures |es| == |bodies|
    decreases |bodies|
  {
    if |bodies| == 0 then []
    else
      var p := ProcessMessage(c, unpack(bodies[0]));
      [p.effect] + EffectsOf(p.conn, unpack, bodies[1..])
  }

  /** Dispatch never reads the error left by the previous body. */
  lemma ProcessAllConnIgnoresErr(c: Conn, unpack: seq<byte> -> Option<Inbound>, bodies: seq<seq<byte>>, e1: Option<ApiError>, e2: Option<ApiError>)
    ensures ProcessAll(c, unpack, bodies, e1).conn == ProcessAll(c, unpack, bodies, e2).conn
  {
  }

  /** Effect i is the dispatch of body i in the state the earlier bodies of the read left. */
  lemma {:induction false} EffectsInOrder(c: Conn, unpack: seq<byte> -> Option<Inbound>, bodies: seq<seq<byte>>, i: nat)
    requires i < |bodies|
    ensures EffectsOf(c, unpack, bodies)[i] == ProcessMessage(ProcessAll(c, unpack, bodies[..i], None).conn, unpack(bodies[i])).effect
    decreases i
  {
    if i > 0 {
      var p := ProcessMessage(c, unpack(bodies[0]));
      EffectsInOrder(p.conn, unpack, bodies[1..], i - 1);
      assert bodies[1..][i - 1] == bodies[i];
      assert bodies[..i][0] == bodies[0];
      assert bodies[..i][1..] == bodies[1..][..i - 1];
      ProcessAllConnIgnoresErr(p.conn, unpack, bodies[1..][..i - 1], p.err, None);
    }
  }

  /** Only the last body's error is left over: earlier ones are overwritten. */
  lemma {:induction false} LastErrorWins(c: Conn, unpack: seq<byte> -> Option<Inbound>, bodies: seq<seq<byte>>, err: Option<ApiError>)
    requires |bodies| > 0 && unpack(bodies[|bodies| - 1]).Some?
    ensures ProcessAll(c, unpack, bodies, err).err.None?
    decreases |bodies|
  {
    if |bodies| > 1 {
      var p := ProcessMessage(c, unpack(bodies[0]));
      assert bodies[1..][|bodies[1..]| - 1] == bodies[|bodies| - 1];
      LastErrorWins(p.conn, unpack, bodies[1..], p.err);
    }
  }

  /** Dispatch the messages handed over by one read, in order, and close the
      connection when the last dispatch left an error. */
  function DispatchRead(c: Conn, unpack: seq<byte> -> Option<Inbound>, rx': Framing.RecvState, passed: seq<seq<byte>>): Received
  {
    var c1 := c.(rx := rx');
    var p := ProcessAll(c1, unpack, passed, None);
    Received(p.conn.(tx := p.conn.tx.(closed := p.conn.tx.closed || p.err.Some?)), EffectsOf(c1, unpack, passed))
  }

  /** `gotData`: append the read bytes, dispatch the body of every complete
      frame, and close the connection on a read error or when the last
      dispatch left an error. */
  function GotData(c: Conn, unpack: seq<byte> -> Option<Inbound>, read: ReadResult): (r: Received)
    ensures read.ReadFailed? ==> r == Received(c.(tx := c.tx.(closed := true)), [])
    ensures read.ReadBytes? && read.data == [] ==> r == Received(c, [])
    ensures read.ReadBytes? && read.data != [] ==>
      var (rx', ds) := Framing.Receive(c.rx, read.data);
      var bodies := Framing.Payloads(ds);
      r.conn.rx == rx' &&
      r.effects == EffectsOf(c.(rx := rx'), unpack, bodies) &&
      (r.conn.tx.closed <==> c.tx.closed || ProcessAll(c.(rx := rx'), unpack, bodies, None).err.Some?)
    ensures r.conn.requestIdCounter == c.requestIdCounter
    ensures r.conn.pendingAnswers.Keys <= c.pendingAnswers.Keys
  {
    match read
    case ReadFailed => Received(c.(tx := c.tx.(closed := true)), [])
    case ReadBytes(data) =>
      if |data| == 0 then Received(c, [])
      else
        var (rx', ds) := Framing.Receive(c.rx, data);
        DispatchRead(c, unpack, rx', Framing.Payloads(ds))
  }

  /** `gotData` as written: each complete frame hands `processMessage` the
      whole remaining buffer (line 744) instead of the frame's body. */
  function GotDataAsWritten(c: Conn, unpack: seq<byte> -> Option<Inbound>, read: ReadResult): (r: Received)
    ensures read.ReadBytes? ==> r.conn.rx == GotData(c, unpack, read).conn.rx
    ensures |r.effects| == |GotData(c, unpack, read).effects|
    ensures read.ReadFailed? || read.data == [] ==> r == GotData(c, unpack, read)
  {
    match read
    case ReadFailed => Received(c.(tx := c.tx.(closed := true)), [])
    case ReadBytes(data) =>
      if |data| == 0 then Received(c, [])
      else
        var (rx', ds) := Framing.Receive(c.rx, data);
        DispatchRead(c, unpack, rx', Framing.PassedAllAsWritten(ds))
  }

  /** A fresh receive side fed a whole number of frames dispatches exactly
      their bodies, in order, and is empty again afterwards. */
  lemma GotDataDeliversFrames(c: Conn, unpack: seq<byte> -> Option<Inbound>, bodies: seq<seq<byte>>)
    requires c.rx == Framing.EmptyRecv && Framing.Deliverable(bodies) && |bodies| > 0
    ensures var r := GotData(c, unpack, ReadBytes(Framing.Frames(bodies)));
      r.conn.rx == Framing.EmptyRecv &&
      r.effects == EffectsOf(c, unpack, bodies) &&
      (r.conn.tx.closed <==> c.tx.closed || ProcessAll(c, unpack, bodies, None).err.Some?)
  {
    var data := Framing.Frames(bodies);
    Framing.FramesLength(bodies);
    assert Framing.EmptyRecv.buffer + data == data + [];
    Framing.ReassembleFrames(Framing.RecvState(data, 0), bodies, []);
    var (rx', ds) := Framing.Receive(c.rx, data);
    assert rx' == Framing.EmptyRecv;
    assert c.(rx := rx') == c;
  }

  /** As written, the first of two frames read together is unpacked with the
      second frame still attached, where the intended reading unpacks its body alone. */
  lemma GotDataAsWrittenPassesNextFrame(c: Conn, unpack: seq<byte> -> Option<Inbound>, b1: seq<byte>, b2: seq<byte>)
    requires c.rx == Framing.EmptyRecv
    requires 1 <= |b1| < TWO32 && 1 <= |b2| < TWO32
    ensures var data := Framing.Frame(b1) + Framing.Frame(b2);
      var w := GotDataAsWritten(c, unpack, ReadBytes(data));
      var r := GotData(c, unpack, ReadBytes(data));
      |w.effects| == 2 && |r.effects| == 2 &&
      w.effects[0] == ProcessMessage(c, unpack(b1 + Framing.Frame(b2))).effect &&
      r.effects[0] == ProcessMessage(c, unpack(b1)).effect
  {
    var data := Framing.Frame(b1) + Framing.Frame(b2);
    Framing.PassedBufferIncludesNextFrame(b1, b2);
    var (rx', ds) := Framing.Receive(c.rx, data);
    assert Framing.EmptyRecv.buffer + data == data;
    EffectsInOrder(c.(rx := rx'), unpack, Framing.PassedAllAsWritten(ds), 0);
    EffectsInOrder(c.(rx := rx'), unpack, Framing.Payloads(ds), 0);
  }

  /** An undecodable frame followed by a well-formed call in the same read does
      not close the connection: the later dispatch overwrites the error. */
  lemma EarlierErrorDoesNotClose(c: Conn, unpack: seq<byte> -> Option<Inbound>, bad: seq<byte>, good: seq<byte>, m: Inbound)
    requires c.rx == Framing.EmptyRecv && !c.tx.closed
    requires 1 <= |bad| < TWO32 && 1 <= |good| < TWO32
    requires unpack(bad).None? && unpack(good) == Some(m) && !m.mtype.GenericResponse?
    ensures var r := GotData(c, unpack, ReadBytes(Framing.Frame(bad) + Framing.Frame(good)));
      !r.conn.tx.closed && |r.effects| == 2 && r.effects[0] == NoEffect
  {
    var data := Framing.Frame(bad) + Framing.Frame(good);
    Framing.TwoFramesDelivered(bad, good);
    var (rx', ds) := Framing.Receive(c.rx, data);
    var bodies := Framing.Payloads(ds);
    assert bodies == [bad, good];
    LastErrorWins(c.(rx := rx'), unpack, bodies, None);
    assert EffectsOf(c.(rx := rx'), unpack, bodies)[0] == NoEffect;
  }

  // ---------------------------------------------------------------------
  // Sending
  // ---------------------------------------------------------------------

  /** Result of a send: the new state, the message handed to `sendMessage` (if any), the bytes written, the error. */
  datatype SendOutcome = SendOutcome(conn: Conn, message: Option<OutMessage>, wire: seq<byte>, err: Option<ApiError>)

  /** Pack and hand a message to the transmit side. */
  function Emit(c: Conn, codec: Codec, msg: OutMessage, o: Transmit.Outcome): (r: SendOutcome)
    ensures r.message == Some(msg)
    ensures r.conn == c.(tx := r.conn.tx)
    ensures r.err.None? ==> r.wire + r.conn.tx.buffer == c.tx.buffer + Framing.Frame(codec.pack(msg))
    ensures r.err.Some? ==> r.err == Some(SocketError) && r.conn == c && r.wire == []
  {
    var step := Transmit.SendMessage(c.tx, codec.pack(msg), o);
    SendOutcome(c.(tx := step.state), Some(msg), step.wire, if step.ok then None else Some(SocketError))
  }

  /** What `sendMessage` promises for a message it was handed: the receive side
      is untouched; on success the bytes written followed by the transmit buffer
      are the old buffer followed by the message's frame; a write error gives
      the socket error, writes nothing and leaves the transmit side as it was. */
  predicate Transmitted(c: Conn, codec: Codec, r: SendOutcome)
  {
    r.message.Some? && r.conn.rx == c.rx &&
    (r.err.None? ==> r.wire + r.conn.tx.buffer == c.tx.buffer + Framing.Frame(codec.pack(r.message.value))) &&
    (r.err.Some? ==> r.err == Some(SocketError) && r.wire == [] && r.conn.tx == c.tx)
  }

  /** A freshly initialised sub-message. */
  function InitMessage(desc: seq<FieldDesc>): (m: Message)
    ensures Descriptor(m) == desc
  {
    Message(seq(|desc|, i requires 0 <= i < |desc| => InitField(desc[i])))
  }

  /** The outbound type for a method name `sendRequest` knows. */
  function RequestType(name: string): (t: Option<OutType>)
    ensures t.Some? <==> name in {"pong", "announce", "vanish", "pushProperty"}
  {
    if name == "pong" then Some(VdcNotificationPong)
    else if name == "announce" then Some(VdcSendAnnounce)
    else if name == "vanish" then Some(VdcNotificationVanish)
    else if name == "pushProperty" then Some(VdcNotificationPushProperty)
    else None
  }

  /** `sendRequest`: an unknown method fails with 500 and changes nothing; with
      a handler the message gets id `++requestIdCounter`, registered with the
      handler before sending, so a write error keeps the registration; without
      one, no id and no registration. The message is framed onto the transmit side. */
  function SendRequest(c: Conn, codec: Codec, methodName: string, params: Option<Value>, handler: Option<Callback>, o: Transmit.Outcome): (r: SendOutcome)
    ensures RequestType(methodName).None? ==> r == SendOutcome(c, None, [], Some(ApiError(500, NotImplementedMessage)))
    ensures RequestType(methodName).Some? ==>
      var t := RequestType(methodName).value;
      r.message.Some? && r.message.value.mtype == t &&
      r.conn.rx == c.rx &&
      (handler.Some? ==>
        r.conn.requestIdCounter == c.requestIdCounter + 1 &&
        r.conn.pendingAnswers == c.pendingAnswers[c.requestIdCounter + 1 := handler.value] &&
        r.message.value.messageId == Some(Uint32Of(c.requestIdCounter + 1))) &&
      (handler.None? ==>
        r.conn.requestIdCounter == c.requestIdCounter &&
        r.conn.pendingAnswers == c.pendingAnswers &&
        r.message.value.messageId.None?) &&
      r.message.value.sub == Some(if params.Some? then PutObjectIntoMessageFields(params.value, codec.schema(t)) else InitMessage(codec.schema(t))) &&
      Transmitted(c, codec, r)
    ensures PendingBelowCounter(c) ==> PendingBelowCounter(r.conn)
  {
    var t := RequestType(methodName);
    if t.None? then SendOutcome(c, None, [], Some(ApiError(500, NotImplementedMessage)))
    else
      var desc := codec.schema(t.value);
      var c1 :=
        if handler.Some? then
          c.(requestIdCounter := c.requestIdCounter + 1, pendingAnswers := c.pendingAnswers[c.requestIdCounter + 1 := handler.value])
        else c;
      var id := if handler.Some? then Some(Uint32Of(c1.requestIdCounter)) else None;
      var sub := if params.Some? then PutObjectIntoMessageFields(params.value, desc) else InitMessage(desc);
      Emit(c1, codec, OutMessage(t.value, id, None, Some(sub)), o)
  }

  /** A registered id is fresh: it never overwrites the handler of an earlier call. */
  lemma RequestIdFresh(c: Conn, codec: Codec, methodName: string, params: Option<Value>, cb: Callback, o: Transmit.Outcome)
    requires PendingBelowCounter(c) && RequestType(methodName).Some?
    ensures c.requestIdCounter + 1 !in c.pendingAnswers
    ensures SendRequest(c, codec, methodName, params, Some(cb), o).conn.pendingAnswers - {c.requestIdCounter + 1} == c.pendingAnswers
  {
  }

  /** Ids of successive calls strictly increase. */
  lemma RequestIdsIncrease(c: Conn, codec: Codec, m1: string, m2: string, p1: Option<Value>, p2: Option<Value>, cb1: Callback, cb2: Callback, o1: Transmit.Outcome, o2: Transmit.Outcome)
    requires RequestType(m1).Some? && RequestType(m2).Some?
    requires c.requestIdCounter + 2 < TWO32
    ensures var r1 := SendRequest(c, codec, m1, p1, Some(cb1), o1);
      var r2 := SendRequest(r1.conn, codec, m2, p2, Some(cb2), o2);
      r1.message.value.messageId.value < r2.message.value.messageId.value
  {
  }

  /** Correlation: the answer to a call reaches the call's own handler exactly
      once, and afterwards the pending table is as it was before the call. */
  lemma ResponseDeliveredOnce(c: Conn, codec: Codec, methodName: string, params: Option<Value>, cb: Callback, o: Transmit.Outcome, result: ResultCode, description: Option<string>)
    requires PendingBelowCounter(c) && RequestType(methodName).Some?
    requires c.requestIdCounter + 1 < TWO32
    ensures var s := SendRequest(c, codec, methodName, params, Some(cb), o);
      var id := c.requestIdCounter + 1;
      var g := GenericResult(id, result, description);
      var reply := Inbound(GenericResponse(g), None, None);
      var p1 := ProcessMessage(s.conn, Some(reply));
      var p2 := ProcessMessage(p1.conn, Some(reply));
      s.message.value.messageId == Some(id) &&
      p1.effect == Delivered(cb, Request(id, GenericResponseType), ResponseError(g), NewValue(NullKind)) &&
      p1.conn.pendingAnswers == c.pendingAnswers &&
      p2.effect == NoEffect
  {
    RequestIdFresh(c, codec, methodName, params, cb, o);
  }

  // ---------------------------------------------------------------------
  // Answering a call (VdcPbufApiRequest)
  // ---------------------------------------------------------------------

  /** `sendError`: a generic response carrying the request id twice, the wire
      result code and the message (absent when empty); the message type is not set. */
  function SendError(c: Conn, codec: Codec, req: Request, code: uint32, message: string, o: Transmit.Outcome): (r: SendOutcome)
    ensures r.message.Some?
    ensures var msg := r.message.value;
      msg.mtype == InitializerType && msg.messageId == Some(req.reqId) && msg.sub.None? &&
      msg.generic == Some(GenericResult(req.reqId, InternalToPbufError(code), if |message| > 0 then Some(message) else None))
    ensures Transmitted(c, codec, r)
    ensures r.conn.pendingAnswers == c.pendingAnswers && r.conn.requestIdCounter == c.requestIdCounter
  {
    var g := GenericResult(req.reqId, InternalToPbufError(code), if |message| > 0 then Some(message) else None);
    Emit(c, codec, OutMessage(InitializerType, Some(req.reqId), Some(g), None), o)
  }

  /** `sendResult`: a null result is answered like success; a hello or
      getProperty response carries the result's fields; any other response
      type fails with 500 and sends nothing. */
  function SendResult(c: Conn, codec: Codec, req: Request, result: Option<Value>, o: Transmit.Outcome): (r: SendOutcome)
    ensures result.None? || IsNull(result.value) ==> r == SendError(c, codec, req, 0, "", o)
    ensures result.Some? && !IsNull(result.value) && (req.responseType == VdcResponseHello || req.responseType == VdcResponseGetProperty) ==>
      r.message == Some(OutMessage(req.responseType, Some(req.reqId), None,
        Some(PutObjectIntoMessageFields(result.value, codec.schema(req.responseType))))) &&
      Transmitted(c, codec, r)
    ensures result.Some? && !IsNull(result.value) && req.responseType != VdcResponseHello && req.responseType != VdcResponseGetProperty ==>
      r == SendOutcome(c, None, [], Some(ApiError(500, NotImplementedMessage)))
    ensures r.conn.pendingAnswers == c.pendingAnswers && r.conn.requestIdCounter == c.requestIdCounter
  {
    if result.None? || IsNull(result.value) then SendError(c, codec, req, 0, "", o)
    else if req.responseType == VdcResponseHello || req.responseType == VdcResponseGetProperty then
      var sub := PutObjectIntoMessageFields(result.value, codec.schema(req.responseType));
      Emit(c, codec, OutMessage(req.responseType, Some(req.reqId), None, Some(sub)), o)
    else SendOutcome(c, None, [], Some(ApiError(500, NotImplementedMessage)))
  }

  /** The request created for a call without a dedicated response message
      (setProperty, remove, bye, unknown types) cannot carry a result: only
      errors and empty results can be sent for it. */
  lemma GenericCallsCannotReturnResults(c: Conn, codec: Codec, m: Inbound, v: Value, o: Transmit.Outcome)
    requires m.messageId.Some? && !m.mtype.GenericResponse?
    requires m.mtype.SetProperty? || m.mtype.Remove? || m.mtype.Bye? || m.mtype.OtherType?
    requires !IsNull(v)
    ensures var p := ProcessMessage(c, Some(m));
      p.effect.Handle? && p.effect.call.Some? &&
      SendResult(c, codec, p.effect.call.value, Some(v), o).err == Some(ApiError(500, NotImplementedMessage))
  {
  }

  /** An error reply is understood by the peer: if the peer's library reads
      the message `sendError` emits as the generic response it carries, then
      at a peer waiting for that id the answer reaches the waiting handler
      with the same internal code and message, for every code with a
      dedicated wire result. */
  lemma ErrorReplyRoundTrip(c: Conn, peer: Conn, codec: Codec, req: Request, code: uint32, message: string, o: Transmit.Outcome)
    requires HasDedicatedCode(code) && code != 0
    requires req.reqId in peer.pendingAnswers
    requires var msg := SendError(c, codec, req, code, message, o).message.value;
      codec.unpack(codec.pack(msg)) == Some(Inbound(GenericResponse(msg.generic.value), msg.messageId, None))
    ensures var msg := SendError(c, codec, req, code, message, o).message.value;
      var p := ProcessMessage(peer, codec.unpack(codec.pack(msg)));
      p.effect.Delivered? && p.effect.cb == peer.pendingAnswers[req.reqId] &&
      p.effect.request.reqId == req.reqId &&
      p.effect.err.Some? && p.effect.err.value.code == code &&
      p.effect.err.value.message == message
  {
    InternalRoundTrip(code);
  }

  /** The error reply end to end: sent from an idle transmit side without a
      write error, the bytes the peer reads (those written now and those still
      buffered) make one frame, whose dispatch reaches the waiting handler with
      the original code and message. */
  lemma ErrorReplyOverTheWire(c: Conn, peer: Conn, codec: Codec, req: Request, code: uint32, message: string, o: Transmit.Outcome)
    requires HasDedicatedCode(code) && code != 0
    requires req.reqId in peer.pendingAnswers
    requires c.tx.buffer == [] && peer.rx == Framing.EmptyRecv
    requires var r := SendError(c, codec, req, code, message, o);
      r.err.None? && 1 <= |codec.pack(r.message.value)| < TWO32 &&
      codec.unpack(codec.pack(r.message.value)) == Some(Inbound(GenericResponse(r.message.value.generic.value), r.message.value.messageId, None))
    ensures var r := SendError(c, codec, req, code, message, o);
      var g := GotData(peer, codec.unpack, ReadBytes(r.wire + r.conn.tx.buffer));
      |g.effects| == 1 && g.effects[0].Delivered? &&
      g.effects[0].cb == peer.pendingAnswers[req.reqId] &&
      g.effects[0].err.Some? && g.effects[0].err.value.code == code &&
      g.effects[0].err.value.message == message
  {
    var r := SendError(c, codec, req, code, message, o);
    var body := codec.pack(r.message.value);
    assert r.wire + r.conn.tx.buffer == Framing.Frames([body]);
    GotDataDeliversFrames(peer, codec.unpack, [body]);
    ErrorReplyRoundTrip(c, peer, codec, req, code, message, o);
  }
}
