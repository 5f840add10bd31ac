# vdcd binary vDC-API engine and EnOcean device logic, modelled in Dafny

This project models two parts of vdcd, the virtual device connector daemon.

The first part is the binary (protocol-buffer) vDC API engine in
`src/vdc_common/pbufvdcapi.cpp`:

- the generic API value `PbufApiValue`: a declared kind, lazily allocated
  storage, lower-cased object keys and arrays;
- the mapping between protobuf-c messages and such values, in both
  directions;
- the translation between internal HTTP-style error codes and wire result
  codes;
- the 4-byte big-endian length framing, with the receive-side reassembly
  loop of `gotData`;
- the transmit buffer of `sendMessage`/`canSendData`/`closeAfterSend`;
- the dispatch of `processMessage`, with request/response correlation
  through `requestIdCounter` and `pendingAnswers`;
- the answers a request object sends (`sendResult`, `sendError`).

The second part is the device-level logic of an EnOcean device in
`src/deviceclasses/enocean/enoceandevice.cpp`:

- channel handlers numbered in insertion order;
- presence as the liveness of every channel;
- the pending-output-update flag, which defers transmissions for devices
  that only listen right after they sent something;
- the profile-variant table, which lets a device be switched to an
  interchangeable EnOcean Equipment Profile (EEP).

Modules, one per file:

| module | file | models |
|---|---|---|
| `Basics` | basics.dfy | option type, bytes, fixed-width integer conversions, `%d` printing, ASCII lower-casing |
| `ApiValue` | api_value.dfy | `PbufApiValue`: kinds, allocation, getters/setters, objects and arrays |
| `ErrorMap` | error_map.dfy | `pbufToInternalError`, `internalToPbufError` |
| `FieldMapping` | field_mapping.dfy | protobuf-c fields and messages and their conversion to and from API values |
| `Framing` | framing.dfy | the length header, frames, and the reassembly loop of `gotData` |
| `Transmit` | transmit.dfy | the outbound buffer and the close-after-send request |
| `PbufConnection` | connection.dfy | dispatch, request ids, pending answers, requests and responses |
| `EnoceanDevice` | enocean_device.dfy | channels, presence, update flag, profile variants |

Everything is pure: a connection or device is an immutable datatype, and
each operation returns the new state together with what it caused.

Calls into code this model does not see become parameters:

- the protobuf-c library is a `Codec` with `unpack` and `pack` functions;
- the socket is an `Outcome` oracle (bytes accepted, or a write error) and
  a `ReadResult`;
- the API request handler and response callbacks are opaque tokens: dispatch
  returns an `Effect` naming the handler call instead of making it;
- the channel handlers of an EnOcean device contribute only booleans (alive,
  needs an update, contributed data).

## Model

| member | source | states |
|---|---|---|
| ApiValue.NewValue | src/vdc_common/pbufvdcapi.cpp:30-35 | a new value has the requested kind, nothing allocated, and is null exactly for the null kind |
| ApiValue.Clear | src/vdc_common/pbufvdcapi.cpp:38-62 | clearing keeps the declared kind and leaves nothing allocated |
| ApiValue.Uint64Value | src/vdc_common/pbufvdcapi.cpp:192-198 | the stored number when a uint64 is allocated, else 0 |
| ApiValue.Int64Value | src/vdc_common/pbufvdcapi.cpp:202-208 | the stored number when an int64 is allocated, else 0 |
| ApiValue.DoubleValue | src/vdc_common/pbufvdcapi.cpp:211-217 | the stored bits when a double is allocated, else +0.0 |
| ApiValue.BoolValue | src/vdc_common/pbufvdcapi.cpp:220-226 | the stored flag when a bool is allocated, else false |
| ApiValue.CharPointerValue | src/vdc_common/pbufvdcapi.cpp:239-244 | a string exactly when a string is allocated (the stored one), else NULL |
| ApiValue.Allocate | src/vdc_common/pbufvdcapi.cpp:65-83 | storage is materialised only when none exists, and then with the declared kind; existing storage is kept |
| ApiValue.AllocateIf | src/vdc_common/pbufvdcapi.cpp:86-93 | succeeds exactly when the declared kind is the asked one; a refusal leaves the value untouched |
| ApiValue.SetUint64Value | src/vdc_common/pbufvdcapi.cpp:248-253 | a uint64-declared value afterwards reads back the stored number; any other value is unchanged |
| ApiValue.SetInt64Value | src/vdc_common/pbufvdcapi.cpp:256-261 | an int64-declared value afterwards reads back the stored number; any other value is unchanged |
| ApiValue.SetDoubleValue | src/vdc_common/pbufvdcapi.cpp:264-269 | a double-declared value afterwards reads back the stored bits; any other value is unchanged |
| ApiValue.SetBoolValue | src/vdc_common/pbufvdcapi.cpp:272-277 | a bool-declared value afterwards reads back the flag; any other value is unchanged |
| ApiValue.SetStringValue | src/vdc_common/pbufvdcapi.cpp:280-290 | success exactly on a string-declared value, which then yields the string as its character pointer; failure changes nothing |
| ApiValue.SetNull | src/vdc_common/pbufvdcapi.cpp:293-296 | after clearing, every getter returns its fallback (0, false, +0.0, NULL, length 0, no key) |
| ApiValue.SetterIsolation | src/vdc_common/pbufvdcapi.cpp:192-261 | after storing an int64 in any int64-declared value, the getters of every other kind return their fallbacks and the uint64, double, bool and string setters refuse the value |
| ApiValue.Add | src/vdc_common/pbufvdcapi.cpp:97-103 | on an object, the child is found under every spelling of the key that lower-cases equally and no other key changes; a null child or a non-object leaves the value alone |
| ApiValue.Get | src/vdc_common/pbufvdcapi.cpp:106-113 | an entry is found exactly when an object is allocated and holds the lower-cased key, and it is that entry |
| ApiValue.GetIgnoresCase | src/vdc_common/pbufvdcapi.cpp:106-113 | every spelling of a key with the same lower-case form finds the same entry as the lower-cased key |
| ApiValue.Del | src/vdc_common/pbufvdcapi.cpp:117-122 | exactly the given key leaves the object's key set, and lookups of keys whose lower-case form differs are unaffected |
| ApiValue.ArrayLength | src/vdc_common/pbufvdcapi.cpp:125-131 | the element count of an allocated array, and 0 for every other value |
| ApiValue.RetagDiscards | src/vdc_common/pbufvdcapi.cpp:470-472 | re-tagging a value of any other kind to a string and then setting it succeeds, and the value then holds only the string: its character pointer is the string, its array length is 0 and its int64 reading falls back to 0 |
| ApiValue.DelDoesNotLowerCase | src/vdc_common/pbufvdcapi.cpp:97-122 | a key added as "Name" is still there after deleting "Name", because `del` does not lower-case |
| ApiValue.DelLowerCasedRemoves | src/vdc_common/pbufvdcapi.cpp:97-122 | deleting the lower-cased spelling removes what `add` stored |
| ApiValue.ArrayGet | src/vdc_common/pbufvdcapi.cpp:143-151 | an element is returned exactly for an index within the array length |
| ApiValue.ArrayAppend | src/vdc_common/pbufvdcapi.cpp:134-140 | on an array, the length grows by one, the new last element is the child, and earlier elements stay |
| ApiValue.ArrayPut | src/vdc_common/pbufvdcapi.cpp:154-164 | the length never changes, only index i can change, and it becomes the child when in range on an array |
| ErrorMap.PbufToInternalError | src/vdc_common/pbufvdcapi.cpp:845-866 | success maps to 0 and only it; the missing-data codes map to 400; unknown codes map to 500; reversible codes map back to themselves |
| ErrorMap.InternalToPbufError | src/vdc_common/pbufvdcapi.cpp:869-888 | 0 and 200 map to success; codes without a wire counterpart map to the general error; the missing-data codes are never produced |
| ErrorMap.InternalRoundTrip | src/vdc_common/pbufvdcapi.cpp:845-888 | every internal code with a dedicated wire code survives the trip to the wire and back |
| ErrorMap.InternalLossy | src/vdc_common/pbufvdcapi.cpp:845-888 | any other code comes back as 500, except 200, which comes back as 0 |
| ErrorMap.MissingCodesCollapse | src/vdc_common/pbufvdcapi.cpp:845-888 | the two missing-data wire codes become the general error when sent back out |
| FieldMapping.ValueFromField | src/vdc_common/pbufvdcapi.cpp:425-488 | each wire type decodes to its kind (32- and 64-bit integers, bool, float/double, string) holding the datum; BYTES stays null |
| FieldMapping.ValueFromMessageField | src/vdc_common/pbufvdcapi.cpp:300-342 | an absent optional scalar becomes null; a repeated field becomes an array with one element per datum, in order |
| FieldMapping.ElementsToArray | src/vdc_common/pbufvdcapi.cpp:305-313 | appending decoded elements keeps the earlier ones and puts element j at position length+j |
| FieldMapping.ObjectFromMessageFields | src/vdc_common/pbufvdcapi.cpp:387-402 | decoding a message always yields a consistent object-declared value |
| FieldMapping.FieldsToObjectLookup | src/vdc_common/pbufvdcapi.cpp:387-402 | a key of the decoded object holds the value of the last field with that lower-cased name, and other keys keep their previous entry |
| FieldMapping.ObjectHoldsFields | src/vdc_common/pbufvdcapi.cpp:387-402 | with distinct names, each field with a non-null value is found under its own name |
| FieldMapping.PutValueIntoField | src/vdc_common/pbufvdcapi.cpp:491-585 | a datum is written exactly when the value's allocated kind is the one the wire type accepts |
| FieldMapping.PutValueIntoMessageField | src/vdc_common/pbufvdcapi.cpp:346-382 | writing a value never changes the field's name, label or wire type |
| FieldMapping.PutObjectIntoMessageFields | src/vdc_common/pbufvdcapi.cpp:406-421 | the message keeps its descriptor, and fields the object has no key for stay as initialised |
| FieldMapping.DatumRoundTrip | src/vdc_common/pbufvdcapi.cpp:425-585 | a datum of a reversible wire type is written back unchanged after decoding |
| FieldMapping.FieldRoundTrip | src/vdc_common/pbufvdcapi.cpp:300-382 | decoding a field and writing the value into a fresh field restores the field |
| FieldMapping.MessageRoundTrip | src/vdc_common/pbufvdcapi.cpp:387-421 | decoding a message with distinct names and reversible fields and encoding the object again gives the same message |
| FieldMapping.EnumDoesNotRoundTrip | src/vdc_common/pbufvdcapi.cpp:466-469 | in any message with distinct field names, a present optional ENUM field decodes to an int64 value, which the encoder does not accept, so whatever its value it comes back present with 0 |
| FieldMapping.EnumFromUint64WritesZero | src/vdc_common/pbufvdcapi.cpp:557-562 | even a uint64 value, the kind the ENUM branch accepts, is written as 0 |
| Framing.EncodeHeader | src/vdc_common/pbufvdcapi.cpp:776-779 | the header is always 4 bytes |
| Framing.HeaderRoundTrip | src/vdc_common/pbufvdcapi.cpp:731-739 | every length below 2^32 is read back from its header |
| Framing.DecodeHeader | src/vdc_common/pbufvdcapi.cpp:734-738 | the intended reading: the four bytes big-endian as an unsigned number, below 2^31 exactly when the first byte is below 0x80 |
| Framing.HeaderInverse | src/vdc_common/pbufvdcapi.cpp:776-779 | every 4-byte header is the header of the length it encodes |
| Framing.DecodeHeaderAsWritten | src/vdc_common/pbufvdcapi.cpp:734-738 | the header reading as written equals the unsigned reading below 0x80 in the first byte, and exceeds it by 2^64 - 2^32 otherwise |
| Framing.HeaderAsWrittenSignExtends | src/vdc_common/pbufvdcapi.cpp:734-738 | a header announcing 2^31 bytes is read as 2^64 - 2^31 |
| Framing.Frame | src/vdc_common/pbufvdcapi.cpp:773-783 | a frame is the 4-byte header of the body length followed by the body |
| Framing.Reassemble | src/vdc_common/pbufvdcapi.cpp:730-754 | every delivery is non-empty and within the buffer; a pending length always exceeds what is buffered |
| Framing.Receive | src/vdc_common/pbufvdcapi.cpp:725-754 | appending a read and running the loop delivers only non-empty frames within the buffer, leaves less than a pending body, and with nothing read changes nothing while a body is awaited |
| Framing.ReassembleFrames | src/vdc_common/pbufvdcapi.cpp:730-754 | a buffer of complete non-empty frames followed by an incomplete tail delivers exactly those bodies, in order, and keeps the tail |
| Framing.ChunkingIndependent | src/vdc_common/pbufvdcapi.cpp:715-766 | however the transport splits a stream of frames into reads, the same bodies are delivered in the same order |
| Framing.FreshConnectionReceivesAll | src/vdc_common/pbufvdcapi.cpp:715-766 | a new connection reading a framed stream in any chunking delivers every body |
| Framing.TwoFramesDelivered | src/vdc_common/pbufvdcapi.cpp:730-754 | two frames arriving in one read are both delivered, in order |
| Framing.ZeroHeaderStallsNextFrame | src/vdc_common/pbufvdcapi.cpp:731-753 | a zero-length header is consumed and stops the loop, so a complete frame behind it waits for the next read |
| Framing.PassedBufferIncludesNextFrame | src/vdc_common/pbufvdcapi.cpp:742-746 | as written, the first of two frames read together is handed to dispatch with the second frame still attached |
| Transmit.SendMessage | src/vdc_common/pbufvdcapi.cpp:769-812 | on success, the bytes written plus the new buffer are the old buffer plus the frame; a write error drops the frame and changes nothing; nothing is written while bytes wait |
| Transmit.CanSendData | src/vdc_common/pbufvdcapi.cpp:815-839 | the bytes written plus the new buffer are the old buffer; the connection closes only when a requested close meets a buffer this call emptied |
| Transmit.CloseAfterSend | src/vdc_common/pbufvdcapi.cpp:1047-1050 | the close request is recorded and nothing is sent or closed |
| Transmit.RunPreservesOrder | src/vdc_common/pbufvdcapi.cpp:769-839 | over any sequence of sends, writable events and close requests, the bytes written followed by the buffer are the frames of the accepted messages in send order |
| Transmit.DrainedStreamReassembles | src/vdc_common/pbufvdcapi.cpp:715-839 | once drained, a peer reading the written bytes in any chunking receives the accepted messages in send order |
| Transmit.CloseOnDrainedBufferWaits | src/vdc_common/pbufvdcapi.cpp:815-839 | a close requested with an empty buffer is not carried out by the next writable event |
| PbufConnection.NewConnection | src/vdc_common/pbufvdcapi.cpp:703-711 | a new connection has nothing buffered, nothing pending, and the request-id counter at 0 |
| PbufConnection.MethodOf | src/vdc_common/pbufvdcapi.cpp:911-988 | unknown types are named `unknownMethod_` followed by their number; only generic responses have no method name |
| PbufConnection.ResponseTypeOf | src/vdc_common/pbufvdcapi.cpp:911-988 | hello and getProperty are answered with their own response types; setProperty, remove, bye and unknown types with a generic response; notifications with none |
| PbufConnection.ParamsSource | src/vdc_common/pbufvdcapi.cpp:911-988 | bye, unknown types and generic responses have no parameter message; the others use the message's sub-message |
| PbufConnection.ResponseError | src/vdc_common/pbufvdcapi.cpp:975-979 | a generic response carries an error exactly when its result is not OK, with the internal code and the description (empty when absent) |
| PbufConnection.ResponseForId | src/vdc_common/pbufvdcapi.cpp:909-980 | only generic responses answer an id, and the 32-bit `message_id` is read as signed: ids from 2^31 on become negative (id - 2^32) |
| PbufConnection.ProcessMessage | src/vdc_common/pbufvdcapi.cpp:895-1044 | an undecodable body gives error 400; a generic response answering a pending id removes it and delivers its error to that handler; one answering no pending id is dropped; any other message goes to the request handler with its method name, its parameters (empty when it has no parameter message) and a request with the response type when it has an id, leaving no error |
| PbufConnection.ProcessMessageAsWritten | src/vdc_common/pbufvdcapi.cpp:895-1044 | as written, dispatch reaches the null dereference exactly for bye, unknown types, calls and notifications without their sub-message, and generic responses with an id of 2^31 or more; on every other message it agrees with the corrected dispatch |
| PbufConnection.ProcessKeepsPendingBelowCounter | src/vdc_common/pbufvdcapi.cpp:991-1019 | dispatch never registers an id, so every pending id stays one the counter has issued |
| PbufConnection.UnknownMethodNamesDistinct | src/vdc_common/pbufvdcapi.cpp:985-988 | different unknown types get different method names, none equal to a known method |
| PbufConnection.CallParamsAsWritten | src/vdc_common/pbufvdcapi.cpp:1024-1025 | the parameters are read exactly when a parameter message exists (a missing one is a null dereference) |
| PbufConnection.CallParams | src/vdc_common/pbufvdcapi.cpp:1024-1025 | parameters are always an object, empty and unallocated when there is no parameter message, and otherwise the decoded message |
| PbufConnection.ByeAsWrittenDereferencesNull | src/vdc_common/pbufvdcapi.cpp:933-937 | as written, every "bye" reaches the parameter decoding without a parameter message and dispatch fails |
| PbufConnection.ByeIsDispatched | src/vdc_common/pbufvdcapi.cpp:933-937 | corrected, a "bye" with an id is handed to the request handler with empty parameters and a request answered by a generic response |
| PbufConnection.UnknownTypeAsWrittenDereferencesNull | src/vdc_common/pbufvdcapi.cpp:985-988 | as written, every unknown message type reaches the parameter decoding without a parameter message and dispatch fails |
| PbufConnection.AbsentSubMessageAsWrittenDereferencesNull | src/vdc_common/pbufvdcapi.cpp:913-969 | as written, a call or notification whose sub-message was not transmitted reaches the parameter decoding without a parameter message and dispatch fails |
| PbufConnection.LargeResponseIdAsWrittenTakesCallBranch | src/vdc_common/pbufvdcapi.cpp:980-991 | as written, a generic response with an id of 2^31 or more gets a negative `responseForId`, takes the call branch and dispatch fails |
| PbufConnection.MissingParamsAreEmpty | src/vdc_common/pbufvdcapi.cpp:985-988 | corrected, an unknown type or a call without its sub-message is handed over under its method name with empty parameters and no error |
| PbufConnection.LargeResponseIdIsDropped | src/vdc_common/pbufvdcapi.cpp:980-991 | corrected, a generic response with an id of 2^31 or more, which no pending call can have, is dropped and never reaches the request handler |
| PbufConnection.ProcessAll | src/vdc_common/pbufvdcapi.cpp:742-749 | dispatching the bodies of one read never touches the buffers or the counter and only removes pending ids |
| PbufConnection.EffectsInOrder | src/vdc_common/pbufvdcapi.cpp:742-749 | the i-th effect of a read is the dispatch of the i-th body in the state left by the bodies before it |
| PbufConnection.LastErrorWins | src/vdc_common/pbufvdcapi.cpp:744 | when the last body of a read decodes, no error is left, whatever earlier bodies caused |
| PbufConnection.GotData | src/vdc_common/pbufvdcapi.cpp:715-766 | a read error closes the connection; an empty read changes nothing; otherwise the bodies of completed frames are dispatched in order, and the connection closes exactly when the last dispatch leaves an error |
| PbufConnection.GotDataDeliversFrames | src/vdc_common/pbufvdcapi.cpp:715-766 | a fresh receive side fed a whole number of frames dispatches exactly their bodies, in order, is empty afterwards, and closes exactly when the last dispatch leaves an error |
| PbufConnection.GotDataAsWritten | src/vdc_common/pbufvdcapi.cpp:742-749 | as written, each complete frame hands dispatch the whole remaining buffer; buffers and number of dispatches are those of the corrected reading |
| PbufConnection.GotDataAsWrittenPassesNextFrame | src/vdc_common/pbufvdcapi.cpp:744 | with two frames in one read, the written code unpacks the first body with the second frame attached, where the corrected reading unpacks the body alone |
| PbufConnection.EarlierErrorDoesNotClose | src/vdc_common/pbufvdcapi.cpp:742-764 | an undecodable frame followed by a good call in the same read does not close the connection |
| PbufConnection.Emit | src/vdc_common/pbufvdcapi.cpp:769-812 | a packed message is framed onto the transmit side; a write error is reported as a socket error and changes nothing |
| PbufConnection.RequestType | src/vdc_common/pbufvdcapi.cpp:1068-1096 | exactly "pong", "announce", "vanish" and "pushProperty" can be sent |
| PbufConnection.SendRequest | src/vdc_common/pbufvdcapi.cpp:1059-1123 | an unknown method fails with 500 and changes nothing; with a handler, the counter advances and its new value is both the message id and the pending key of the handler; without one, no id is used; the registration is made before sending and survives a write error; the message is framed onto the transmit side, or a write error gives the socket error and writes nothing |
| PbufConnection.RequestIdFresh | src/vdc_common/pbufvdcapi.cpp:1097-1104 | the id given to a new call is not pending, so no earlier handler is overwritten |
| PbufConnection.RequestIdsIncrease | src/vdc_common/pbufvdcapi.cpp:1097-1104 | two successive calls get strictly increasing ids |
| PbufConnection.ResponseDeliveredOnce | src/vdc_common/pbufvdcapi.cpp:999-1018 | the answer to a call reaches that call's handler, removes it, and a repeated answer is dropped |
| PbufConnection.SendError | src/vdc_common/pbufvdcapi.cpp:676-696 | the reply is a generic response carrying the request id at both levels, the mapped wire code, and the message (absent when empty), framed onto the transmit side; a write error is returned as the socket error with nothing written |
| PbufConnection.SendResult | src/vdc_common/pbufvdcapi.cpp:628-673 | a null result is sent as success; a hello or getProperty answer carries the object's fields; any other response type fails with 500 and sends nothing; a sent answer is framed onto the transmit side, and a write error is returned as the socket error with nothing written |
| PbufConnection.GenericCallsCannotReturnResults | src/vdc_common/pbufvdcapi.cpp:613-673 | a non-null result for setProperty, remove, bye or an unknown method cannot be sent |
| PbufConnection.ErrorReplyRoundTrip | src/vdc_common/pbufvdcapi.cpp:676-696 | if the peer's library reads the emitted reply as the generic response it carries, the peer waiting for that id delivers the same internal code and message to the waiting handler |
| PbufConnection.ErrorReplyOverTheWire | src/vdc_common/pbufvdcapi.cpp:676-696 | sent from an idle transmit side without a write error, the bytes the peer reads are one frame whose dispatch delivers the original code and message to the handler waiting for that id |
| EnoceanDevice.AddChannelHandler | src/deviceclasses/enocean/enoceandevice.cpp:185-193 | the new handler is appended with the number of handlers before it, and its behaviour is registered |
| EnoceanDevice.AddChannelHandlersNumbers | src/deviceclasses/enocean/enoceandevice.cpp:185-193 | handlers added one after another are numbered consecutively and keep their behaviours |
| EnoceanDevice.ChannelForBehaviour | src/deviceclasses/enocean/enoceandevice.cpp:198-208 | a handler is found exactly when one has the behaviour, and it is the first such |
| EnoceanDevice.CheckPresence | src/deviceclasses/enocean/enoceandevice.cpp:286-296 | the device is present exactly when every channel is alive (also with no channels) |
| EnoceanDevice.SendOutgoingUpdate | src/deviceclasses/enocean/enoceandevice.cpp:226-245 | only a set flag leads to an attempt, a packet goes out only when a channel contributed, and the flag ends cleared |
| EnoceanDevice.NeedOutgoingUpdate | src/deviceclasses/enocean/enoceandevice.cpp:212-223 | an always-updateable device sends at once and ends with the flag clear; any other keeps the flag set and sends nothing |
| EnoceanDevice.HandleRadioPacket | src/deviceclasses/enocean/enoceandevice.cpp:266-283 | the signal strength and repeater count are recorded; a send is attempted exactly when an update was pending or the device updates at every receive, and the flag ends clear |
| EnoceanDevice.ApplyChannelValues | src/deviceclasses/enocean/enoceandevice.cpp:248-263 | an update is requested exactly when one was pending or some channel needs one; otherwise nothing happens |
| EnoceanDevice.DeferredUpdateSentOnNextPacket | src/deviceclasses/enocean/enoceandevice.cpp:212-283 | an update deferred on a device that is not always updateable is sent when the next telegram arrives |
| EnoceanDevice.SendOutgoingUpdateOnce | src/deviceclasses/enocean/enoceandevice.cpp:226-245 | right after an attempt, a second one does nothing |
| EnoceanDevice.UpToTerminator | src/deviceclasses/enocean/enoceandevice.cpp:330-348 | the usable rows are the prefix before the first row of group 0 |
| EnoceanDevice.FindEep | src/deviceclasses/enocean/enoceandevice.cpp:330-348 | the first row with the EEP is found, and none exists when nothing is found |
| EnoceanDevice.AddVariants | src/deviceclasses/enocean/enoceandevice.cpp:336-343 | every member of the group is added under its EEP key, holding the description of the last row of the group with that key; all other keys are unchanged |
| EnoceanDevice.LastVariantIsLastRow | src/deviceclasses/enocean/enoceandevice.cpp:336-343 | a key gets a description exactly when some row of the group carries it, and that description is from the last such row |
| EnoceanDevice.GetProfileVariants | src/deviceclasses/enocean/enoceandevice.cpp:327-350 | without the current EEP in the table nothing is added and the answer is false; otherwise the first matching row's group is added, each key holding the description of the group's last row with that key, and the answer says whether the group holds another EEP |
| EnoceanDevice.SingletonGroupHasNoVariants | src/deviceclasses/enocean/enoceandevice.cpp:327-350 | a group holding only the current EEP reports no variants, though the object lists the current EEP |
| EnoceanDevice.EepKeysDistinct | src/deviceclasses/enocean/enoceandevice.cpp:340 | different EEPs get different object keys, even above 2^31 where `%d` prints them negative |
| EnoceanDevice.FindInGroup | src/deviceclasses/enocean/enoceandevice.cpp:363-371 | the first row of the group with the requested EEP is found, and none exists when nothing is found |
| EnoceanDevice.SearchSwitch | src/deviceclasses/enocean/enoceandevice.cpp:359-374 | a pair is found exactly when some row with the current EEP shares its group with a row for the requested EEP, and it is the first such row with the first matching row of its group |
| EnoceanDevice.FirstSwitchPairUnique | src/deviceclasses/enocean/enoceandevice.cpp:359-374 | the table determines the pair the nested loops pick: two pairs that are both first are equal |
| EnoceanDevice.SetProfileVariant | src/deviceclasses/enocean/enoceandevice.cpp:353-376 | the current EEP is accepted without change; another is accepted exactly when a row with the current EEP shares its group with a row for it, and the switch is between the first such pair the loops meet |
| EnoceanDevice.UnlistedProfileCannotSwitch | src/deviceclasses/enocean/enoceandevice.cpp:353-376 | a device whose EEP is not in the table cannot switch |
| EnoceanDevice.SwitchTargetsAreOfferedVariants | src/deviceclasses/enocean/enoceandevice.cpp:327-376 | when the current EEP is in one group only, every accepted target is among the variants offered |
| EnoceanDevice.SecondGroupAcceptedButNotOffered | src/deviceclasses/enocean/enoceandevice.cpp:327-376 | with the current EEP in two groups, a target of the second group is accepted although no variant is offered |
| EnoceanDevice.SwitchRange | src/deviceclasses/enocean/enoceandevice.cpp:385-392 | only equal non-zero index counts restrict the range; then it is the aligned block of that size holding this sub-device |

## Left out

- Socket I/O, the main loop, logging and memory management are not modelled. Reads and writes are oracle parameters.
- protobuf-c packing and unpacking are the `Codec` parameter. The generated `.proto` message types are not part of this model, so inbound and outbound messages are datatypes naming only the parts the engine reads.
- The key iteration of `PbufApiValue` (`resetKeyIteration`, `nextKeyValue`, lines 168-188) is not modelled. Objects are maps, and the engine's own code does not use iteration.
- BYTES fields are left out in both directions: decoding one (lines 474-476) and encoding one (lines 569-570) are unfinished stubs in the source, and the model gives them no value. Encoding a sub-message field (lines 571-576) is a stub too, so `FieldMapping.PutValueIntoField` writes nothing into such a field. Decoding a sub-message (lines 477-483) is modelled by the `TMessage` case of `FieldMapping.ValueFromField`.
- Double values are opaque 64-bit patterns. No floating-point arithmetic is done on them.
- ApiValue.SetStringValue: a value of another kind returns false and is left unchanged. The base class `ApiValue` may convert instead, but it is not part of this model.
- ApiValue.ArrayLength: the source returns the size cast to `int`; arrays of 2^31 elements or more, where that cast wraps, are not modelled.
- ApiValue.SetNull: the `ApiValue` base class is not part of this model. Like `setType` (re-tagging drops the payload) and the 32-bit accessors (truncation of the 64-bit ones), clearing follows the behaviour the engine relies on.
- PbufConnection.ProcessMessage: an undecodable body still reaches `vdcapi__message__free_unpacked(decodedMsg, NULL)` at line 1041 with a NULL message; the model assumes that call is harmless, as the protobuf-c library is not part of this model. The generic-response branch casts the whole message to a generic response (line 974). The model reads the generic-response fields, because the as-written meaning depends on the generated struct layout, which is not part of this model. A message without a parameter message, and a generic response with an id of 2^31 or more, follow the corrected reading (see Findings); the written behaviour is `PbufConnection.ProcessMessageAsWritten`.
- PbufConnection.GotData: it dispatches each frame's body and reads the header unsigned, the corrected lines 744 and 734-738 (see Findings). `PbufConnection.GotDataAsWritten` models line 744 as written; the sign-extended header is `Framing.DecodeHeaderAsWritten`.
- EnoceanDevice.ApplyChannelValues: the final call `inherited::applyChannelValues(aDoneCB, aForDimming)` at line 262 is not modelled. That base-class call completes the apply and invokes `aDoneCB`; the base class is not part of this model. `aForDimming` is only passed on to that call, so the model ignores it.
- PbufConnection.SendRequest: `requestIdCounter` is unbounded, so the 2^32 wrap-around of the counter is not modelled.
- PbufConnection.SendError: `sendError` never sets the message type, and the type left by `VDCAPI__MESSAGE__INIT` is not known without the generated code, so it is a distinct `InitializerType`. `PbufConnection.ErrorReplyRoundTrip` therefore assumes the peer reads the reply as a generic response.
- The response callback and the API request handler are not invoked. Dispatch returns an `Effect` that names them.
- Transmit.CanSendData: a write error reported in the middle of a drain is ignored, as written. Whether the socket later reports the error elsewhere is not modelled.
- EnoceanDevice.SendOutgoingUpdate: a channel handler may flag another update while data is collected. Handlers are not modelled, so the flag is always clear afterwards.
- EnoceanDevice.HandleRadioPacket: the per-channel handling of the telegram and `lastPacketTime` (clock) are not modelled.
- EnoceanDevice.SwitchRange: only the range computation of `switchProfiles` is modelled. Unpairing, the `newDevice` factory loop (whose index step each device class decides) and the copying of name and zone are not modelled.
- The rest of `enoceandevice.cpp` is not modelled: the `newDevice` factories, description strings, icons, property descriptors, teach-in and ESP3 telegram building. It is outside the device logic above.
- The JSON API (`jsonvdcapi.cpp`), DALI, UPnP and LED-chain device classes, and channel behaviours are not modelled. They are outside the binary API engine and the EnOcean device.

## Findings

| source | as written | input that shows it | evidently intended | confidence | as-written member | corrected member |
|---|---|---|---|---|---|---|
| src/vdc_common/pbufvdcapi.cpp:734-738 | the header bytes are shifted as signed `int`, so a first byte of 0x80 or more gives a negative sum, which becomes a huge `size_t` | header `80 00 00 00` (a 2^31-byte message) reads as 2^64 - 2^31 bytes, so the frame never completes | an unsigned 32-bit big-endian length | not executed; high that the arithmetic is as stated, assuming `expectedMsgBytes` is a 64-bit `size_t` (its declaration is in the header, which is not part of this model); low practical impact | Framing.HeaderAsWrittenSignExtends | Framing.HeaderRoundTrip |
| src/vdc_common/pbufvdcapi.cpp:744 | `processMessage` receives the whole remaining buffer, not the first `expectedMsgBytes` bytes | two frames in one read: the first body is unpacked with the second frame appended | pass only the message body | not executed; medium (protobuf-c then parses trailing bytes as extra fields or fails) | PbufConnection.GotDataAsWrittenPassesNextFrame | PbufConnection.GotDataDeliversFrames |
| src/vdc_common/pbufvdcapi.cpp:935 | "bye" sets `paramsMsg` to NULL, which line 1025 dereferences | any VDSM_SEND_BYE message | decode an empty parameter object | not executed; high | PbufConnection.ByeAsWrittenDereferencesNull | PbufConnection.ByeIsDispatched |
| src/vdc_common/pbufvdcapi.cpp:985-988 | the default branch names the method but never sets `paramsMsg`, which line 1025 dereferences | any message of a type the switch does not name | decode an empty parameter object | not executed; high | PbufConnection.UnknownTypeAsWrittenDereferencesNull | PbufConnection.MissingParamsAreEmpty |
| src/vdc_common/pbufvdcapi.cpp:913-969 | each branch takes the address of the sub-message's base without checking that the sub-message was transmitted, and line 1025 dereferences it | a VDSM_REQUEST_HELLO message without its `vdsm_request_hello` sub-message | decode an empty parameter object | not executed; medium (a null sub-message gives a null base address on the usual struct layout) | PbufConnection.AbsentSubMessageAsWrittenDereferencesNull | PbufConnection.MissingParamsAreEmpty |
| src/vdc_common/pbufvdcapi.cpp:980 | the unsigned `message_id` is stored in the signed `int32_t responseForId`, so an id of 2^31 or more takes the call branch with `paramsMsg` NULL | a GENERIC_RESPONSE with `message_id` 2^31 | treat every generic response as a response and drop it when no call is pending | not executed; high that the path is as stated, low practical impact (the vDC never issues such ids) | PbufConnection.LargeResponseIdAsWrittenTakesCallBranch | PbufConnection.LargeResponseIdIsDropped |

Design notes:

- `setProfileVariant` tries every row with the current EEP. `getProfileVariants` only reports the group of the first such row. So with an EEP listed in two groups, a target can be accepted that was never offered (`EnoceanDevice.SecondGroupAcceptedButNotOffered`). The tables the device classes ship may never list an EEP twice, so this is not claimed as a defect.
- `closeAfterSend` with an empty buffer does not close until something more is sent and drained (`Transmit.CloseOnDrainedBufferWaits`).
- Only the last dispatch result of one read decides whether the connection closes (`PbufConnection.EarlierErrorDoesNotClose`).
