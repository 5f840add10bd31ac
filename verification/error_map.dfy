/** Translation between the engine's HTTP-style internal error codes and the
    binary protocol's result-code enumeration (`pbufToInternalError`,
    `internalToPbufError`). */
module ErrorMap {

  /** The wire result codes. `OtherResult` stands for any enumeration value
      the switch does not name (protobuf-c keeps unknown enum values as integers). */
  datatype ResultCode =
    | RESULT_OK
    | RESULT_MESSAGE_UNKNOWN
    | RESULT_NOT_FOUND
    | RESULT_INCOMPATIBLE_API
    | RESULT_SERVICE_NOT_AVAILABLE
    | RESULT_INSUFFICIENT_STORAGE
    | RESULT_FORBIDDEN
    | RESULT_NOT_AUTHORIZED
    | RESULT_NOT_IMPLEMENTED
    | RESULT_NO_CONTENT_FOR_ARRAY
    | RESULT_INVALID_VALUE_TYPE
    | RESULT_MISSING_SUBMESSAGE
    | RESULT_MISSING_DATA
    | RESULT_GENERAL_ERROR
    | OtherResult(code: int)

  /** The internal codes with a dedicated wire result code (0 is success). */
  predicate HasDedicatedCode(c: int)
  {
    c in {0, 401, 403, 404, 405, 415, 501, 503, 505, 507, 204}
  }

  /** Wire result codes that are the image of exactly one internal code. */
  predicate IsReversible(r: ResultCode)
  {
    !r.RESULT_MISSING_SUBMESSAGE? && !r.RESULT_MISSING_DATA? && !r.RESULT_GENERAL_ERROR? && !r.OtherResult?
  }

  function PbufToInternalError(r: ResultCode): (c: int)
    ensures IsReversible(r) ==> HasDedicatedCode(c) && InternalToPbufError(c) == r
    ensures c == 0 <==> r == RESULT_OK
    ensures r.RESULT_MISSING_SUBMESSAGE? || r.RESULT_MISSING_DATA? ==> c == 400
    ensures r.RESULT_GENERAL_ERROR? || r.OtherResult? ==> c == 500
  {
    match r
    case RESULT_OK => 0
    case RESULT_MESSAGE_UNKNOWN => 405
    case RESULT_NOT_FOUND => 404
    case RESULT_INCOMPATIBLE_API => 505
    case RESULT_SERVICE_NOT_AVAILABLE => 503
    case RESULT_INSUFFICIENT_STORAGE => 507
    case RESULT_FORBIDDEN => 403
    case RESULT_NOT_AUTHORIZED => 401
    case RESULT_NOT_IMPLEMENTED => 501
    case RESULT_NO_CONTENT_FOR_ARRAY => 204
    case RESULT_INVALID_VALUE_TYPE => 415
    case RESULT_MISSING_SUBMESSAGE => 400
    case RESULT_MISSING_DATA => 400
    case _ => 500
  }

  function InternalToPbufError(c: int): (r: ResultCode)
    ensures HasDedicatedCode(c) ==> IsReversible(r)
    ensures !HasDedicatedCode(c) && c != 200 ==> r == RESULT_GENERAL_ERROR
    ensures c == 200 ==> r == RESULT_OK
    ensures r == RESULT_OK <==> c == 0 || c == 200
    ensures !r.OtherResult? && !r.RESULT_MISSING_SUBMESSAGE? && !r.RESULT_MISSING_DATA?
  {
    match c
    case 0 => RESULT_OK
    case 200 => RESULT_OK
    case 405 => RESULT_MESSAGE_UNKNOWN
    case 404 => RESULT_NOT_FOUND
    case 505 => RESULT_INCOMPATIBLE_API
    case 503 => RESULT_SERVICE_NOT_AVAILABLE
    case 507 => RESULT_INSUFFICIENT_STORAGE
    case 403 => RESULT_FORBIDDEN
    case 401 => RESULT_NOT_AUTHORIZED
    case 501 => RESULT_NOT_IMPLEMENTED
    case 204 => RESULT_NO_CONTENT_FOR_ARRAY
    case 415 => RESULT_INVALID_VALUE_TYPE
    case _ => RESULT_GENERAL_ERROR
  }

  /** Internal codes with a dedicated wire code survive the trip to the wire and back. */
  lemma InternalRoundTrip(c: int)
    requires HasDedicatedCode(c)
    ensures PbufToInternalError(InternalToPbufError(c)) == c
  {
  }

  /** Every other internal code comes back as 500, except 200, which comes back as success. */
  lemma InternalLossy(c: int)
    requires !HasDedicatedCode(c)
    ensures PbufToInternalError(InternalToPbufError(c)) == (if c == 200 then 0 else 500)
  {
  }

  /** The two 400-class wire codes collapse onto the general error when sent back out. */
  lemma MissingCodesCollapse(r: ResultCode)
    requires r.RESULT_MISSING_SUBMESSAGE? || r.RESULT_MISSING_DATA?
    ensures InternalToPbufError(PbufToInternalError(r)) == RESULT_GENERAL_ERROR
  {
  }
}
