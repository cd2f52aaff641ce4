/**
  The frames of the ZeroMQ Authentication Protocol (ZeroMQ RFC 27/ZAP) as the
  test ZAP handler builds its replies, and the fault modes that make it
  deviate from the protocol on purpose.
 */
module ZapProtocol {

  /** One message frame. Frames are byte strings; each char stands for one byte. */
  type Frame = string

  /** The protocol version a request must carry and a conforming reply echoes. */
  const ZAP_VERSION: Frame := "1.0"

  const INVALID_VERSION: Frame := "invalid_version"
  const INVALID_REQUEST_ID: Frame := "invalid_request_id"
  const INVALID_STATUS: Frame := "invalid_status"
  const REJECTION_TEXT: Frame := "Invalid client public key"
  const ANONYMOUS: Frame := "anonymous"

  /** How the handler misbehaves, fixed for its whole lifetime (zap_protocol_t). */
  datatype FaultMode =
    | ZapOk
      // ZAP-compliant non-standard cases
    | StatusTemporaryFailure
    | StatusInternalError
      // ZAP protocol errors
    | WrongVersion
    | WrongRequestId
    | StatusInvalid
    | TooManyParts
    | Disconnect
    | DoNotRecv
    | DoNotSend

  /**
    A reply as handed to the socket: its frames in order, and whether the last
    of them closed the message (sent without the "more" flag). When complete is
    false every frame went out with the "more" flag and the message never ends.
   */
  datatype ReplyMsg = ReplyMsg(frames: seq<Frame>, complete: bool)

  /** The status code sent when authentication succeeded. */
  function StatusCode(mode: FaultMode): (code: Frame)
    ensures code == "200" <==> mode != StatusInternalError && mode != StatusTemporaryFailure && mode != StatusInvalid
    ensures mode == StatusInternalError ==> code == "500"
    ensures mode == StatusTemporaryFailure ==> code == "300"
    ensures mode == StatusInvalid ==> code == INVALID_STATUS
    ensures code != "400"
  {
    match mode
    case StatusInternalError => "500"
    case StatusTemporaryFailure => "300"
    case StatusInvalid => INVALID_STATUS
    case _ => "200"
  }

  /**
    The reply to a request whose version and sequence frames were given, after
    authentication succeeded or failed.
   */
  function Reply(mode: FaultMode, version: Frame, sequence: Frame, authenticated: bool): (r: ReplyMsg)
    ensures |r.frames| >= 5
    ensures mode == WrongVersion ==> r.frames[0] == INVALID_VERSION
    ensures mode != WrongVersion ==> r.frames[0] == version
    ensures mode == WrongRequestId ==> r.frames[1] == INVALID_REQUEST_ID
    ensures mode != WrongRequestId ==> r.frames[1] == sequence
    ensures r.complete <==> mode != DoNotSend
  {
    ReplyMsg(ReplyHeader(mode, version, sequence) + ReplyBody(mode, authenticated) + FinalFrame(mode),
             mode != DoNotSend)
  }

  /** The version and sequence frames, as the header faults substitute them. */
  function ReplyHeader(mode: FaultMode, version: Frame, sequence: Frame): seq<Frame> {
    [if mode == WrongVersion then INVALID_VERSION else version,
     if mode == WrongRequestId then INVALID_REQUEST_ID else sequence]
  }

  /** Status code, status text, user id and the frames before the final one. */
  function ReplyBody(mode: FaultMode, authenticated: bool): seq<Frame> {
    if authenticated then
      [StatusCode(mode), "OK", ANONYMOUS] + (if mode == TooManyParts then [""] else [])
    else
      ["400", REJECTION_TEXT, ""]
  }

  /** The final, message-closing frame; withheld in DoNotSend. */
  function FinalFrame(mode: FaultMode): seq<Frame> {
    if mode == DoNotSend then [] else [""]
  }

  /** The four status codes section "Reply" of ZeroMQ RFC 27 allows. */
  predicate IsZapStatusCode(code: Frame) {
    code == "200" || code == "300" || code == "400" || code == "500"
  }

  /**
    A reply a ZAP client accepts as well-formed for the request with the given
    sequence: one complete message of exactly six frames (version, request id,
    status code, status text, user id, metadata), version "1.0", the request id
    echoed and a status code from the allowed set.
   */
  predicate ConformsToZap(r: ReplyMsg, sequence: Frame) {
    && r.complete
    && |r.frames| == 6
    && r.frames[0] == ZAP_VERSION
    && r.frames[1] == sequence
    && IsZapStatusCode(r.frames[2])
  }

  /**
    The modes under which a reply conforms: the compliant modes always, the
    status and extra-frame faults only in the rejection branch they do not
    touch, wrong-request-id only when the client's id happens to be the
    substituted text.
   */
  predicate ReplyIsCompliant(mode: FaultMode, sequence: Frame, authenticated: bool) {
    && mode != WrongVersion
    && mode != DoNotSend
    && (mode == WrongRequestId ==> sequence == INVALID_REQUEST_ID)
    && (authenticated ==> mode != StatusInvalid && mode != TooManyParts)
  }

  /** A reply to a version-1.0 request conforms to RFC 27 exactly when the mode is compliant for it. */
  lemma ReplyConformsIff(mode: FaultMode, sequence: Frame, authenticated: bool)
    ensures ConformsToZap(Reply(mode, ZAP_VERSION, sequence, authenticated), sequence)
            <==> ReplyIsCompliant(mode, sequence, authenticated)
  {
  }

  /** The compliant modes: ZapOk and the two non-standard status codes never break the protocol. */
  lemma CompliantModesConform(mode: FaultMode, sequence: Frame, authenticated: bool)
    requires mode == ZapOk || mode == StatusTemporaryFailure || mode == StatusInternalError
    ensures ConformsToZap(Reply(mode, ZAP_VERSION, sequence, authenticated), sequence)
  {
    ReplyConformsIff(mode, sequence, authenticated);
  }

  /** The status code tells rejection from acceptance in every mode. */
  lemma StatusRevealsDecision(mode: FaultMode, version: Frame, sequence: Frame, authenticated: bool)
    ensures Reply(mode, version, sequence, authenticated).frames[2] == "400" <==> !authenticated
    ensures authenticated ==> Reply(mode, version, sequence, authenticated).frames[2] == StatusCode(mode)
    ensures Reply(mode, version, sequence, authenticated).frames[4] == (if authenticated then ANONYMOUS else "")
  {
  }

  /**
    The number of frames: six, one more for the extra empty frame that only
    an accepted request gets in TooManyParts, one less when the final frame is
    withheld in DoNotSend.
   */
  lemma ReplyLength(mode: FaultMode, version: Frame, sequence: Frame, authenticated: bool)
    ensures |Reply(mode, version, sequence, authenticated).frames|
            == 6 + (if authenticated && mode == TooManyParts then 1 else 0) - (if mode == DoNotSend then 1 else 0)
  {
  }

  /** The metadata frames that follow the user id are all empty. */
  lemma TrailingFramesEmpty(mode: FaultMode, version: Frame, sequence: Frame, authenticated: bool, k: nat)
    requires 5 <= k < |Reply(mode, version, sequence, authenticated).frames|
    ensures Reply(mode, version, sequence, authenticated).frames[k] == ""
  {
  }

  /**
    On rejection the status faults and the extra frame have no effect: two modes
    that agree on the header faults and on DoNotSend give the same reply.
   */
  lemma RejectionIgnoresStatusFaults(m1: FaultMode, m2: FaultMode, version: Frame, sequence: Frame)
    requires (m1 == WrongVersion) == (m2 == WrongVersion)
    requires (m1 == WrongRequestId) == (m2 == WrongRequestId)
    requires (m1 == DoNotSend) == (m2 == DoNotSend)
    ensures Reply(m1, version, sequence, false) == Reply(m2, version, sequence, false)
  {
  }

  /** The rejection reply after its two header frames. */
  lemma RejectionBody(mode: FaultMode, version: Frame, sequence: Frame)
    ensures Reply(mode, version, sequence, false).frames[2..]
            == ["400", REJECTION_TEXT, ""] + (if mode == DoNotSend then [] else [""])
  {
  }

  /** The acceptance reply after its two header frames. */
  lemma AcceptanceBody(mode: FaultMode, version: Frame, sequence: Frame)
    ensures Reply(mode, version, sequence, true).frames[2..]
            == [StatusCode(mode), "OK", ANONYMOUS]
               + (if mode == TooManyParts then [""] else [])
               + (if mode == DoNotSend then [] else [""])
  {
  }
}
