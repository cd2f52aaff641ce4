/**
  The request-processing logic of the test ZAP handler (zap_handler_generic):
  with the sockets abstracted away, a sequential state machine that reads one
  poll result per cycle, answers authentication requests according to a fixed
  fault mode, counts the requests it handled and ends on a STOP/STOPPED
  exchange over its control channel.
 */
module ZapHandler {
  import opened Wrappers
  import opened ZapProtocol

  const PLAIN_USERNAME: Frame := "testuser"
  const PLAIN_PASSWORD: Frame := "testpass"
  /** The routing id the handler expects unless told otherwise. */
  const DEFAULT_ROUTING_ID: Frame := "IDENT"
  /** Size of the receive buffers for the PLAIN username and password. */
  const PLAIN_BUFFER_SIZE: nat := 32
  /** Size of a CURVE public key in binary form. */
  const CURVE_KEY_SIZE: nat := 32

  const READY_MESSAGE: Frame := "GO"
  const STOP_COMMAND: Frame := "STOP"
  const STOPPED_REPLY: Frame := "STOPPED"

  /**
    What the handler is configured with: the routing id it expects, the Z85
    text of the one client key it accepts (generated at test start-up) and the
    Z85 encoder of the library, which this model takes as given.
   */
  datatype Config = Config(expectedRoutingId: Frame, validClientPublic: string, z85Encode: Frame -> string)

  /** Why the handler fails the running test. */
  datatype TestFailure =
    | UnexpectedControl(message: Frame)
    | MissingFrame(received: nat)
    | MissingCredential
    | KeySizeMismatch(size: nat)
    | UnsupportedMechanism(mechanism: Frame)
    | VersionMismatch(version: Frame)
    | RoutingIdMismatch(routingId: Frame)

  /** What the request socket yields when the handler reads it. */
  datatype Incoming = Request(frames: seq<Frame>) | PeerClosed

  /**
    One return of the poll: it failed, or it reports what is readable on the
    control channel and on the request channel.
   */
  datatype PollResult = PollFailed | Ready(control: Option<Frame>, pending: Option<Incoming>)

  datatype Phase = Waiting | Stopped | Failed(failure: TestFailure)

  /**
    The observable state: the loop phase, the messages sent on the control
    channel, the replies handed to the request socket, and the request counter.
   */
  datatype State = State(phase: Phase, controlSent: seq<Frame>, replies: seq<ReplyMsg>, handled: nat)

  /** The state once the handler has bound its sockets and signalled readiness. */
  function Initial(): (s: State)
    ensures s.phase == Waiting && s.replies == [] && s.handled == 0
    ensures s.controlSent == [READY_MESSAGE]
  {
    State(Waiting, [READY_MESSAGE], [], 0)
  }

  /** The frames of a request laid out as section "Request" of ZeroMQ RFC 27 orders them. */
  function ZapRequest(version: Frame, sequence: Frame, domain: Frame, address: Frame,
                      routingId: Frame, mechanism: Frame, credentials: seq<Frame>): (frames: seq<Frame>)
    ensures |frames| == 6 + |credentials|
    ensures frames[0] == version && frames[1] == sequence && frames[2] == domain && frames[3] == address
    ensures frames[4] == routingId && frames[5] == mechanism
    ensures frames[6..] == credentials
  {
    [version, sequence, domain, address, routingId, mechanism] + credentials
  }

  function FramesOf(incoming: Incoming): seq<Frame> {
    if incoming.Request? then incoming.frames else []
  }

  /** A frame receive: the frame at the read position, or nothing once the message is exhausted. */
  function Recv(frames: seq<Frame>, at: nat): (r: Option<Frame>)
    ensures r.Some? <==> at < |frames|
    ensures r.Some? ==> r.value == frames[at]
  {
    if at < |frames| then Some(frames[at]) else None
  }

  predicate IsSupportedMechanism(mechanism: Frame) {
    mechanism == "CURVE" || mechanism == "PLAIN" || mechanism == "NULL"
  }

  /** The number of credential frames the handler reads after the mechanism name. */
  function CredentialFrames(mechanism: Frame): nat {
    if mechanism == "CURVE" then 1 else if mechanism == "PLAIN" then 2 else 0
  }

  /**
    What a request must satisfy for the handler's reads to be defined: it
    carries no frame past the credentials of its mechanism (the source never
    reads such frames), and a PLAIN username or password fits its 32-byte
    buffer with room for the terminating NUL.
   */
  predicate Admissible(frames: seq<Frame>) {
    && (|frames| >= 6 && IsSupportedMechanism(frames[5]) ==> |frames| <= 6 + CredentialFrames(frames[5]))
    && (|frames| >= 6 && frames[5] == "PLAIN" ==>
          forall k :: 6 <= k < |frames| ==> |frames[k]| < PLAIN_BUFFER_SIZE)
  }

  /** The handler reads nothing but the version when it is to disconnect. */
  predicate RequestAdmissible(mode: FaultMode, incoming: Incoming) {
    mode == Disconnect || Admissible(FramesOf(incoming))
  }

  /** A poll result whose request, if the handler reads it, is admissible. */
  predicate PollAdmissible(mode: FaultMode, ev: PollResult) {
    || mode == DoNotRecv
    || ev.PollFailed?
    || ev.control.Some?
    || ev.pending.None?
    || RequestAdmissible(mode, ev.pending.value)
  }

  predicate AllAdmissible(mode: FaultMode, events: seq<PollResult>) {
    forall k :: 0 <= k < |events| ==> PollAdmissible(mode, events[k])
  }

  /**
    The per-mechanism authentication test on a request that has its six
    header frames: whether the client is accepted, or the failure that ends
    the test (a credential frame missing, a key of the wrong size, an unknown
    mechanism).
   */
  function Authenticate(cfg: Config, frames: seq<Frame>): (r: Result<bool, TestFailure>)
    requires |frames| >= 6 && Admissible(frames)
    ensures r.Success? <==> && IsSupportedMechanism(frames[5])
                            && |frames| == 6 + CredentialFrames(frames[5])
                            && (frames[5] == "CURVE" ==> |frames[6]| == CURVE_KEY_SIZE)
    ensures !IsSupportedMechanism(frames[5]) ==> r == Failure(UnsupportedMechanism(frames[5]))
  {
    var mechanism := frames[5];
    if mechanism == "CURVE" then
      if |frames| < 7 then Failure(MissingCredential)
      else if |frames[6]| != CURVE_KEY_SIZE then Failure(KeySizeMismatch(|frames[6]|))
      else Success(cfg.z85Encode(frames[6]) == cfg.validClientPublic)
    else if mechanism == "PLAIN" then
      if |frames| < 8 then Failure(MissingCredential)
      else Success(frames[6] == PLAIN_USERNAME && frames[7] == PLAIN_PASSWORD)
    else if mechanism == "NULL" then
      Success(true)
    else
      Failure(UnsupportedMechanism(mechanism))
  }

  /** What one request read from the socket leads to. */
  datatype Outcome = Replied(reply: ReplyMsg) | Exited | Fatal(failure: TestFailure)

  /**
    One request: the version receive failing (peer closed) and disconnect mode
    leave the loop; otherwise the request is authenticated, its version and
    routing id are checked, and the reply is built.
   */
  function HandleRequest(mode: FaultMode, cfg: Config, incoming: Incoming): (r: Outcome)
    requires RequestAdmissible(mode, incoming)
    ensures r.Exited? <==> FramesOf(incoming) == [] || mode == Disconnect
    ensures r.Replied? ==> && |FramesOf(incoming)| >= 6
                           && FramesOf(incoming)[0] == ZAP_VERSION
                           && FramesOf(incoming)[4] == cfg.expectedRoutingId
                           && IsSupportedMechanism(FramesOf(incoming)[5])
  {
    var frames := FramesOf(incoming);
    if Recv(frames, 0).None? then Exited
    else if mode == Disconnect then Exited
    else if |frames| < 6 then Fatal(MissingFrame(|frames|))
    else match Authenticate(cfg, frames)
      case Failure(f) => Fatal(f)
      case Success(accepted) =>
        if frames[0] != ZAP_VERSION then Fatal(VersionMismatch(frames[0]))
        else if frames[4] != cfg.expectedRoutingId then Fatal(RoutingIdMismatch(frames[4]))
        else Replied(Reply(mode, frames[0], frames[1], accepted))
  }

  /** Leaving the loop: the handler acknowledges on control, unless it was told to disconnect. */
  function Finish(mode: FaultMode, s: State): (s': State)
    ensures s'.phase == Stopped && s'.replies == s.replies && s'.handled == s.handled
    ensures s'.controlSent == s.controlSent + (if mode == Disconnect then [] else [STOPPED_REPLY])
  {
    s.(phase := Stopped, controlSent := if mode == Disconnect then s.controlSent else s.controlSent + [STOPPED_REPLY])
  }

  /** The effect of a request that does not leave the loop. */
  function Absorb(s: State, outcome: Outcome): State
    requires !outcome.Exited?
  {
    match outcome
    case Replied(r) => s.(replies := s.replies + [r], handled := s.handled + 1)
    case Fatal(f) => s.(phase := Failed(f))
  }

  /** One cycle of the loop on one poll result. */
  function Step(mode: FaultMode, cfg: Config, s: State, ev: PollResult): (s': State)
    requires s.phase == Waiting && PollAdmissible(mode, ev)
    ensures s'.controlSent == s.controlSent + (if s'.phase == Stopped && mode != Disconnect then [STOPPED_REPLY] else [])
    ensures s'.phase != Waiting ==> s'.replies == s.replies && s'.handled == s.handled
  {
    match ev
    case PollFailed => Finish(mode, s)
    case Ready(control, pending) =>
      if control.Some? then
        if control.value == STOP_COMMAND then Finish(mode, s)
        else s.(phase := Failed(UnexpectedControl(control.value)))
      else if mode == DoNotRecv || pending.None? then
        s
      else
        var outcome := HandleRequest(mode, cfg, pending.value);
        if outcome.Exited? then Finish(mode, s) else Absorb(s, outcome)
  }

  /** The loop over a sequence of poll results; once stopped or failed it reads no more. */
  function Run(mode: FaultMode, cfg: Config, s: State, events: seq<PollResult>): (r: State)
    requires AllAdmissible(mode, events)
    ensures s.phase != Waiting ==> r == s
    ensures r.handled >= s.handled && |r.replies| >= |s.replies|
    decreases |events|
  {
    if events == [] || s.phase != Waiting then s
    else Run(mode, cfg, Step(mode, cfg, s, events[0]), events[1..])
  }

  /** The handler as an object whose fields its loop updates in place. */
  class Handler {
    const mode: FaultMode
    const cfg: Config
    var phase: Phase
    var controlSent: seq<Frame>
    var replies: seq<ReplyMsg>
    var handled: nat

    function Snapshot(): State
      reads this
    {
      State(phase, controlSent, replies, handled)
    }

    /** Binds the sockets (not modelled) and sends "GO" on control. */
    constructor (mode: FaultMode, cfg: Config)
      ensures this.mode == mode && this.cfg == cfg
      ensures Snapshot() == Initial()
    {
      this.mode := mode;
      this.cfg := cfg;
      phase := Waiting;
      controlSent := [READY_MESSAGE];
      replies := [];
      handled := 0;
    }

    /** The loop: one cycle per poll result until it breaks, then the shutdown sequence. */
    method Serve(events: seq<PollResult>)
      requires AllAdmissible(mode, events)
      modifies this
      ensures Snapshot() == Run(mode, cfg, old(Snapshot()), events)
    {
      var i := 0;
      var exit := false;
      while i < |events| && !exit && phase == Waiting
        invariant 0 <= i <= |events|
        invariant AllAdmissible(mode, events[i..])
        invariant !exit ==> Run(mode, cfg, old(Snapshot()), events) == Run(mode, cfg, Snapshot(), events[i..])
        invariant exit ==> phase == Waiting && Run(mode, cfg, old(Snapshot()), events) == Finish(mode, Snapshot())
      {
        assert events[i..][0] == events[i] && events[i..][1..] == events[i + 1..];
        exit := PollCycle(events[i]);
        i := i + 1;
      }
      if exit {
        Shutdown();
      }
    }

    /** One pass of the loop body; exit reports a break out of the loop. */
    method PollCycle(ev: PollResult) returns (exit: bool)
      requires phase == Waiting && PollAdmissible(mode, ev)
      modifies this
      ensures exit ==> phase == Waiting && Step(mode, cfg, old(Snapshot()), ev) == Finish(mode, Snapshot())
      ensures !exit ==> Snapshot() == Step(mode, cfg, old(Snapshot()), ev)
    {
      exit := false;
      match ev
      case PollFailed =>
        exit := true;
      case Ready(control, pending) =>
        if control.Some? {
          if control.value == STOP_COMMAND {
            exit := true;
          } else {
            phase := Failed(UnexpectedControl(control.value));
          }
        } else if mode != DoNotRecv && pending.Some? {
          exit := ProcessRequest(pending.value);
        }
    }

    /** Reads one request frame by frame, checks it and replies. */
    method ProcessRequest(incoming: Incoming) returns (exit: bool)
      requires phase == Waiting && RequestAdmissible(mode, incoming)
      modifies this
      ensures exit <==> HandleRequest(mode, cfg, incoming).Exited?
      ensures exit ==> Snapshot() == old(Snapshot())
      ensures !exit ==> Snapshot() == Absorb(old(Snapshot()), HandleRequest(mode, cfg, incoming))
    {
      var frames := FramesOf(incoming);
      var version := Recv(frames, 0);
      if version.None? {
        return true;
      }
      if mode == Disconnect {
        return true;
      }
      var sequence := Recv(frames, 1);
      var domain := Recv(frames, 2);
      var address := Recv(frames, 3);
      var routingId := Recv(frames, 4);
      var mechanism := Recv(frames, 5);
      if mechanism.None? {
        phase := Failed(MissingFrame(|frames|));
        return false;
      }
      var auth := Authenticate(cfg, frames);
      if auth.Failure? {
        phase := Failed(auth.error);
        return false;
      }
      if version.value != ZAP_VERSION {
        phase := Failed(VersionMismatch(version.value));
        return false;
      }
      if routingId.value != cfg.expectedRoutingId {
        phase := Failed(RoutingIdMismatch(routingId.value));
        return false;
      }
      SendReply(version.value, sequence.value, auth.value);
      handled := handled + 1;
      exit := false;
    }

    /** Hands the reply to the socket frame by frame, as the mode shapes it. */
    method SendReply(version: Frame, sequence: Frame, authenticated: bool)
      modifies this`replies
      ensures replies == old(replies) + [Reply(mode, version, sequence, authenticated)]
    {
      var frames: seq<Frame> := [];
      frames := frames + [if mode == WrongVersion then INVALID_VERSION else version];
      frames := frames + [if mode == WrongRequestId then INVALID_REQUEST_ID else sequence];
      assert frames == ReplyHeader(mode, version, sequence);
      if authenticated {
        var statusCode := StatusCode(mode);
        frames := frames + [statusCode];
        frames := frames + ["OK"];
        frames := frames + [ANONYMOUS];
        if mode == TooManyParts {
          frames := frames + [""];
        }
      } else {
        frames := frames + ["400"];
        frames := frames + [REJECTION_TEXT];
        frames := frames + [""];
      }
      assert frames == ReplyHeader(mode, version, sequence) + ReplyBody(mode, authenticated);
      var complete := false;
      if mode != DoNotSend {
        frames := frames + [""];
        complete := true;
      }
      assert frames == ReplyHeader(mode, version, sequence) + ReplyBody(mode, authenticated) + FinalFrame(mode);
      replies := replies + [ReplyMsg(frames, complete)];
    }

    /** After the loop: releases the request socket (not modelled) and acknowledges on control. */
    method Shutdown()
      modifies this
      ensures Snapshot() == Finish(mode, old(Snapshot()))
    {
      phase := Stopped;
      if mode != Disconnect {
        controlSent := controlSent + [STOPPED_REPLY];
      }
    }
  }
}
