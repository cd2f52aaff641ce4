# ZAP test handler and monitor drain — a Dafny model

This project models the core of libzmq's security test utilities:

- the **test ZAP handler** (`zap_handler_generic`). It is a small broker for the
  ZeroMQ Authentication Protocol (ZeroMQ RFC 27/ZAP). It receives authentication
  requests that a socket forwards to it and accepts or rejects them by mechanism
  (NULL, PLAIN, CURVE). It replies with status codes, and a fault mode fixed
  for its lifetime can make it misbehave on purpose. Without the sockets, it is
  a sequential state machine. Each cycle reads one poll result: a control
  message, a pending request given as its frames, the peer closing, or the poll
  failing. Its state is the loop phase, the messages sent on the control
  channel, the replies handed to the request socket, and the request counter;
- the **monitor drain check** (`assert_no_more_monitor_events_with_timeout`). It
  reads monitor events until a read times out, skips handshake failures that are
  only transport noise, counts the rest, and passes only if the count is zero.

Files:

- `wrappers.dfy`: `Option` and `Result`.
- `zap_protocol.dfy` (module `ZapProtocol`): the fault modes, the status code
  switch and the reply builder, all pure. Also a predicate stating what ZeroMQ
  RFC 27 requires of a reply (six frames, version "1.0", the request id echoed,
  a status code from 200/300/400/500), and the theorem that says which modes and
  outcomes produce a conforming reply.
- `zap_handler.dfy` (module `ZapHandler`): the request layout, the
  authentication test, one request (`HandleRequest`), one loop cycle (`Step`)
  and the loop (`Run`), all as functions. Beside them is the class `Handler`,
  whose fields the loop updates in place. Its methods receive the header frames in
  order, build the reply frame by frame, bump the counter, and shut down with
  STOPPED. Each method is proved equal to the matching function.
- `zap_handler_properties.dfy` (module `ZapHandlerProperties`): the lemmas
  about the handler.
- `monitor_drain.dfy` (module `MonitorDrain`): the drain loop as a method,
  proved against a filter over the events received before the timeout.

Modelling choices:

- A frame is a `string`, one char per byte.
- The Z85 encoder is given to the handler as a function in its `Config`. So is
  the CURVE client public key, which the tests generate at start-up. The model
  assumes nothing about either.
- A poll result is `Ready(control, pending)` or `PollFailed`. `pending` is a
  `Request(frames)` or `PeerClosed`. A request with no frames acts like a
  closed peer, because the first frame receive fails.
- Running out of poll results leaves the handler in `Waiting`, as it would be
  while blocked in the poll.
- Something that fails the running test is an absorbing `Failed(reason)`
  phase. Such failures are: a control message other than STOP, missing frames,
  a CURVE key that is not 32 bytes, an unknown mechanism, a bad version, a bad
  routing id.
- The checks run in the code's order. The mechanism and its credentials are
  read and judged first; the version and the routing id are checked after. So
  an unknown mechanism is reported even when the version is also wrong.

Two behaviours of the code that are easy to overlook:

- The counter goes up in `zap_do_not_send` too (line 288), although the reply
  is never completed, because the final frame is withheld (line 272). So the
  counter counts every request that was read and answered, completed or not.
- STOPPED is withheld in disconnect mode (lines 293-295), even when the loop
  ends on a STOP command and not on the disconnect itself.

## Model

| member | source | states |
|---|---|---|
| `ZapProtocol.StatusCode` | tests/testutil_security.hpp:251-265 | the success status is "500" in internal-error mode, "300" in temporary-failure mode, "invalid_status" in invalid-status mode and "200" in every other mode; it is never the rejection code "400" |
| `ZapProtocol.Reply` | tests/testutil_security.hpp:244-280 | frame 1 echoes the version except in wrong-version mode ("invalid_version"), frame 2 echoes the sequence except in wrong-request-id mode ("invalid_request_id"), no other mode alters them, and the message is completed unless the mode is do-not-send |
| `ZapProtocol.ReplyConformsIff` | tests/testutil_security.hpp:244-280 | a reply to a version-1.0 request is a conforming RFC 27 reply exactly when the mode is neither wrong-version nor do-not-send, wrong-request-id only when the client's id is the substituted text, and, on acceptance, neither invalid-status nor too-many-parts |
| `ZapProtocol.CompliantModesConform` | tests/testutil_security.hpp:251-273 | the modes the source calls ZAP-compliant (ok, temporary failure, internal error) always produce a conforming reply |
| `ZapProtocol.StatusRevealsDecision` | tests/testutil_security.hpp:251-280 | in every mode the status frame is "400" exactly on rejection; on acceptance it is the mode's status code; the user id is "anonymous" on acceptance and empty on rejection |
| `ZapProtocol.ReplyLength` | tests/testutil_security.hpp:266-280 | a reply has six frames, plus the extra empty frame only on acceptance in too-many-parts mode, minus the final frame in do-not-send mode |
| `ZapProtocol.TrailingFramesEmpty` | tests/testutil_security.hpp:266-280 | every frame after the user id is empty |
| `ZapProtocol.RejectionIgnoresStatusFaults` | tests/testutil_security.hpp:274-280 | on rejection, the status faults and too-many-parts have no effect: modes that agree on the header faults and do-not-send give the same reply |
| `ZapProtocol.RejectionBody` | tests/testutil_security.hpp:274-280 | after the header a rejection is "400", "Invalid client public key", "" and the final "" unless the mode is do-not-send |
| `ZapProtocol.AcceptanceBody` | tests/testutil_security.hpp:251-273 | after the header an acceptance is the status code, "OK", "anonymous", an extra "" only in too-many-parts mode, and the final "" unless the mode is do-not-send |
| `ZapHandler.Initial` | tests/testutil_security.hpp:166-176 | the handler starts waiting, has sent only "GO" on control, no reply, and a zero counter |
| `ZapHandler.ZapRequest` | tests/testutil_security.hpp:195-207 | the request layout: six header frames (version, sequence, domain, address, routing id, mechanism) at positions 0-5, then exactly the credential frames |
| `ZapHandler.Recv` | tests/testutil_security.hpp:195-197 | a frame receive yields the frame at the read position and fails once the message is exhausted |
| `ZapHandler.Authenticate` | tests/testutil_security.hpp:208-239 | authentication yields a decision exactly when the mechanism is NULL, PLAIN or CURVE, its credential frames are all present and a CURVE key is 32 bytes; an unknown mechanism fails the test naming that mechanism |
| `ZapHandler.HandleRequest` | tests/testutil_security.hpp:195-288 | a request leaves the loop exactly when its first receive fails or the mode is disconnect; a reply is only built for a request with all six header frames, version "1.0", the expected routing id and a supported mechanism |
| `ZapHandler.Step` | tests/testutil_security.hpp:187-289 | one cycle sends nothing on control except "STOPPED" when it stops the handler outside disconnect mode, and a cycle that leaves the loop adds no reply and does not move the counter |
| `ZapHandler.Run` | tests/testutil_security.hpp:186-289 | a stopped or failed handler is left as it is, and over any run the counter and the list of replies never shrink |
| `ZapHandler.Finish` | tests/testutil_security.hpp:290-295 | leaving the loop stops the handler, keeps replies and counter, and sends "STOPPED" on control unless the mode is disconnect |
| `ZapHandler.Handler.constructor` | tests/testutil_security.hpp:166-176 | a new handler's state is the initial state, with its mode and configuration fixed |
| `ZapHandler.Handler.Serve` | tests/testutil_security.hpp:186-297 | the loop over poll results, followed by the shutdown sequence, leaves exactly the state the loop function gives |
| `ZapHandler.Handler.PollCycle` | tests/testutil_security.hpp:187-193 | one pass of the loop body matches one step: it breaks on STOP, a failed poll or a request that leaves the loop, and otherwise updates the state as the step does |
| `ZapHandler.Handler.ProcessRequest` | tests/testutil_security.hpp:195-288 | receiving the header frames in order (version, sequence, domain, address, routing id, mechanism; the credential frames are read by the authentication test) breaks exactly when the version receive fails or the mode is disconnect, and otherwise fails the test or adds the reply and bumps the counter, as the request function says |
| `ZapHandler.Handler.SendReply` | tests/testutil_security.hpp:244-280 | sending frame by frame appends exactly the reply that the reply builder describes |
| `ZapHandler.Handler.Shutdown` | tests/testutil_security.hpp:290-296 | after the loop the handler is stopped and has sent "STOPPED" unless the mode is disconnect |
| `ZapHandlerProperties.RepliedIff` | tests/testutil_security.hpp:195-250 | the handler replies exactly when the mode is not disconnect and the request is well formed (version "1.0", expected routing id, a supported mechanism with its credential frames, a 32-byte CURVE key); the reply echoes "1.0" and the sequence |
| `ZapHandlerProperties.NullAlwaysAccepted` | tests/testutil_security.hpp:233-234 | a NULL request with a valid header is always accepted |
| `ZapHandlerProperties.PlainAcceptsOnlyTestCredentials` | tests/testutil_security.hpp:219-232 | a PLAIN request is accepted exactly when the username is "testuser" and the password is "testpass" |
| `ZapHandlerProperties.CurveAcceptsOnlyValidKey` | tests/testutil_security.hpp:209-218 | a CURVE request is accepted exactly when the Z85 text of its 32-byte key equals the configured client public key |
| `ZapHandlerProperties.CurveKeySizeFatal` | tests/testutil_security.hpp:210-212 | a CURVE key frame of any size other than 32 ends the test, whatever the header says |
| `ZapHandlerProperties.UnsupportedMechanismFatal` | tests/testutil_security.hpp:235-239 | any mechanism other than NULL, PLAIN and CURVE ends the test |
| `ZapHandlerProperties.HeaderChecksFatal` | tests/testutil_security.hpp:241-242 | in every mode that reads the request, a version other than "1.0" or an unexpected routing id ends the test and no reply is sent |
| `ZapHandlerProperties.DisconnectLeavesOnRequest` | tests/testutil_security.hpp:198-201 | in disconnect mode the first request ends the loop with no reply, no count and no "STOPPED" |
| `ZapHandlerProperties.ControlTakesPriority` | tests/testutil_security.hpp:188-191 | a readable control channel decides the cycle whatever request is pending: "STOP" stops the loop, anything else fails the test, and no reply is sent |
| `ZapHandlerProperties.StepCounter` | tests/testutil_security.hpp:195-288 | one cycle adds at most one reply and keeps the earlier ones; the counter grows by one exactly when a request is read and answered, and not when the version receive fails or in disconnect mode |
| `ZapHandlerProperties.DoNotSendStillCounted` | tests/testutil_security.hpp:272-288 | in do-not-send mode a well-formed request is counted and its reply is left incomplete |
| `ZapHandlerProperties.RunAppend` | tests/testutil_security.hpp:186-289 | running the loop on two batches of poll results one after the other is running it on their concatenation |
| `ZapHandlerProperties.RunStaysDone` | tests/testutil_security.hpp:186-201 | once the loop has stopped or failed, no further input changes the state |
| `ZapHandlerProperties.RunCountsReplies` | tests/testutil_security.hpp:244-288 | over any run the replies are only appended to, and the counter grows by exactly the number of replies added |
| `ZapHandlerProperties.CounterMatchesReplies` | tests/testutil_security.hpp:288 | from the start, the counter equals the number of replies handed to the socket |
| `ZapHandlerProperties.RunControlChannel` | tests/testutil_security.hpp:290-295 | a run sends "STOPPED" once if it stopped and the mode is not disconnect, and nothing on control otherwise |
| `ZapHandlerProperties.DoNotRecvIgnoresPending` | tests/testutil_security.hpp:183-193 | in do-not-receive mode only the control socket is polled: a cycle with nothing on control leaves the state exactly as it was, whatever request is pending |
| `ZapHandlerProperties.DoNotRecvReadsNothing` | tests/testutil_security.hpp:183-193 | in do-not-receive mode no request is ever read: no reply is sent, the counter never moves, the test can fail only on an unexpected control message, and a run that never sees a control message or a failed poll leaves the state unchanged |
| `ZapHandlerProperties.DisconnectIsSilent` | tests/testutil_security.hpp:198-201 | in disconnect mode no reply is ever sent, nothing is counted and "STOPPED" is never sent |
| `ZapHandlerProperties.WellFormedRequestsAllCounted` | tests/testutil_security.hpp:186-289 | N well-formed requests in a row get N replies and raise the counter by N, and the handler keeps waiting |
| `ZapHandlerProperties.CompliantModesOnlySendConformingReplies` | tests/testutil_security.hpp:244-280 | in the compliant modes every reply of a run is complete and has six frames, version "1.0" and a status code RFC 27 allows |
| `ZapHandlerProperties.CompliantStepEchoesRequest` | tests/testutil_security.hpp:195-288 | in the compliant modes one cycle adds a reply exactly when it reads a well-formed request, keeps the earlier replies, and the new reply conforms to RFC 27 for that request's id |
| `ZapHandlerProperties.CompliantRepliesEchoRequests` | tests/testutil_security.hpp:186-288 | in the compliant modes a run adds one reply per well-formed request it reads, and the j-th new reply is a conforming RFC 27 reply that echoes the id of the j-th such request |
| `MonitorDrain.IsTransportNoise` | tests/testutil_security.hpp:315-317 | an event is skipped exactly when it is a handshake failure without detail whose error is one of EPIPE, ECONNRESET and ECONNABORTED |
| `MonitorDrain.Unexpected` | tests/testutil_security.hpp:315-324 | the counted events are no more than the events received, and none of them is transport noise |
| `MonitorDrain.Received` | tests/testutil_security.hpp:312-314 | the events consumed are the reads before the first one that returned -1, none of them -1 |
| `MonitorDrain.UnexpectedSnoc` | tests/testutil_security.hpp:315-324 | each event read adds itself to the counted events unless it is transport noise |
| `MonitorDrain.UnexpectedMembers` | tests/testutil_security.hpp:315-324 | an event is counted exactly when it was received and is not a no-detail handshake failure with EPIPE, ECONNRESET or ECONNABORTED |
| `MonitorDrain.NoUnexpectedIff` | tests/testutil_security.hpp:315-328 | nothing is counted exactly when every received event is transport noise |
| `MonitorDrain.ReceivedUpTo` | tests/testutil_security.hpp:312-314 | the received events are exactly the reads up to the first timeout |
| `MonitorDrain.Drain` | tests/testutil_security.hpp:308-329 | the loop's count is the number of unexpected events received before the timeout, and the check passes exactly when all of them were transport noise |

## Left out

- The `socket_config_*` functions (tests/testutil_security.hpp:43-139) are left out. They pass test constants or the caller's configuration payload (a server secret key, the client's three CURVE keys) to `zmq_setsockopt`. Their only logic is the null-pointer default for the enforce-domain flag at line 54.
- Keypair generation (`setup_testutil_security_curve`) is left out. The valid client public key is a field of `Config`.
- `zmq_z85_encode` (ZeroMQ RFC 32/Z85) is a foreign call. It is the `z85Encode` function of `Config`, and the model assumes nothing about it.
- Socket creation, bind/connect/unbind, linger, `close_zero_linger` and `free` are I/O and resource plumbing, so they are left out. So is the blocking of `zmq_poll`. A run over a finite list of poll results ends in `Waiting` when the real handler would still be blocked.
- The unbind assertion after the loop (line 290) is not modelled, because it checks the transport.
- The orchestrator side (`setup_context_and_server_side`, `shutdown_context_and_server_side`) is left out. It is thread start/join and the GO/STOP handshake, which is concurrency. Only the handler's half of the exchange is modelled ("GO" at start, "STOPPED" at the end).
- The monitor socket setup and the client helpers (lines 331-350, 421-467) are left out. They are network plumbing over helpers that are not part of this model.
- `zap_handler` (lines 299-302) has no member of its own. It is the handler built with `ZapOk` and `DEFAULT_ROUTING_ID`.
- The request counter is a plain `nat`. Its atomic increment matters only under concurrency.
- `printf`/`fprintf` diagnostics are left out. So is the uninitialised message buffer passed to `TEST_FAIL_MESSAGE`: in the model, an unsupported mechanism simply fails the test.
- Requests are limited by `Admissible`, a precondition of every member that reads a request: `Authenticate`, `HandleRequest`, `Step`, `Run`, the `Handler` methods `Serve`, `PollCycle` and `ProcessRequest`, and the lemmas about them.
  - A request must carry no frame past the credentials of its mechanism. The model leaves out what libzmq's REP socket does with frames the handler never reads.
  - A PLAIN username or password must be shorter than 32 bytes. The source stores the frame in a 32-byte buffer and then writes a terminator at index `size`, which is out of bounds for longer frames.
- `ZapHandler.HandleRequest`: a request of one to five frames is modelled as a test failure (`MissingFrame`). In the source, lines 203-207 go on receiving past the end of the message. Each such receive either waits for the next message or returns NULL, and line 209 then passes that NULL mechanism to `streq`. That is undefined behaviour, not a defined failure.
- `ZapHandlerProperties.WellFormedRequestsAllCounted`: the poll sequence is free input and does not follow the REP socket's alternation of receive and send. After an unfinished do-not-send reply, a real REP socket would not deliver another request, so the lemma's case of several requests in do-not-send mode is not reachable in the source.
- C string semantics are not modelled. `testutil.hpp` (which defines `s_recv`, `s_send`, `s_sendmore`, `streq` and `recv_string_expect_success`) is not part of this model. Frames are compared and echoed whole, so the model does not capture truncation at an embedded NUL byte or at `s_recv`'s buffer size.
- `MonitorDrain`: the event codes are libzmq's monitor constants. EPIPE, ECONNRESET and ECONNABORTED use their Linux values. `get_monitor_event_with_timeout` is not part of this model, so the events it returns are the input sequence, and -1 marks the timeout.
- `MonitorDrain.Drain`: the count is a `nat`, so the C `int` overflow that would need more than 2^31 events is not modelled.
