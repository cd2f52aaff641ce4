/**
  What the ZAP handler promises: the authentication decision per mechanism,
  the checks that end the test whatever the fault mode, the priority of the
  control channel, the request counter, and the shutdown acknowledgement.
 */
module ZapHandlerProperties {
  import opened Wrappers
  import opened ZapProtocol
  import opened ZapHandler

  /**
    A request the handler answers: version "1.0", the expected routing id, a
    supported mechanism followed by exactly its credential frames, and for
    CURVE a key of 32 bytes.
   */
  predicate WellFormedRequest(cfg: Config, frames: seq<Frame>) {
    && |frames| >= 6
    && frames[0] == ZAP_VERSION
    && frames[4] == cfg.expectedRoutingId
    && IsSupportedMechanism(frames[5])
    && |frames| == 6 + CredentialFrames(frames[5])
    && (frames[5] == "CURVE" ==> |frames[6]| == CURVE_KEY_SIZE)
  }

  /**
    The handler replies to a request exactly when it is not told to disconnect
    and the request is well formed; the reply echoes version "1.0" and the
    request's sequence, shaped by the mode and the authentication decision.
   */
  lemma RepliedIff(mode: FaultMode, cfg: Config, incoming: Incoming)
    requires RequestAdmissible(mode, incoming)
    ensures HandleRequest(mode, cfg, incoming).Replied?
            <==> mode != Disconnect && WellFormedRequest(cfg, FramesOf(incoming))
    ensures HandleRequest(mode, cfg, incoming).Replied? ==>
              var frames := FramesOf(incoming);
              && |frames| >= 6 && Admissible(frames)
              && Authenticate(cfg, frames).Success?
              && HandleRequest(mode, cfg, incoming).reply
                 == Reply(mode, ZAP_VERSION, frames[1], Authenticate(cfg, frames).value)
  {
  }

  /** The NULL mechanism accepts every client. */
  lemma NullAlwaysAccepted(mode: FaultMode, cfg: Config, sequence: Frame, domain: Frame, address: Frame)
    requires mode != Disconnect
    ensures HandleRequest(mode, cfg, Request(ZapRequest(ZAP_VERSION, sequence, domain, address,
                                                        cfg.expectedRoutingId, "NULL", [])))
            == Replied(Reply(mode, ZAP_VERSION, sequence, true))
  {
  }

  /** PLAIN accepts exactly the username "testuser" with the password "testpass". */
  lemma PlainAcceptsOnlyTestCredentials(mode: FaultMode, cfg: Config, sequence: Frame, domain: Frame,
                                        address: Frame, username: Frame, password: Frame)
    requires mode != Disconnect
    requires |username| < PLAIN_BUFFER_SIZE && |password| < PLAIN_BUFFER_SIZE
    ensures HandleRequest(mode, cfg, Request(ZapRequest(ZAP_VERSION, sequence, domain, address,
                                                        cfg.expectedRoutingId, "PLAIN", [username, password])))
            == Replied(Reply(mode, ZAP_VERSION, sequence, username == PLAIN_USERNAME && password == PLAIN_PASSWORD))
  {
  }

  /** CURVE accepts exactly the key whose Z85 text is the configured client public key. */
  lemma CurveAcceptsOnlyValidKey(mode: FaultMode, cfg: Config, sequence: Frame, domain: Frame,
                                 address: Frame, key: Frame)
    requires mode != Disconnect
    requires |key| == CURVE_KEY_SIZE
    ensures HandleRequest(mode, cfg, Request(ZapRequest(ZAP_VERSION, sequence, domain, address,
                                                        cfg.expectedRoutingId, "CURVE", [key])))
            == Replied(Reply(mode, ZAP_VERSION, sequence, cfg.z85Encode(key) == cfg.validClientPublic))
  {
  }

  /** A CURVE key frame of any other size than 32 bytes ends the test, before the header is checked. */
  lemma CurveKeySizeFatal(mode: FaultMode, cfg: Config, version: Frame, sequence: Frame, domain: Frame,
                          address: Frame, routingId: Frame, key: Frame)
    requires mode != Disconnect
    requires |key| != CURVE_KEY_SIZE
    ensures HandleRequest(mode, cfg, Request(ZapRequest(version, sequence, domain, address,
                                                        routingId, "CURVE", [key])))
            == Fatal(KeySizeMismatch(|key|))
  {
  }

  /** Any mechanism but NULL, PLAIN and CURVE ends the test. */
  lemma UnsupportedMechanismFatal(mode: FaultMode, cfg: Config, frames: seq<Frame>)
    requires mode != Disconnect
    requires |frames| >= 6 && !IsSupportedMechanism(frames[5])
    ensures HandleRequest(mode, cfg, Request(frames)) == Fatal(UnsupportedMechanism(frames[5]))
  {
  }

  /**
    Whatever the fault mode (except disconnect, which reads only the version),
    a version other than "1.0" or a routing id other than the expected one
    ends the test and no reply frame is sent.
   */
  lemma HeaderChecksFatal(mode: FaultMode, cfg: Config, frames: seq<Frame>)
    requires mode != Disconnect && Admissible(frames)
    requires |frames| >= 1
    requires frames[0] != ZAP_VERSION || (|frames| >= 5 && frames[4] != cfg.expectedRoutingId)
    ensures HandleRequest(mode, cfg, Request(frames)).Fatal?
  {
  }

  /** In disconnect mode the handler leaves the loop on the first request, without a reply. */
  lemma DisconnectLeavesOnRequest(cfg: Config, s: State, incoming: Incoming)
    requires s.phase == Waiting
    ensures Step(Disconnect, cfg, s, Ready(None, Some(incoming)))
            == s.(phase := Stopped)
  {
  }

  /**
    A readable control channel is served before any pending request, and only
    "STOP" is accepted on it: it ends the loop, anything else ends the test.
   */
  lemma ControlTakesPriority(mode: FaultMode, cfg: Config, s: State, message: Frame,
                             p1: Option<Incoming>, p2: Option<Incoming>)
    requires s.phase == Waiting
    ensures Step(mode, cfg, s, Ready(Some(message), p1)) == Step(mode, cfg, s, Ready(Some(message), p2))
    ensures Step(mode, cfg, s, Ready(Some(message), p1)).phase
            == (if message == STOP_COMMAND then Stopped else Failed(UnexpectedControl(message)))
    ensures Step(mode, cfg, s, Ready(Some(message), p1)).replies == s.replies
  {
  }

  /** The poll results under which the handler reads a request. */
  predicate ReadsRequest(mode: FaultMode, ev: PollResult) {
    mode != DoNotRecv && ev.Ready? && ev.control.None? && ev.pending.Some?
  }

  /**
    One cycle adds at most one reply and keeps the earlier ones; the counter
    goes up by one exactly when a request was read and answered, and never
    when the version receive failed or the mode is disconnect.
   */
  lemma StepCounter(mode: FaultMode, cfg: Config, s: State, ev: PollResult)
    requires s.phase == Waiting && PollAdmissible(mode, ev)
    ensures var s' := Step(mode, cfg, s, ev);
            && |s.replies| <= |s'.replies| <= |s.replies| + 1
            && s'.replies[..|s.replies|] == s.replies
            && s'.handled == s.handled + (|s'.replies| - |s.replies|)
            && s'.handled == s.handled + (if ReadsRequest(mode, ev) && HandleRequest(mode, cfg, ev.pending.value).Replied? then 1 else 0)
  {
  }

  /** In DoNotSend the request is still counted, though its reply never ends. */
  lemma DoNotSendStillCounted(cfg: Config, s: State, frames: seq<Frame>)
    requires s.phase == Waiting && Admissible(frames) && WellFormedRequest(cfg, frames)
    ensures var s' := Step(DoNotSend, cfg, s, Ready(None, Some(Request(frames))));
            && s'.phase == Waiting
            && s'.handled == s.handled + 1
            && |s'.replies| == |s.replies| + 1
            && !s'.replies[|s.replies|].complete
  {
    RepliedIff(DoNotSend, cfg, Request(frames));
  }

  /** Running on a + b is running on a and then on b. */
  lemma {:induction false} RunAppend(mode: FaultMode, cfg: Config, s: State, a: seq<PollResult>, b: seq<PollResult>)
    requires AllAdmissible(mode, a + b)
    ensures AllAdmissible(mode, a) && AllAdmissible(mode, b)
    ensures Run(mode, cfg, s, a + b) == Run(mode, cfg, Run(mode, cfg, s, a), b)
    decreases |a|
  {
    assert forall k :: 0 <= k < |a| ==> (a + b)[k] == a[k];
    assert forall k :: 0 <= k < |b| ==> (a + b)[|a| + k] == b[k];
    if a == [] {
      assert a + b == b;
    } else if s.phase == Waiting {
      assert (a + b)[0] == a[0] && (a + b)[1..] == a[1..] + b;
      RunAppend(mode, cfg, Step(mode, cfg, s, a[0]), a[1..], b);
    } else {
      RunStaysDone(mode, cfg, s, b);
    }
  }

  /** Once the loop has stopped or failed, further poll results change nothing. */
  lemma RunStaysDone(mode: FaultMode, cfg: Config, s: State, events: seq<PollResult>)
    requires s.phase != Waiting && AllAdmissible(mode, events)
    ensures Run(mode, cfg, s, events) == s
  {
  }

  /**
    Over any run the replies only grow at the end, and the counter grows by
    exactly the number of replies added: one reply per handled request.
   */
  lemma {:induction false} RunCountsReplies(mode: FaultMode, cfg: Config, s: State, events: seq<PollResult>)
    requires AllAdmissible(mode, events)
    ensures var r := Run(mode, cfg, s, events);
            && |s.replies| <= |r.replies|
            && r.replies[..|s.replies|] == s.replies
            && r.handled == s.handled + (|r.replies| - |s.replies|)
    decreases |events|
  {
    if events != [] && s.phase == Waiting {
      var s' := Step(mode, cfg, s, events[0]);
      StepCounter(mode, cfg, s, events[0]);
      RunCountsReplies(mode, cfg, s', events[1..]);
      var r := Run(mode, cfg, s', events[1..]);
      assert r.replies[..|s.replies|] == r.replies[..|s'.replies|][..|s.replies|];
    }
  }

  /** From the start, the counter equals the number of replies handed to the socket. */
  lemma CounterMatchesReplies(mode: FaultMode, cfg: Config, events: seq<PollResult>)
    requires AllAdmissible(mode, events)
    ensures Run(mode, cfg, Initial(), events).handled == |Run(mode, cfg, Initial(), events).replies|
  {
    RunCountsReplies(mode, cfg, Initial(), events);
  }

  /**
    The control channel gets "STOPPED" once, when the loop has stopped, unless
    the mode is disconnect; it gets nothing otherwise.
   */
  lemma {:induction false} RunControlChannel(mode: FaultMode, cfg: Config, s: State, events: seq<PollResult>)
    requires s.phase == Waiting && AllAdmissible(mode, events)
    ensures var r := Run(mode, cfg, s, events);
            r.controlSent == s.controlSent + (if r.phase == Stopped && mode != Disconnect then [STOPPED_REPLY] else [])
    decreases |events|
  {
    if events != [] {
      var s' := Step(mode, cfg, s, events[0]);
      if s'.phase == Waiting {
        RunControlChannel(mode, cfg, s', events[1..]);
      } else {
        RunStaysDone(mode, cfg, s', events[1..]);
      }
    }
  }

  /**
    In DoNotRecv the request socket is not polled, so a cycle with nothing on
    control leaves the state as it is, whatever request is pending.
   */
  lemma DoNotRecvIgnoresPending(cfg: Config, s: State, pending: Option<Incoming>)
    requires s.phase == Waiting
    ensures Step(DoNotRecv, cfg, s, Ready(None, pending)) == s
  {
  }

  /**
    In DoNotRecv no request is ever read: no reply, no count, the only way
    the test can fail is an unexpected control message, and a run with
    nothing on control and no failed poll changes nothing.
   */
  lemma {:induction false} DoNotRecvReadsNothing(cfg: Config, s: State, events: seq<PollResult>)
    requires AllAdmissible(DoNotRecv, events)
    ensures Run(DoNotRecv, cfg, s, events).replies == s.replies
    ensures Run(DoNotRecv, cfg, s, events).handled == s.handled
    ensures s.phase == Waiting && Run(DoNotRecv, cfg, s, events).phase.Failed? ==>
              Run(DoNotRecv, cfg, s, events).phase.failure.UnexpectedControl?
    ensures (forall k :: 0 <= k < |events| ==> events[k].Ready? && events[k].control.None?) ==>
              Run(DoNotRecv, cfg, s, events) == s
    decreases |events|
  {
    if events != [] && s.phase == Waiting {
      var s' := Step(DoNotRecv, cfg, s, events[0]);
      DoNotRecvReadsNothing(cfg, s', events[1..]);
      if s'.phase != Waiting {
        RunStaysDone(DoNotRecv, cfg, s', events[1..]);
      }
      if forall k :: 0 <= k < |events| ==> events[k].Ready? && events[k].control.None? {
        DoNotRecvIgnoresPending(cfg, s, events[0].pending);
        assert forall k :: 0 <= k < |events[1..]| ==> events[1..][k] == events[k + 1];
      }
    }
  }

  /** In disconnect mode the handler sends no reply, counts nothing and never sends "STOPPED". */
  lemma {:induction false} DisconnectIsSilent(cfg: Config, s: State, events: seq<PollResult>)
    requires AllAdmissible(Disconnect, events)
    ensures Run(Disconnect, cfg, s, events).replies == s.replies
    ensures Run(Disconnect, cfg, s, events).handled == s.handled
    ensures Run(Disconnect, cfg, s, events).controlSent == s.controlSent
    decreases |events|
  {
    if events != [] && s.phase == Waiting {
      DisconnectIsSilent(cfg, Step(Disconnect, cfg, s, events[0]), events[1..]);
    }
  }

  /** A poll result that offers one well-formed request and nothing on control. */
  predicate OffersWellFormedRequest(cfg: Config, ev: PollResult) {
    && ev.Ready? && ev.control.None? && ev.pending.Some? && ev.pending.value.Request?
    && Admissible(ev.pending.value.frames)
    && WellFormedRequest(cfg, ev.pending.value.frames)
  }

  /**
    N well-formed requests in a row are all answered and counted, and the
    handler is still waiting for more.
   */
  lemma {:induction false} WellFormedRequestsAllCounted(mode: FaultMode, cfg: Config, s: State, events: seq<PollResult>)
    requires mode != Disconnect && mode != DoNotRecv && s.phase == Waiting
    requires forall k :: 0 <= k < |events| ==> OffersWellFormedRequest(cfg, events[k])
    ensures AllAdmissible(mode, events)
    ensures Run(mode, cfg, s, events).phase == Waiting
    ensures Run(mode, cfg, s, events).handled == s.handled + |events|
    ensures |Run(mode, cfg, s, events).replies| == |s.replies| + |events|
    decreases |events|
  {
    assert AllAdmissible(mode, events) by {
      forall k | 0 <= k < |events| ensures PollAdmissible(mode, events[k]) {
        assert OffersWellFormedRequest(cfg, events[k]);
      }
    }
    if events != [] {
      RepliedIff(mode, cfg, events[0].pending.value);
      assert forall k :: 0 <= k < |events[1..]| ==> events[1..][k] == events[k + 1];
      WellFormedRequestsAllCounted(mode, cfg, Step(mode, cfg, s, events[0]), events[1..]);
    }
  }

  /**
    Every reply in the list is complete, has six frames, version "1.0" and a
    status code RFC 27 allows. Its request id is only compared with itself
    here; CompliantRepliesEchoRequests compares it with its request's.
   */
  predicate AllConform(replies: seq<ReplyMsg>) {
    forall j :: 0 <= j < |replies| ==> |replies[j].frames| >= 2 && ConformsToZap(replies[j], replies[j].frames[1])
  }

  /** In the compliant modes every reply the handler sends conforms to ZeroMQ RFC 27. */
  lemma {:induction false} CompliantModesOnlySendConformingReplies(mode: FaultMode, cfg: Config, s: State,
                                                                   events: seq<PollResult>)
    requires mode == ZapOk || mode == StatusTemporaryFailure || mode == StatusInternalError
    requires AllAdmissible(mode, events) && AllConform(s.replies)
    ensures AllConform(Run(mode, cfg, s, events).replies)
    decreases |events|
  {
    if events != [] && s.phase == Waiting {
      var ev := events[0];
      var s' := Step(mode, cfg, s, ev);
      if ReadsRequest(mode, ev) {
        var outcome := HandleRequest(mode, cfg, ev.pending.value);
        RepliedIff(mode, cfg, ev.pending.value);
        if outcome.Replied? {
          var frames := FramesOf(ev.pending.value);
          CompliantModesConform(mode, frames[1], Authenticate(cfg, frames).value);
          assert s'.replies == s.replies + [outcome.reply];
        }
      }
      CompliantModesOnlySendConformingReplies(mode, cfg, s', events[1..]);
    }
  }

  /** The request id a cycle answers: the sequence frame of a well-formed request it reads, if any. */
  function AnsweredId(mode: FaultMode, cfg: Config, ev: PollResult): seq<Frame> {
    if ReadsRequest(mode, ev) && mode != Disconnect && WellFormedRequest(cfg, FramesOf(ev.pending.value))
    then [FramesOf(ev.pending.value)[1]] else []
  }

  /**
    The request ids of the requests a run answers, in order: the sequence
    frame of each well-formed request read before the handler stops or fails.
   */
  function AnsweredIds(mode: FaultMode, cfg: Config, s: State, events: seq<PollResult>): seq<Frame>
    requires AllAdmissible(mode, events)
    decreases |events|
  {
    if events == [] || s.phase != Waiting then []
    else AnsweredId(mode, cfg, events[0]) + AnsweredIds(mode, cfg, Step(mode, cfg, s, events[0]), events[1..])
  }

  /** In the compliant modes one cycle adds a reply exactly for the id it answers, conforming for that id. */
  lemma CompliantStepEchoesRequest(mode: FaultMode, cfg: Config, s: State, ev: PollResult)
    requires mode == ZapOk || mode == StatusTemporaryFailure || mode == StatusInternalError
    requires s.phase == Waiting && PollAdmissible(mode, ev)
    ensures var s' := Step(mode, cfg, s, ev);
            && |AnsweredId(mode, cfg, ev)| <= 1
            && |s'.replies| == |s.replies| + |AnsweredId(mode, cfg, ev)|
            && s'.replies[..|s.replies|] == s.replies
            && (AnsweredId(mode, cfg, ev) != [] ==>
                  ConformsToZap(s'.replies[|s.replies|], AnsweredId(mode, cfg, ev)[0]))
  {
    StepCounter(mode, cfg, s, ev);
    if ReadsRequest(mode, ev) {
      RepliedIff(mode, cfg, ev.pending.value);
      var outcome := HandleRequest(mode, cfg, ev.pending.value);
      if outcome.Replied? {
        var frames := FramesOf(ev.pending.value);
        CompliantModesConform(mode, frames[1], Authenticate(cfg, frames).value);
      }
    }
  }

  /** The j-th reply after the prefix conforms for the j-th id. */
  predicate EchoesFrom(replies: seq<ReplyMsg>, start: nat, ids: seq<Frame>) {
    && |replies| == start + |ids|
    && forall j :: 0 <= j < |ids| ==> ConformsToZap(replies[start + j], ids[j])
  }

  /** Echoing is preserved when a list that extends the first one echoes the remaining ids. */
  lemma EchoesCompose(before: seq<ReplyMsg>, middle: seq<ReplyMsg>, after: seq<ReplyMsg>,
                      id: seq<Frame>, ids: seq<Frame>)
    requires |middle| <= |after| && after[..|middle|] == middle
    requires |before| <= |middle| && EchoesFrom(middle, |before|, id)
    requires EchoesFrom(after, |middle|, ids)
    ensures EchoesFrom(after, |before|, id + ids)
  {
    forall j | 0 <= j < |id + ids|
      ensures ConformsToZap(after[|before| + j], (id + ids)[j])
    {
      if j < |id| {
        assert after[|before| + j] == after[..|middle|][|before| + j];
      } else {
        assert after[|before| + j] == after[|middle| + (j - |id|)];
      }
    }
  }

  /**
    In the compliant modes a run sends one reply per answered request, and
    each of them conforms to RFC 27 for that request's id: the j-th new reply
    echoes the sequence frame of the j-th answered request.
   */
  lemma {:induction false} CompliantRepliesEchoRequests(mode: FaultMode, cfg: Config, s: State,
                                                        events: seq<PollResult>)
    requires mode == ZapOk || mode == StatusTemporaryFailure || mode == StatusInternalError
    requires AllAdmissible(mode, events)
    ensures EchoesFrom(Run(mode, cfg, s, events).replies, |s.replies|, AnsweredIds(mode, cfg, s, events))
    decreases |events|
  {
    if events != [] && s.phase == Waiting {
      var s' := Step(mode, cfg, s, events[0]);
      CompliantStepEchoesRequest(mode, cfg, s, events[0]);
      RunCountsReplies(mode, cfg, s', events[1..]);
      CompliantRepliesEchoRequests(mode, cfg, s', events[1..]);
      EchoesCompose(s.replies, s'.replies, Run(mode, cfg, s', events[1..]).replies,
                    AnsweredId(mode, cfg, events[0]), AnsweredIds(mode, cfg, s', events[1..]));
    }
  }
}
