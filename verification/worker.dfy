/** One worker thread (`run`): send a Discover for its hardware address,
    then read frames until an offer for that address arrives, resending
    the Discover with the same xid and a growing secs field at 3, 9 and 15
    seconds, and giving up at 21 seconds once all three resends are out.

    The receive timeout and every other read error end the thread with a
    panic, as does a frame too short for an Ethernet header or a payload
    the offer scan runs off the end of; this model reports those as the
    `Crashed` status. The clock is a parameter: each received frame comes
    with the whole seconds elapsed since the first send. */
module Worker {
  import opened Bytes
  import opened Headers
  import Forge
  import Parser

  /** `WAIT_OFFER`: no failure is declared before this many seconds. */
  const WaitOffer: nat := 21

  /** `WAIT_RETRY_1`, `WAIT_RETRY_2`, `WAIT_RETRY_3`: resend k + 1 is due
      once RetryWait[k] seconds have elapsed. */
  const RetryWait: seq<nat> := [3, 9, 15]

  /** The secs field of the initial Discover and of the three resends. */
  const SecsSchedule: seq<uint16> := [0, 3, 6, 12]

  const MaxRetries: nat := 3

  /** What the receive call hands back: a frame with the time at which the
      retry rule reads the clock, or an error (timeout or otherwise). */
  datatype Poll = Received(frame: seq<uint8>, elapsed: nat) | ReadError

  datatype Status = Running | Succeeded | Failed | Crashed

  /** A worker: its hardware address and xid, the resends done so far, and
      every frame it has put on the wire, in order. */
  datatype Worker = Worker(mac: MacAddr, xid: uint32, retry: nat, status: Status, sent: seq<seq<uint8>>)

  /** The frames a worker has sent are exactly the initial Discover and the
      first `retry` resends, all with its address and xid; a failed worker
      has used every resend. */
  predicate Valid(w: Worker)
  {
    && w.retry <= MaxRetries
    && (w.status == Failed ==> w.retry == MaxRetries)
    && w.sent == Discovers(w.mac, w.xid)[..w.retry + 1]
  }

  /** The four Discovers of a worker, in sending order. */
  function Discovers(mac: MacAddr, xid: uint32): (s: seq<seq<uint8>>)
    ensures |s| == |SecsSchedule|
  {
    seq(|SecsSchedule|, i requires 0 <= i < |SecsSchedule| => Forge.ForgeDiscover(mac, xid, SecsSchedule[i]))
  }

  /** The thread's start: the Discover with secs 0 is sent, retry is 0. */
  function Start(mac: MacAddr, xid: uint32): (w: Worker)
    ensures Valid(w) && w.status == Running
    ensures w.mac == mac && w.xid == xid
    ensures w.retry == 0 && w.sent == [Forge.ForgeDiscover(mac, xid, 0)]
  {
    Worker(mac, xid, 0, Running, [Forge.ForgeDiscover(mac, xid, 0)])
  }

  /** The three checks on a received frame. The Ethernet view panics on a
      frame shorter than its header, and the offer scan runs on the payload
      whatever the destination and EtherType, so its panic ends the thread
      even for a frame addressed elsewhere. */
  function ClassifyFrame(frame: seq<uint8>, mac: MacAddr): (v: Parser.Verdict)
    ensures v == Parser.Offer <==>
              && |frame| >= EthHeaderLen
              && EthDestination(frame) == mac
              && EthType(frame) == EtherTypeIpv4
              && Parser.IsDhcpOffer(EthPayload(frame)) == Parser.Offer
    ensures v == Parser.Panic <==>
              |frame| < EthHeaderLen || Parser.IsDhcpOffer(EthPayload(frame)) == Parser.Panic
  {
    if |frame| < EthHeaderLen then Parser.Panic
    else
      var checkMac := EthDestination(frame) == mac;
      var checkType := EthType(frame) == EtherTypeIpv4;
      var checkPayload := Parser.IsDhcpOffer(EthPayload(frame));
      if checkPayload == Parser.Panic then Parser.Panic
      else if checkMac && checkType && checkPayload == Parser.Offer then Parser.Offer
      else Parser.NotOffer
  }

  /** The retry rule after a frame that was not the offer: give up when all
      resends are out and 21 seconds have passed, otherwise send resend
      retry + 1 once its wait has elapsed. */
  function RetryRule(w: Worker, elapsed: nat): (r: Worker)
    requires Valid(w) && w.status == Running
    ensures Valid(r) && r.mac == w.mac && r.xid == w.xid
    ensures r.status == Failed <==> w.retry == MaxRetries && elapsed >= WaitOffer
    ensures r.status != Failed ==> r.status == Running
    ensures r.retry == w.retry || (r.retry == w.retry + 1 && elapsed >= RetryWait[w.retry])
    ensures w.retry < MaxRetries && elapsed >= RetryWait[w.retry] ==> r.retry == w.retry + 1
    ensures w.sent <= r.sent
  {
    if elapsed >= WaitOffer && w.retry == 3 then
      w.(status := Failed)
    else if elapsed >= RetryWait[2] && w.retry == 2 then
      Resend(w)
    else if elapsed >= RetryWait[1] && w.retry == 1 then
      Resend(w)
    else if elapsed >= RetryWait[0] && w.retry == 0 then
      Resend(w)
    else w
  }

  /** Forge the next Discover (same xid, the next secs) and send it. */
  function Resend(w: Worker): (r: Worker)
    requires Valid(w) && w.retry < MaxRetries
    ensures Valid(r) && r.status == w.status && r.mac == w.mac && r.xid == w.xid
    ensures r.retry == w.retry + 1
    ensures r.sent == w.sent + [Forge.ForgeDiscover(w.mac, w.xid, SecsSchedule[w.retry + 1])]
  {
    var all := Discovers(w.mac, w.xid);
    PrefixGrows(all, w.retry + 1);
    Worker(w.mac, w.xid, w.retry + 1, w.status, w.sent + [all[w.retry + 1]])
  }

  lemma PrefixGrows<T>(s: seq<T>, n: nat)
    requires n < |s|
    ensures s[..n + 1] == s[..n] + [s[n]]
  {
  }

  /** One turn of the `loop`: receive, check, then the retry rule. */
  function Step(w: Worker, poll: Poll): (r: Worker)
    requires Valid(w) && w.status == Running
    ensures Valid(r) && r.mac == w.mac && r.xid == w.xid && w.sent <= r.sent
    ensures r.status == Succeeded <==> poll.Received? && ClassifyFrame(poll.frame, w.mac) == Parser.Offer
    ensures r.status == Crashed <==> poll.ReadError? || ClassifyFrame(poll.frame, w.mac) == Parser.Panic
    ensures r.status == Failed ==> w.retry == MaxRetries && poll.elapsed >= WaitOffer
    ensures r.retry != w.retry ==> r.status == Running && r.retry == w.retry + 1 && poll.elapsed >= RetryWait[w.retry]
    ensures poll.Received? && ClassifyFrame(poll.frame, w.mac) == Parser.NotOffer ==>
              && (r.status == Failed <==> w.retry == MaxRetries && poll.elapsed >= WaitOffer)
              && (w.retry < MaxRetries && poll.elapsed >= RetryWait[w.retry] ==> r.retry == w.retry + 1)
  {
    match poll
    case ReadError => w.(status := Crashed)
    case Received(frame, elapsed) =>
      match ClassifyFrame(frame, w.mac)
      case Panic => w.(status := Crashed)
      case Offer => w.(status := Succeeded)
      case NotOffer => RetryRule(w, elapsed)
  }

  /** The loop over a sequence of polls, until the worker stops or the
      polls run out. */
  function Run(w: Worker, polls: seq<Poll>): (r: Worker)
    requires Valid(w)
    ensures Valid(r) && r.mac == w.mac && r.xid == w.xid
    ensures w.sent <= r.sent
    ensures w.status != Running ==> r == w
    decreases |polls|
  {
    if w.status != Running || |polls| == 0 then w
    else Run(Step(w, polls[0]), polls[1..])
  }

  /** The whole thread over a sequence of polls. */
  function Lifecycle(mac: MacAddr, xid: uint32, polls: seq<Poll>): (r: Worker)
    ensures Valid(r) && r.mac == mac && r.xid == xid
    ensures r.sent[0] == Forge.ForgeDiscover(mac, xid, 0)
    ensures r.status == Failed ==> |r.sent| == |SecsSchedule|
  {
    Run(Start(mac, xid), polls)
  }

  // ------------------------------------------------------------ properties

  /** A worker sends at most four frames, and each one is a Discover for its
      own address with its one xid and the secs of its place in the
      schedule 0, 3, 6, 12. */
  lemma SentFramesShareXid(mac: MacAddr, xid: uint32, polls: seq<Poll>)
    ensures var r := Lifecycle(mac, xid, polls);
            && 1 <= |r.sent| <= 4
            && forall i :: 0 <= i < |r.sent| ==> Forge.IsDiscoverFor(r.sent[i], mac, xid, SecsSchedule[i])
  {
  }

  /** A worker only fails after sending all four Discovers. */
  lemma FailureMeansAllResendsSent(mac: MacAddr, xid: uint32, polls: seq<Poll>)
    ensures var r := Lifecycle(mac, xid, polls);
            r.status == Failed ==> |r.sent| == 4
  {
  }

  /** An offer for the worker's address ends it with success whatever the
      clock and the resends so far: the check comes before the retry rule. */
  lemma OfferTakesPrecedence(w: Worker, frame: seq<uint8>, elapsed: nat)
    requires Valid(w) && w.status == Running
    requires ClassifyFrame(frame, w.mac) == Parser.Offer
    ensures Step(w, Received(frame, elapsed)).status == Succeeded
    ensures Step(w, Received(frame, elapsed)).sent == w.sent
  {
  }

  /** A failure is only declared on a poll at or past 21 seconds. */
  lemma {:induction false} FailureOnlyAfterWaitOffer(w: Worker, polls: seq<Poll>)
    requires Valid(w) && w.status == Running
    ensures Run(w, polls).status == Failed ==>
              exists k :: 0 <= k < |polls| && polls[k].Received? && polls[k].elapsed >= WaitOffer
    decreases |polls|
  {
    if |polls| > 0 {
      var next := Step(w, polls[0]);
      if next.status == Running {
        FailureOnlyAfterWaitOffer(next, polls[1..]);
        if Run(w, polls).status == Failed {
          var k :| 0 <= k < |polls[1..]| && polls[1..][k].Received? && polls[1..][k].elapsed >= WaitOffer;
          assert polls[k + 1] == polls[1..][k];
        }
      }
    }
  }

  /** A frame at 21 seconds or later that is neither an offer for `mac` nor
      one that crashes the worker. */
  predicate LateNonOffer(poll: Poll, mac: MacAddr)
  {
    poll.Received? && poll.elapsed >= WaitOffer && ClassifyFrame(poll.frame, mac) == Parser.NotOffer
  }

  /** A quiet network (frames that are not offers and do not crash the
      worker, all at 21 seconds or later) ends a worker with `retry` resends
      done in a failure after exactly 4 - retry polls, with all four
      Discovers sent. */
  lemma {:induction false} QuietNetworkFails(w: Worker, polls: seq<Poll>)
    requires Valid(w) && w.status == Running
    requires |polls| >= 4 - w.retry
    requires forall k :: 0 <= k < |polls| ==> LateNonOffer(polls[k], w.mac)
    ensures Run(w, polls).status == Failed
    ensures |Run(w, polls).sent| == 4
    decreases 4 - w.retry
  {
    QuietStep(w, polls[0]);
    if w.retry < MaxRetries {
      LateNonOfferTail(polls, w.mac);
      QuietNetworkFails(Step(w, polls[0]), polls[1..]);
    }
  }

  lemma LateNonOfferTail(polls: seq<Poll>, mac: MacAddr)
    requires |polls| > 0 && forall k :: 0 <= k < |polls| ==> LateNonOffer(polls[k], mac)
    ensures forall k :: 0 <= k < |polls[1..]| ==> LateNonOffer(polls[1..][k], mac)
  {
    forall k | 0 <= k < |polls[1..]|
      ensures LateNonOffer(polls[1..][k], mac)
    {
      assert polls[1..][k] == polls[k + 1];
    }
  }

  /** The other half: fewer than 4 - retry such polls leave the worker
      running, so the failure comes exactly on poll 4 - retry. */
  lemma {:induction false} QuietNetworkKeepsRunning(w: Worker, polls: seq<Poll>)
    requires Valid(w) && w.status == Running
    requires |polls| < 4 - w.retry
    requires forall k :: 0 <= k < |polls| ==> LateNonOffer(polls[k], w.mac)
    ensures Run(w, polls).status == Running
    decreases |polls|
  {
    if |polls| > 0 {
      QuietStep(w, polls[0]);
      LateNonOfferTail(polls, w.mac);
      QuietNetworkKeepsRunning(Step(w, polls[0]), polls[1..]);
    }
  }

  /** One late non-offer: a resend while resends remain, otherwise failure
      with all four Discovers sent. */
  lemma QuietStep(w: Worker, poll: Poll)
    requires Valid(w) && w.status == Running && LateNonOffer(poll, w.mac)
    ensures var r := Step(w, poll);
            && Valid(r) && r.mac == w.mac
            && (w.retry < MaxRetries ==> r.status == Running && r.retry == w.retry + 1)
            && (w.retry == MaxRetries ==> r.status == Failed && |r.sent| == 4)
  {
  }

  /** Before 3 seconds nothing is resent and nothing fails: a worker fed
      only early non-offers is still running with its first Discover. */
  lemma {:induction false} NoResendBeforeFirstWait(w: Worker, polls: seq<Poll>)
    requires Valid(w) && w.status == Running && w.retry == 0
    requires forall k :: 0 <= k < |polls| ==>
               polls[k].Received? && polls[k].elapsed < RetryWait[0]
               && ClassifyFrame(polls[k].frame, w.mac) == Parser.NotOffer
    ensures Run(w, polls) == w
    decreases |polls|
  {
    if |polls| > 0 {
      assert Step(w, polls[0]) == w;
      NoResendBeforeFirstWait(w, polls[1..]);
    }
  }

  /** The worker's own Discover, looped back to it, is not an offer. */
  lemma OwnDiscoverIsNotOffer(mac: MacAddr, xid: uint32, secs: uint16)
    ensures ClassifyFrame(Forge.ForgeDiscover(mac, xid, secs), mac) == Parser.NotOffer
  {
    Parser.ForgedFrameIsNotOffer(mac, xid, secs);
  }

  /** A frame addressed to another host still goes through the offer scan:
      a truncated option in it ends the thread. */
  lemma ForeignFrameCanCrash(w: Worker, other: MacAddr, cookie: seq<uint8>, elapsed: nat)
    requires Valid(w) && w.status == Running && other != w.mac
    requires |cookie| == Parser.CookieLen
    ensures var frame := other + w.mac + BE16(EtherTypeIpv4) + Parser.ReplyPacket(cookie, [53, 9, 2]);
            Step(w, Received(frame, elapsed)).status == Crashed
  {
    var frame := other + w.mac + BE16(EtherTypeIpv4) + Parser.ReplyPacket(cookie, [53, 9, 2]);
    assert EthPayload(frame) == Parser.ReplyPacket(cookie, [53, 9, 2]);
    Parser.PanicExample(cookie);
  }
}
