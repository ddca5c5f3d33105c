/**
 * The per-node decision logic of the permission-based mutual-exclusion
 * protocol (Ricart and Agrawala, CACM 1981) as one node runs it: the node's
 * state, what each handler does to it and which messages it sends, written
 * as pure step functions. Each send is recorded as a `Sent` value; a send
 * that fails is ignored by the node, so it changes nothing else.
 */
module Protocol {
  import opened Wrappers
  import opened Wire

  /** The node identifiers of the cluster, in the order the broadcast visits them. */
  const NodeIds: seq<nat> := [1, 2, 3, 4]

  /** Grants a requester waits for before entering: one per other node of the cluster. */
  const NumPeers: nat := |NodeIds| - 1

  /** A requester this node has deferred, with the timestamp of its request. */
  datatype Deferral = Deferral(requester: nat, ts: nat)

  /** A message handed to the network, addressed to node `to`. */
  datatype Sent = Sent(to: nat, msg: Msg)

  datatype NodeState = NodeState(
    inCriticalSection: bool,   // set on entry; nothing in the node ever clears it
    deferred: seq<Deferral>,   // FIFO order of arrival
    grantsReceived: nat,
    ownRequest: Option<nat>)   // timestamp of this node's own request, if any

  const Initial: NodeState := NodeState(false, [], 0, None)

  /** The new state after one handler call, and what that call sent, in order. */
  datatype Step = Step(next: NodeState, sent: seq<Sent>)

  /**
   * Whether the node counts as having a request of its own outstanding: the
   * timestamp is tested for truth, so an absent timestamp and a zero one
   * both mean "no request".
   */
  predicate Claiming(own: Option<nat>): (r: bool)
    ensures r ==> own.Some?
    ensures own == Some(0) ==> !r
    // any present non-zero timestamp is an outstanding request
    ensures own.Some? && own.value != 0 ==> r
  {
    own.Some? && own.value != 0
  }

  /** Request (ts, id) goes before request (otherTs, otherId): earlier timestamp, ties to the lower id. */
  predicate Precedes(ts: nat, id: nat, otherTs: nat, otherId: nat): (r: bool)
    // the timestamp decides when they differ
    ensures ts < otherTs ==> r
    ensures otherTs < ts ==> !r
    // equal timestamps fall back to the ids
    ensures ts == otherTs ==> (r <==> id < otherId)
  {
    ts < otherTs || (ts == otherTs && id < otherId)
  }

  /** Whether node `self` in state `s` defers a request from `requester` stamped `ts`. */
  predicate Defers(self: nat, s: NodeState, requester: nat, ts: nat): (r: bool)
    // inside the critical section every requester waits
    ensures s.inCriticalSection ==> r
    // outside it, a requester waits only for an outstanding own request that goes first
    ensures r && !s.inCriticalSection ==> Claiming(s.ownRequest) && Precedes(s.ownRequest.value, self, ts, requester)
    // and an outstanding own request that goes first always makes it wait
    ensures !s.inCriticalSection && Claiming(s.ownRequest) && Precedes(s.ownRequest.value, self, ts, requester) ==> r
  {
    s.inCriticalSection || (Claiming(s.ownRequest) && Precedes(s.ownRequest.value, self, ts, requester))
  }

  /** The node's answer to `REQ:<requester>:<ts>`: defer the requester, or grant at once. */
  function OnRequest(self: nat, s: NodeState, requester: nat, ts: nat): (r: Step)
    // only the queue changes
    ensures r.next.inCriticalSection == s.inCriticalSection
    ensures r.next.grantsReceived == s.grantsReceived && r.next.ownRequest == s.ownRequest
    // exactly one of: queue the requester at the back and send nothing, or grant it once and keep the queue
    ensures (r.sent == [] && r.next.deferred == s.deferred + [Deferral(requester, ts)])
         != (r.sent == [Sent(requester, Grant(self))] && r.next.deferred == s.deferred)
    // inside the critical section every requester waits
    ensures s.inCriticalSection ==> r.sent == []
    // with no request of its own and outside the critical section the node always grants
    ensures !s.inCriticalSection && !Claiming(s.ownRequest) ==> r.sent == [Sent(requester, Grant(self))]
    // while requesting, the requester waits exactly when this node's request goes first
    ensures !s.inCriticalSection && Claiming(s.ownRequest) ==>
              (r.sent == [] <==> Precedes(s.ownRequest.value, self, ts, requester))
    // the queue grows only while in the critical section or requesting
    ensures |r.next.deferred| > |s.deferred| ==> s.inCriticalSection || Claiming(s.ownRequest)
  {
    if Defers(self, s, requester, ts) then
      Step(s.(deferred := s.deferred + [Deferral(requester, ts)]), [])
    else
      Step(s, [Sent(requester, Grant(self))])
  }

  /** The node's handling of a decoded message. A malformed request never reaches this point. */
  function Receive(self: nat, s: NodeState, d: Inbound): (r: Step)
    requires !d.Malformed?
    // a grant adds one to the count, whether or not the node is requesting, and does nothing else
    ensures d.InGrant? ==>
              r.next.grantsReceived == s.grantsReceived + 1 && r.next.(grantsReceived := s.grantsReceived) == s && r.sent == []
    // an unknown tag changes nothing and sends nothing
    ensures d.InOther? ==> r.next == s && r.sent == []
    // nothing but a request is ever answered
    ensures r.sent != [] ==> d.InRequest? && r.sent == [Sent(d.requester, Grant(self))]
    // a request is answered exactly as OnRequest decides: deferred or granted
    ensures d.InRequest? ==> r == OnRequest(self, s, d.requester, d.ts)
  {
    match d
    case InRequest(requester, ts) => OnRequest(self, s, requester, ts)
    case InGrant => Step(s.(grantsReceived := s.grantsReceived + 1), [])
    case InOther => Step(s, [])
  }

  /** One grant from `self` to each queued requester, in queue order. */
  function GrantsTo(self: nat, queue: seq<Deferral>): (r: seq<Sent>)
    ensures |r| == |queue|
    ensures forall k :: 0 <= k < |queue| ==> r[k] == Sent(queue[k].requester, Grant(self))
  {
    if queue == [] then [] else [Sent(queue[0].requester, Grant(self))] + GrantsTo(self, queue[1..])
  }

  /** Granting the head of the queue and keeping the rest queued loses and adds no grant. */
  lemma GrantHead(self: nat, queue: seq<Deferral>, sent: seq<Sent>)
    requires queue != []
    ensures sent + GrantsTo(self, queue) == (sent + [Sent(queue[0].requester, Grant(self))]) + GrantsTo(self, queue[1..])
  {
  }

  /** Leaving the critical section: every deferred requester is granted, in FIFO order, and the queue ends empty. */
  function ReleaseStep(self: nat, s: NodeState): (r: Step)
    ensures r.next.deferred == []
    // the flag, the timestamp and the count are left as they were
    ensures r.next.inCriticalSection == s.inCriticalSection
    ensures r.next.ownRequest == s.ownRequest && r.next.grantsReceived == s.grantsReceived
    ensures |r.sent| == |s.deferred|
    ensures forall k :: 0 <= k < |s.deferred| ==> r.sent[k] == Sent(s.deferred[k].requester, Grant(self))
  {
    Step(s.(deferred := []), GrantsTo(self, s.deferred))
  }

  /** `REQ:<self>:<ts>` to each node of `ids` other than `self`, in the order of `ids`. */
  function Broadcast(self: nat, ts: nat, ids: seq<nat>): (r: seq<Sent>)
    ensures |r| <= |ids|
    ensures forall k :: 0 <= k < |r| ==> r[k].msg == Req(self, ts) && r[k].to != self && r[k].to in ids
  {
    if ids == [] then []
    else
      var last := ids[|ids| - 1];
      Broadcast(self, ts, ids[..|ids| - 1]) + (if last != self then [Sent(last, Req(self, ts))] else [])
  }

  predicate Distinct(ids: seq<nat>)
  {
    forall i, j :: 0 <= i < j < |ids| ==> ids[i] != ids[j]
  }

  /**
   * A broadcast over distinct ids reaches every id but `self` exactly once:
   * each one is the destination of exactly one message and no two messages
   * share a destination.
   */
  lemma {:induction false} BroadcastReachesEachOnce(self: nat, ts: nat, ids: seq<nat>)
    requires Distinct(ids)
    ensures |Broadcast(self, ts, ids)| == if self in ids then |ids| - 1 else |ids|
    ensures forall d :: d in ids && d != self ==> Sent(d, Req(self, ts)) in Broadcast(self, ts, ids)
    ensures forall i, j :: 0 <= i < j < |Broadcast(self, ts, ids)| ==>
              Broadcast(self, ts, ids)[i].to != Broadcast(self, ts, ids)[j].to
    decreases |ids|
  {
    if ids != [] {
      var init := ids[..|ids| - 1];
      var last := ids[|ids| - 1];
      assert ids == init + [last];
      BroadcastReachesEachOnce(self, ts, init);
      forall i | 0 <= i < |init|
        ensures init[i] != last
      {
        assert init[i] == ids[i];
      }
      forall d | d in ids && d != self
        ensures Sent(d, Req(self, ts)) in Broadcast(self, ts, ids)
      {
        if d != last {
          assert d in init;
        }
      }
    }
  }

  /** The broadcast of a cluster member goes to the NumPeers other members, once each, never to itself. */
  lemma BroadcastToPeers(self: nat, ts: nat)
    requires self in NodeIds
    ensures |Broadcast(self, ts, NodeIds)| == NumPeers
    ensures forall d :: d in NodeIds && d != self ==> Sent(d, Req(self, ts)) in Broadcast(self, ts, NodeIds)
    ensures forall k :: 0 <= k < |Broadcast(self, ts, NodeIds)| ==> Broadcast(self, ts, NodeIds)[k].to != self
    ensures forall i, j :: 0 <= i < j < |Broadcast(self, ts, NodeIds)| ==>
              Broadcast(self, ts, NodeIds)[i].to != Broadcast(self, ts, NodeIds)[j].to
  {
    BroadcastReachesEachOnce(self, ts, NodeIds);
  }

  /**
   * Starting a request: the own timestamp is set, the count restarts at 0,
   * the queue is emptied, and a request goes to every other node. The
   * requesters dropped from the queue are not granted.
   */
  function RequestStep(self: nat, s: NodeState, ts: nat): (r: Step)
    ensures r.next.ownRequest == Some(ts) && r.next.grantsReceived == 0 && r.next.deferred == []
    ensures r.next.inCriticalSection == s.inCriticalSection
    ensures forall k :: 0 <= k < |r.sent| ==> r.sent[k].msg == Req(self, ts) && r.sent[k].to != self
    // one request to each other node of the cluster: NumPeers messages for a cluster member
    ensures |r.sent| == if self in NodeIds then NumPeers else |NodeIds|
    ensures forall d :: d in NodeIds && d != self ==> Sent(d, Req(self, ts)) in r.sent
    ensures forall i, j :: 0 <= i < j < |r.sent| ==> r.sent[i].to != r.sent[j].to
  {
    BroadcastReachesEachOnce(self, ts, NodeIds);
    Step(NodeState(s.inCriticalSection, [], 0, Some(ts)), Broadcast(self, ts, NodeIds))
  }

  /** Whether the node holds a grant from every other node. */
  predicate HasQuorum(s: NodeState): (r: bool)
    // three grants in the four-node cluster
    ensures r <==> s.grantsReceived >= 3
  {
    s.grantsReceived >= NumPeers
  }

  /** Entering the critical section, which the node does only once it has a quorum of grants. */
  function EnterStep(s: NodeState): (r: NodeState)
    requires HasQuorum(s)
    ensures r.inCriticalSection
    ensures r.deferred == s.deferred && r.grantsReceived == s.grantsReceived && r.ownRequest == s.ownRequest
  {
    s.(inCriticalSection := true)
  }

  /** Precedes is a strict order, and of two requests from distinct nodes exactly one goes first. */
  lemma PrecedesIsStrictTotal(ts1: nat, id1: nat, ts2: nat, id2: nat, ts3: nat, id3: nat)
    ensures !Precedes(ts1, id1, ts1, id1)
    ensures Precedes(ts1, id1, ts2, id2) && Precedes(ts2, id2, ts3, id3) ==> Precedes(ts1, id1, ts3, id3)
    ensures id1 != id2 ==> (Precedes(ts1, id1, ts2, id2) != Precedes(ts2, id2, ts1, id1))
  {
  }

  /**
   * Two distinct nodes, both requesting and neither in the critical section,
   * that receive each other's request: exactly one of them grants the other.
   */
  lemma ExactlyOneYields(a: nat, sa: NodeState, b: nat, sb: NodeState)
    requires a != b
    requires !sa.inCriticalSection && !sb.inCriticalSection
    requires Claiming(sa.ownRequest) && Claiming(sb.ownRequest)
    ensures (OnRequest(a, sa, b, sb.ownRequest.value).sent == [])
         != (OnRequest(b, sb, a, sa.ownRequest.value).sent == [])
  {
  }

  /** What can happen to a node: a payload arrives, or its own client thread takes a step. */
  datatype Event =
    | Deliver(text: string)     // one inbound payload handled by the server thread
    | StartRequest(ts: nat)     // the client starts a request stamped with the current time
    | PollQuorum                // one check of the waiting loop; enters once the quorum is there
    | FinishAccess              // the end of the access: the queue is drained

  /** Payloads whose handling raises (a malformed request) stop the server thread; runs here exclude them. */
  predicate Acceptable(e: Event)
  {
    e.Deliver? ==> !Decode(e.text).Malformed?
  }

  /** One event, handled atomically. */
  function Apply(self: nat, s: NodeState, e: Event): (r: Step)
    requires Acceptable(e)
    // the flag is set only by a poll that finds the quorum, and never cleared
    ensures r.next.inCriticalSection == (s.inCriticalSection || (e.PollQuorum? && HasQuorum(s)))
    // every message the node sends carries its own id
    ensures forall k :: 0 <= k < |r.sent| ==> SignedBy(self, r.sent[k])
  {
    match e
    case Deliver(text) => Receive(self, s, Decode(text))
    case StartRequest(ts) => RequestStep(self, s, ts)
    case PollQuorum => if HasQuorum(s) then Step(EnterStep(s), []) else Step(s, [])
    case FinishAccess => ReleaseStep(self, s)
  }

  /** A message whose id field is `self`: a grant from `self` or a request by `self`. */
  predicate SignedBy(self: nat, m: Sent)
  {
    m.msg == Grant(self) || (m.msg.Req? && m.msg.requester == self)
  }

  /** The state after a sequence of events, each handled atomically, and everything sent on the way. */
  function Run(self: nat, s: NodeState, events: seq<Event>): (r: Step)
    requires forall i :: 0 <= i < |events| ==> Acceptable(events[i])
    // whatever happens, the node only ever sends grants and requests in its own name
    ensures forall k :: 0 <= k < |r.sent| ==> SignedBy(self, r.sent[k])
    // a node outside the critical section gets in only through a poll
    ensures !s.inCriticalSection && r.next.inCriticalSection ==>
              exists i :: 0 <= i < |events| && events[i].PollQuorum?
    decreases |events|
  {
    if events == [] then Step(s, [])
    else
      var first := Apply(self, s, events[0]);
      var rest := Run(self, first.next, events[1..]);
      Step(rest.next, first.sent + rest.sent)
  }

  /**
   * Once in the critical section, a node stays there whatever happens next
   * (no handler clears the flag), and from then on it defers every request
   * it receives.
   */
  lemma {:induction false} CriticalSectionIsSticky(self: nat, s: NodeState, events: seq<Event>, requester: nat, ts: nat)
    requires s.inCriticalSection
    requires forall i :: 0 <= i < |events| ==> Acceptable(events[i])
    ensures Run(self, s, events).next.inCriticalSection
    ensures OnRequest(self, Run(self, s, events).next, requester, ts).sent == []
    decreases |events|
  {
    if events != [] {
      var first := Apply(self, s, events[0]);
      assert first.next.inCriticalSection;
      CriticalSectionIsSticky(self, first.next, events[1..], requester, ts);
    }
  }

  /** A fresh node that is not requesting answers `REQ:3:12345` from node 3 at once with `GRANT:1`. */
  lemma IdleNodeGrants()
    ensures Receive(1, Initial, Decode(Format(Req(3, 12345)))) == Step(Initial, [Sent(3, Grant(1))])
  {
  }

  /** A node whose own request is stamped 12340 defers `REQ:3:12345` and sends nothing. */
  lemma EarlierOwnRequestDefers()
    ensures var s := Initial.(ownRequest := Some(12340));
            Receive(1, s, Decode(Format(Req(3, 12345)))) == Step(s.(deferred := [Deferral(3, 12345)]), [])
  {
  }

  /** Requests from b then c deferred in the critical section are granted once each, b first, on release. */
  lemma DrainFollowsArrivalOrder(a: nat, s: NodeState, b: nat, tb: nat, c: nat, tc: nat)
    requires s.inCriticalSection && s.deferred == []
    ensures Run(a, s, [Deliver(Format(Req(b, tb))), Deliver(Format(Req(c, tc))), FinishAccess]).sent
            == [Sent(b, Grant(a)), Sent(c, Grant(a))]
  {
    DecodeFormat(Req(b, tb));
    DecodeFormat(Req(c, tc));
    var events := [Deliver(Format(Req(b, tb))), Deliver(Format(Req(c, tc))), FinishAccess];
    var s1 := s.(deferred := [Deferral(b, tb)]);
    var s2 := s.(deferred := [Deferral(b, tb), Deferral(c, tc)]);
    assert Apply(a, s, events[0]) == Step(s1, []);
    assert Apply(a, s1, events[1]) == Step(s2, []);
    assert events[1..][1..] == [FinishAccess];
    assert Run(a, s2, [FinishAccess]).sent == [Sent(b, Grant(a)), Sent(c, Grant(a))];
  }

  /**
   * A node that has been in the critical section and has drained its queue
   * defers the next request it receives, and when it starts its next request
   * that requester is dropped from the queue without ever being granted.
   */
  lemma RestartDropsDeferredRequester(self: nat, s: NodeState, other: nat, t: nat, t': nat)
    requires s.inCriticalSection && s.deferred == []
    ensures var run := Run(self, s, [Deliver(Format(Req(other, t))), StartRequest(t')]);
            run.next.deferred == [] && Sent(other, Grant(self)) !in run.sent
  {
    var events := [Deliver(Format(Req(other, t))), StartRequest(t')];
    var s1 := s.(deferred := [Deferral(other, t)]);
    assert Apply(self, s, events[0]) == Step(s1, []);
    assert events[1..] == [StartRequest(t')] && events[1..][1..] == [];
    assert Run(self, s1, events[1..]).sent == RequestStep(self, s1, t').sent;
  }
}
