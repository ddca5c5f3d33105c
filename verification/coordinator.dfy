/**
 * One node of the cluster as the program keeps it: the four protocol
 * variables, the node's own identifier, and the messages it has sent so far.
 * Every method is one atomic step of the node; its effect is the matching
 * step function of module Protocol.
 */
module Node {
  import opened Wrappers
  import opened Text
  import opened Wire
  import opened Protocol

  class Coordinator {
    const selfId: nat
    var inCriticalSection: bool
    var deferred: seq<Deferral>
    var grantsReceived: nat
    var ownRequest: Option<nat>
    /** Every message this node has tried to send, oldest first. */
    var outbox: seq<Sent>

    function State(): NodeState
      reads this
    {
      NodeState(inCriticalSection, deferred, grantsReceived, ownRequest)
    }

    /** A node starts outside the critical section, with no request, no grants and an empty queue. */
    constructor (id: nat)
      ensures selfId == id && State() == Initial && outbox == []
    {
      selfId := id;
      inCriticalSection := false;
      deferred := [];
      grantsReceived := 0;
      ownRequest := None;
      outbox := [];
    }

    /** Sends `GRANT:<selfId>` to node `to`; a failed send is ignored, so only the outbox changes. */
    method SendGrant(to: nat)
      modifies this`outbox
      ensures outbox == old(outbox) + [Sent(to, Grant(selfId))]
    {
      outbox := outbox + [Sent(to, Grant(selfId))];
    }

    /**
     * Handles one inbound payload. A request whose fields are missing or are
     * not numbers raises in the program before anything changes: here `ok` is
     * false and the node is left as it was.
     */
    method HandleMessage(text: string) returns (ok: bool)
      modifies this
      ensures ok <==> !Decode(text).Malformed?
      ensures ok ==> State() == Receive(selfId, old(State()), Decode(text)).next
      ensures ok ==> outbox == old(outbox) + Receive(selfId, old(State()), Decode(text)).sent
      ensures !ok ==> State() == old(State()) && outbox == old(outbox)
    {
      var parts := Split(text, Separator);
      var tag := parts[0];
      ok := true;
      if tag == "REQ" {
        if |parts| < 3 {
          return false;
        }
        var requester, ts := ParseNat(parts[1]), ParseNat(parts[2]);
        if requester.None? || ts.None? {
          return false;
        }
        if Defers(selfId, State(), requester.value, ts.value) {
          deferred := deferred + [Deferral(requester.value, ts.value)];
        } else {
          SendGrant(requester.value);
        }
      } else if tag == "GRANT" {
        grantsReceived := grantsReceived + 1;
      }
    }

    /**
     * Starts a request stamped `ts`: resets the request bookkeeping, dropping
     * any deferred requester, and sends `REQ:<selfId>:<ts>` to every other node.
     */
    method RequestAccess(ts: nat)
      modifies this
      ensures State() == RequestStep(selfId, old(State()), ts).next
      ensures outbox == old(outbox) + RequestStep(selfId, old(State()), ts).sent
    {
      ownRequest := Some(ts);
      grantsReceived := 0;
      deferred := [];
      for i := 0 to |NodeIds|
        invariant State() == NodeState(old(inCriticalSection), [], 0, Some(ts))
        invariant outbox == old(outbox) + Broadcast(selfId, ts, NodeIds[..i])
      {
        assert NodeIds[..i + 1][..i] == NodeIds[..i];
        if NodeIds[i] != selfId {
          outbox := outbox + [Sent(NodeIds[i], Req(selfId, ts))];
        }
      }
      assert NodeIds[..|NodeIds|] == NodeIds;
    }

    /** Enters the critical section; the node waits until it holds a grant from every other node. */
    method Enter()
      requires HasQuorum(State())
      modifies this`inCriticalSection
      ensures State() == EnterStep(old(State()))
    {
      inCriticalSection := true;
    }

    /**
     * One access once the quorum is there: enter, then release. While the
     * node holds the resource the program keeps handling messages; a caller
     * that wants those interleaved calls Enter, HandleMessage and Release
     * itself.
     */
    method RegisterAccess()
      requires HasQuorum(State())
      modifies this
      ensures State() == ReleaseStep(selfId, EnterStep(old(State()))).next
      ensures outbox == old(outbox) + ReleaseStep(selfId, EnterStep(old(State()))).sent
    {
      Enter();
      Release();
    }

    /** Ends an access: grants every deferred requester in FIFO order and empties the queue. */
    method Release()
      modifies this`deferred, this`outbox
      ensures State() == ReleaseStep(selfId, old(State())).next
      ensures outbox == old(outbox) + ReleaseStep(selfId, old(State())).sent
    {
      ghost var sent := GrantsTo(selfId, deferred);
      while deferred != []
        invariant outbox + GrantsTo(selfId, deferred) == old(outbox) + sent
        decreases |deferred|
      {
        var next := deferred[0];
        GrantHead(selfId, deferred, outbox);
        deferred := deferred[1..];
        SendGrant(next.requester);
      }
      assert outbox == old(outbox) + sent;
    }
  }
}
