/** The peer side of call set-up: the signalling handlers of one peer
    connection, which hold back remote ICE candidates until a remote session
    description is in place and then apply them in arrival order. The
    transport is abstract: it records every `addIceCandidate` attempt, and
    whether an attempt is accepted is decided by an oracle. */
module IceBuffer {
  import opened Wrappers
  import opened JsValues

  type Candidate = JsValue
  type Description = JsValue

  /** What this peer sends through the hub. */
  datatype Outbound =
    | IceCandidateOut(roomId: string, candidate: Candidate)
    | AnswerOut(roomId: string, answer: Description)

  /** The candidates of `q` the transport accepts, in order. */
  function Accepted(q: seq<Candidate>, accepts: Candidate -> bool): (r: seq<Candidate>)
    ensures |r| <= |q|
    ensures forall c :: c in r <==> c in q && accepts(c)
  {
    if q == [] then []
    else (if accepts(q[0]) then [q[0]] else []) + Accepted(q[1..], accepts)
  }

  /** `pc.onicecandidate`: a local candidate goes to the room only when the
      event carries one (the end-of-candidates event carries `null`). */
  function OnLocalCandidate(roomId: string, candidate: Option<Candidate>): (out: seq<Outbound>)
    ensures candidate.None? <==> out == []
    ensures candidate.Some? ==> out == [IceCandidateOut(roomId, candidate.value)]
  {
    match candidate
    case None => []
    case Some(c) => [IceCandidateOut(roomId, c)]
  }

  class PeerSignaling {
    const roomId: string
    /** `pc.remoteDescription` is set (and has a type). */
    var hasRemote: bool
    /** `iceCandidateQueue`, oldest first. */
    var queue: seq<Candidate>
    /** Every `addIceCandidate` call, in call order. */
    var attempts: seq<Candidate>
    /** The calls that succeeded, in call order. */
    var added: seq<Candidate>
    /** The last remote description applied. */
    var remote: Option<Description>

    /** A fresh peer connection: no remote description, nothing queued. */
    constructor (roomId: string)
      ensures this.roomId == roomId
      ensures !hasRemote && queue == [] && attempts == [] && added == [] && remote == None
    {
      this.roomId := roomId;
      hasRemote, queue, attempts, added, remote := false, [], [], [], None;
    }

    /** One `addIceCandidate` call; a rejected one is caught and logged. */
    method Apply(c: Candidate, accepts: Candidate -> bool)
      modifies this
      ensures attempts == old(attempts) + [c]
      ensures added == old(added) + (if accepts(c) then [c] else [])
      ensures hasRemote == old(hasRemote) && queue == old(queue) && remote == old(remote)
    {
      attempts := attempts + [c];
      if accepts(c) {
        added := added + [c];
      }
    }

    /** `while (iceCandidateQueue.length > 0) shift()`: every queued
        candidate is attempted once, oldest first; a failure does not stop
        the rest; the queue ends empty. */
    method Drain(accepts: Candidate -> bool)
      modifies this
      ensures queue == []
      ensures attempts == old(attempts) + old(queue)
      ensures added == old(added) + Accepted(old(queue), accepts)
      ensures hasRemote == old(hasRemote) && remote == old(remote)
    {
      ghost var q0 := queue;
      ghost var i := 0;
      while |queue| > 0
        invariant 0 <= i <= |q0| && queue == q0[i..]
        invariant attempts == old(attempts) + q0[..i]
        invariant added == old(added) + Accepted(q0[..i], accepts)
        invariant hasRemote == old(hasRemote) && remote == old(remote)
        decreases |queue|
      {
        var c := queue[0];
        queue := queue[1..];
        Apply(c, accepts);
        assert q0[..i + 1] == q0[..i] + [c];
        AcceptedAppend(q0[..i], c, accepts);
        i := i + 1;
      }
      assert q0[..i] == q0;
    }

    /** `receive-candidate`: held back while there is no remote description,
        applied at once afterwards. */
    method OnCandidate(c: Candidate, accepts: Candidate -> bool)
      modifies this
      ensures hasRemote == old(hasRemote) && remote == old(remote)
      ensures !old(hasRemote) ==>
        queue == old(queue) + [c] && attempts == old(attempts) && added == old(added)
      ensures old(hasRemote) ==>
        && queue == old(queue)
        && attempts == old(attempts) + [c]
        && added == old(added) + (if accepts(c) then [c] else [])
    {
      if !hasRemote {
        queue := queue + [c];
      } else {
        Apply(c, accepts);
      }
    }

    /** `receive_offer`: set the remote description (a rejection ends the
        handler), drain the queue, then create and send the answer. The
        answer is `None` when creating or setting it fails. */
    method OnOffer(offer: Description, descriptionAccepted: bool, answer: Option<Description>,
                   accepts: Candidate -> bool)
      returns (out: seq<Outbound>)
      modifies this
      ensures !descriptionAccepted ==>
        && out == [] && queue == old(queue) && attempts == old(attempts) && added == old(added)
        && hasRemote == old(hasRemote) && remote == old(remote)
      ensures descriptionAccepted ==>
        && hasRemote && remote == Some(offer) && queue == []
        && attempts == old(attempts) + old(queue)
        && added == old(added) + Accepted(old(queue), accepts)
        && out == (if answer.Some? then [AnswerOut(roomId, answer.value)] else [])
    {
      if !descriptionAccepted {
        return [];
      }
      hasRemote, remote := true, Some(offer);
      Drain(accepts);
      out := if answer.Some? then [AnswerOut(roomId, answer.value)] else [];
    }

    /** `receive-answer`: set the remote description and drain the queue; if
        setting the description is rejected, nothing is applied and the
        queue stays as it was. */
    method OnAnswer(answer: Description, descriptionAccepted: bool, accepts: Candidate -> bool)
      modifies this
      ensures !descriptionAccepted ==>
        && queue == old(queue) && attempts == old(attempts) && added == old(added)
        && hasRemote == old(hasRemote) && remote == old(remote)
      ensures descriptionAccepted ==>
        && hasRemote && remote == Some(answer) && queue == []
        && attempts == old(attempts) + old(queue)
        && added == old(added) + Accepted(old(queue), accepts)
    {
      if descriptionAccepted {
        hasRemote, remote := true, Some(answer);
        Drain(accepts);
      }
    }
  }

  lemma {:induction false} AcceptedAppend(q: seq<Candidate>, c: Candidate, accepts: Candidate -> bool)
    ensures Accepted(q + [c], accepts) == Accepted(q, accepts) + (if accepts(c) then [c] else [])
    decreases |q|
  {
    if q != [] {
      assert (q + [c])[1..] == q[1..] + [c];
      AcceptedAppend(q[1..], c, accepts);
    }
  }

  /** A callee that receives N candidates before the offer: none is applied
      before the offer; on the offer all N are attempted, in arrival order,
      and the answer is sent after them. */
  method CandidatesBeforeOffer(roomId: string, cs: seq<Candidate>, offer: Description,
                               answer: Description, accepts: Candidate -> bool)
    returns (beforeOffer: seq<Candidate>, afterOffer: seq<Candidate>, sent: seq<Outbound>)
    ensures beforeOffer == []
    ensures afterOffer == cs
    ensures sent == [AnswerOut(roomId, answer)]
  {
    var peer := new PeerSignaling(roomId);
    var i := 0;
    while i < |cs|
      invariant 0 <= i <= |cs|
      invariant !peer.hasRemote && peer.roomId == roomId
      invariant peer.queue == cs[..i] && peer.attempts == []
      modifies peer
    {
      peer.OnCandidate(cs[i], accepts);
      assert cs[..i + 1] == cs[..i] + [cs[i]];
      i := i + 1;
    }
    assert cs[..|cs|] == cs;
    beforeOffer := peer.attempts;
    sent := peer.OnOffer(offer, true, Some(answer), accepts);
    afterOffer := peer.attempts;
  }
}
