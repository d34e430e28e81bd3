/** A handshake presented again after its revocation, and concrete calls that do so. */
module RelationshipReplay {
  import opened Values
  import opened Envelopes
  import opened Relationships

  /** While its row is active a proposal nonce is refused; once the row is revoked it is accepted again,
      from the same handshake or from any other that carries it. */
  lemma HandshakeReturns(calls: seq<Call>, c: Call, r: Call, c': Call)
    requires c.Establish? && Accepts(Run(calls), c)
    requires r.Revoke? && Accepts(Run(calls + [c]), r) && EntryOf(r).key == KeyOf(EntryOf(c).row)
    requires c'.Establish? && HandshakeValid(c')
    requires ReadProposal(c'.proposal).value.nonce == ReadProposal(c.proposal).value.nonce
    ensures !Accepts(Run(calls + [c]), c') && Accepts(Run(calls + [c] + [r]), c')
  {
    LogAppend(calls, c);
    LogAppend(calls + [c], r);
    assert EntryOf(c).row in Run(calls + [c]).rows;
    assert HasNonce(EntryOf(c).row, ReadProposal(c'.proposal).value.nonce);
  }

  // ---- concrete calls ----

  /** A friend proposal of `peer`, for a resource or none. */
  function Proposed(peer: Address, nonce: Value, resource: Value, sig: string): Wire {
    Parsed(Envelope(PROPOSAL, Dict(map["relationship_type" := Str("friend"), "proposer_card_envelope" := Str("card"),
                                       "nonce" := nonce, "resource" := resource]),
                    peer, Some(0), Null, Some(sig)))
  }

  function Accepted(self: Address, nonce: Value, at: int, sig: string): Wire {
    Parsed(Envelope(ACCEPT, Dict(map["proposal_nonce" := nonce, "accepter_card_envelope" := Str("card")]),
                    self, Some(at), Null, Some(sig)))
  }

  function Handshake(self: Address, peer: Address, nonce: Value, resource: Value, at: int, sig: string): Call {
    Establish(self, peer, Proposed(peer, nonce, resource, sig), Accepted(self, nonce, at, sig),
              Checks(true, true, Some(Str(peer)), Some(Str(self))))
  }

  function Revoked(self: Address, peer: Address, nonce: Value, resource: Value, sig: string): Call {
    Revoke(self, peer,
           Parsed(Envelope(REVOKE, Dict(map["relationship_type" := Str("friend"), "nonce" := nonce,
                                            "resource" := resource]),
                           peer, Some(0), Null, Some(sig))),
           true)
  }

  lemma HandshakeReads(self: Address, peer: Address, nonce: Value, resource: Value, at: int, sig: string)
    requires self != peer
    ensures var c := Handshake(self, peer, nonce, resource, at, sig);
            HandshakeValid(c) && ReadProposal(c.proposal) == Success(Proposal("friend", nonce, resource))
  {
    var c := Handshake(self, peer, nonce, resource, at, sig);
    assert ReadProposal(c.proposal) == Success(Proposal("friend", nonce, resource));
    assert ReadAccept(c.accept) == Success(nonce);
  }

  lemma RevokeReads(self: Address, peer: Address, nonce: Value, resource: Value, sig: string)
    requires self != peer
    ensures var c := Revoked(self, peer, nonce, resource, sig);
            RevokeValid(c) && ReadRevoke(c.revoke) == Success(Revocation("friend", nonce, resource))
  {
  }

  lemma FirstCalls(c: Call, r: Call)
    requires c.Establish? && HandshakeValid(c) && r.Revoke? && RevokeValid(r)
    ensures Accepts(Run([]), c) && Accepts(Run([c]), r)
    ensures Run([c]).rows == [EntryOf(c).row]
  {
    assert [c][..0] == [];
    assert Run([c]) == Step(EMPTY, c);
  }

  /** The signed proposal of a revoked friendship, accepted anew, is a friendship again, although its
      nonce was used before. */
  lemma HandshakeReplayed(self: Address, peer: Address, nonce: Value, used: Value, at: int, later: int, sig: string)
    requires self != peer && at != later
    ensures var c, c' := Handshake(self, peer, nonce, Null, at, sig), Handshake(self, peer, nonce, Null, later, sig);
            var r := Revoked(self, peer, used, Null, sig);
            && c'.proposal == c.proposal && c'.accept != c.accept
            && Accepts(Run([]), c) && Accepts(Run([c]), r)
            && !Accepts(Run([c]), c') && Accepts(Run([c, r]), c')
  {
    var c, c' := Handshake(self, peer, nonce, Null, at, sig), Handshake(self, peer, nonce, Null, later, sig);
    var r := Revoked(self, peer, used, Null, sig);
    HandshakeReads(self, peer, nonce, Null, at, sig);
    HandshakeReads(self, peer, nonce, Null, later, sig);
    RevokeReads(self, peer, used, Null, sig);
    FirstCalls(c, r);
    assert [] + [c] == [c] && [c] + [r] == [c, r];
    HandshakeReturns([], c, r, c');
  }
}
