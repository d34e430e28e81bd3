/** The relationship ledger in terms of what is on the wire: which handshakes and revocations are
    accepted, and where every row and every stored revocation comes from. Nothing here goes through the
    payload readers or the validity predicates it is about. */
module RelationshipWire {
  import opened Values
  import opened Envelopes
  import opened Relationships
  import opened WireFields

  // ---- fields ----

  /** One of the three types, and for a team a resource. */
  ghost predicate NamesType(w: Wire) {
    || Field(w, "relationship_type") == Str("friend")
    || Field(w, "relationship_type") == Str("admin")
    || (Field(w, "relationship_type") == Str("team") && !IsEmpty(Field(w, "resource")))
  }

  /** No attestations, or something that has elements. */
  ghost predicate Lists(v: Value) {
    v.Num? ==> v.n == 0.0
  }

  ghost predicate ProposalOnWire(w: Wire) {
    && w.Parsed?
    && Carries(w.envelope, "aap.relationship-proposal/v1", {"relationship_type", "proposer_card_envelope", "nonce"})
    && NamesType(w) && Lists(Field(w, "identity_attestations"))
  }

  ghost predicate AcceptOnWire(w: Wire) {
    && w.Parsed?
    && Carries(w.envelope, "aap.relationship-accept/v1", {"proposal_nonce", "accepter_card_envelope"})
    && Lists(Field(w, "identity_attestations"))
  }

  lemma ProposalExactly(w: Wire)
    ensures ReadProposal(w).Success? <==> ProposalOnWire(w)
    ensures ReadProposal(w).Success? ==>
      && Str(ReadProposal(w).value.relType) == Field(w, "relationship_type")
      && ReadProposal(w).value.nonce == Field(w, "nonce") && ReadProposal(w).value.resource == Field(w, "resource")
  {
  }

  lemma AcceptExactly(w: Wire)
    ensures ReadAccept(w).Success? <==> AcceptOnWire(w)
    ensures ReadAccept(w).Success? ==> ReadAccept(w).value == Field(w, "proposal_nonce")
  {
  }

  // ---- handshakes ----

  /** Every check a handshake must pass, but for its nonce being new. */
  ghost predicate HandshakeOnWire(c: Call) {
    && c.Establish? && c.checks.proposalOk && c.checks.acceptOk
    && ProposalOnWire(c.proposal) && AcceptOnWire(c.accept)
    && Field(c.accept, "proposal_nonce") == Field(c.proposal, "nonce")
    && c.self != c.peer
    && ((c.proposal.envelope.iss == c.self && c.accept.envelope.iss == c.peer)
        || (c.proposal.envelope.iss == c.peer && c.accept.envelope.iss == c.self))
    && c.checks.proposerCard == Some(Str(c.proposal.envelope.iss))
    && c.checks.accepterCard == Some(Str(c.accept.envelope.iss))
  }

  /** The row a handshake makes. */
  ghost predicate Makes(c: Call, r: Row) {
    && HandshakeOnWire(c)
    && r.peer == c.peer && r.proposal == c.proposal && r.accept == c.accept
    && Str(r.relType) == Field(c.proposal, "relationship_type") && r.resource == Field(c.proposal, "resource")
    && r.establishedAt == c.accept.envelope.iat
  }

  lemma TwoIssuers(a: Address, b: Address, x: Address, y: Address)
    requires x != y
    ensures {a, b} == {x, y} <==> (a == x && b == y) || (a == y && b == x)
  {
    if {a, b} == {x, y} {
      assert a in {x, y} && b in {x, y} && x in {a, b} && y in {a, b};
    }
  }

  lemma HandshakeExactly(c: Call)
    requires c.Establish?
    ensures HandshakeValid(c) <==> HandshakeOnWire(c)
    ensures HandshakeValid(c) ==> Makes(c, EntryOf(c).row)
  {
    ProposalExactly(c.proposal);
    AcceptExactly(c.accept);
    if c.proposal.Parsed? && c.accept.Parsed? && c.self != c.peer {
      TwoIssuers(c.proposal.envelope.iss, c.accept.envelope.iss, c.self, c.peer);
    }
  }

  ghost predicate Stems(r: Row, calls: seq<Call>) {
    exists k :: 0 <= k < |calls| && Makes(calls[k], r)
  }

  lemma StemsExtended(r: Row, calls: seq<Call>, c: Call)
    requires Stems(r, calls) || Makes(c, r)
    ensures Stems(r, calls + [c])
  {
    if Stems(r, calls) {
      var k :| 0 <= k < |calls| && Makes(calls[k], r);
      assert (calls + [c])[k] == calls[k];
    } else {
      assert (calls + [c])[|calls|] == c;
    }
  }

  /** Every active row was made by a handshake of the run that passed every check: both envelopes verified,
      issued by exactly the two parties, each with a card that names its issuer, the accept for this very
      proposal. */
  lemma {:induction false} RowsStem(calls: seq<Call>)
    ensures forall r <- Run(calls).rows :: Stems(r, calls)
  {
    if calls != [] {
      var init, c := calls[..|calls| - 1], calls[|calls| - 1];
      RowsStem(init);
      assert calls == init + [c];
      if c.Establish? { HandshakeExactly(c); }
      forall r <- Run(calls).rows ensures Stems(r, calls) {
        StemsExtended(r, init, c);
      }
    }
  }

  /** A handshake is accepted exactly when it passes those checks and no active row was made from a
      proposal with its nonce; its row is then the newest, and those with its peer, type and resource are
      gone. */
  lemma EstablishExactly(calls: seq<Call>, c: Call)
    requires c.Establish?
    ensures Accepts(Run(calls), c)
       <==> HandshakeOnWire(c)
            && forall r <- Run(calls).rows :: Field(r.proposal, "nonce") != Field(c.proposal, "nonce")
    ensures Accepts(Run(calls), c) ==>
      var rows := Step(Run(calls), c).rows;
      && rows != [] && Makes(c, rows[|rows| - 1])
      && (forall r :: r in rows[..|rows| - 1] <==>
            r in Run(calls).rows && !(r.peer == c.peer && Str(r.relType) == Field(c.proposal, "relationship_type")
                                      && r.resource == Field(c.proposal, "resource")))
      && Step(Run(calls), c).revocations == Run(calls).revocations
  {
    var rows := Run(calls).rows;
    HandshakeExactly(c);
    RowsStem(calls);
    forall r <- rows
      ensures HasNonce(r, Field(c.proposal, "nonce")) <==> Field(r.proposal, "nonce") == Field(c.proposal, "nonce")
    {
      var k :| 0 <= k < |calls| && Makes(calls[k], r);
      ProposalExactly(r.proposal);
    }
    ProposalExactly(c.proposal);
  }

  // ---- revocations ----

  ghost predicate RevokeOnWire(c: Call) {
    && c.Revoke? && c.verified
    && c.revoke.Parsed? && Carries(c.revoke.envelope, "aap.relationship-revoke/v1", {"relationship_type", "nonce"})
    && NamesType(c.revoke)
    && c.self != c.peer && (c.revoke.envelope.iss == c.self || c.revoke.envelope.iss == c.peer)
  }

  /** What is stored of a revocation. */
  ghost predicate Revokes(c: Call, r: RevocationRow) {
    && RevokeOnWire(c)
    && r.peer == c.peer && r.revoker == c.revoke.envelope.iss && r.revoke == c.revoke
    && r.revokedAt == c.revoke.envelope.iat
    && Str(r.relType) == Field(c.revoke, "relationship_type") && r.resource == Field(c.revoke, "resource")
  }

  lemma RevokeReadExactly(c: Call)
    requires c.Revoke?
    ensures RevokeValid(c) <==> RevokeOnWire(c)
    ensures RevokeValid(c) ==>
      Revokes(c, RevocationOf(c)) && ReadRevoke(c.revoke).value.nonce == Field(c.revoke, "nonce")
    ensures RevokeValid(c) ==>
      && EntryOf(c).key.peer == c.peer && Str(EntryOf(c).key.relType) == Field(c.revoke, "relationship_type")
      && EntryOf(c).key.resource == Field(c.revoke, "resource")
  {
  }

  ghost predicate RevocationStems(r: RevocationRow, calls: seq<Call>) {
    exists k :: 0 <= k < |calls| && Revokes(calls[k], r)
  }

  lemma RevocationStemsExtended(r: RevocationRow, calls: seq<Call>, c: Call)
    requires RevocationStems(r, calls) || Revokes(c, r)
    ensures RevocationStems(r, calls + [c])
  {
    if RevocationStems(r, calls) {
      var k :| 0 <= k < |calls| && Revokes(calls[k], r);
      assert (calls + [c])[k] == calls[k];
    } else {
      assert (calls + [c])[|calls|] == c;
    }
  }

  /** Every stored revocation is a verified envelope of one of the two parties, handed over in the run. */
  lemma {:induction false} RevocationsStem(calls: seq<Call>)
    ensures forall r <- Run(calls).revocations :: RevocationStems(r, calls)
  {
    if calls != [] {
      var init, c := calls[..|calls| - 1], calls[|calls| - 1];
      RevocationsStem(init);
      assert calls == init + [c];
      if c.Revoke? { RevokeReadExactly(c); }
      forall r <- Run(calls).revocations ensures RevocationStems(r, calls) {
        RevocationStemsExtended(r, init, c);
      }
    }
  }

  /** A revocation is accepted exactly when it passes those checks and its nonce is not stored; it is then
      stored, and exactly the rows of its peer, type and resource are gone. */
  lemma RevokeExactly(calls: seq<Call>, c: Call)
    requires c.Revoke?
    ensures Accepts(Run(calls), c)
       <==> RevokeOnWire(c)
            && forall r <- Run(calls).revocations :: Field(r.revoke, "nonce") != Field(c.revoke, "nonce")
    ensures Accepts(Run(calls), c) ==>
      var s, t := Run(calls), Step(Run(calls), c);
      && |t.revocations| == |s.revocations| + 1 && s.revocations <= t.revocations
      && Revokes(c, t.revocations[|s.revocations|])
      && forall r :: r in t.rows <==>
           r in s.rows && !(r.peer == c.peer && Str(r.relType) == Field(c.revoke, "relationship_type")
                            && r.resource == Field(c.revoke, "resource"))
  {
    RevokeReadExactly(c);
    RevocationsStem(calls);
    forall r <- Run(calls).revocations
      ensures ReadRevoke(r.revoke).Success? && ReadRevoke(r.revoke).value.nonce == Field(r.revoke, "nonce")
    {
      var k :| 0 <= k < |calls| && Revokes(calls[k], r);
      RevokeReadExactly(calls[k]);
    }
  }

  // ---- lookup ----

  /** A row of this peer, of this type if one is asked for, and for a team of this resource. */
  predicate IsFor(r: Row, peer: Address, relType: Option<string>, resource: Value) {
    match relType
    case None => r.peer == peer
    case Some(t) => r.peer == peer && r.relType == t && (t != "team" || r.resource == resource)
  }

  /** A lookup finds the oldest row it is for. */
  lemma {:induction false} FoundFirst(rows: seq<Row>, peer: Address, relType: Option<string>, resource: Value, i: nat)
    requires i < |rows| && IsFor(rows[i], peer, relType, resource)
    requires forall k :: 0 <= k < i ==> !IsFor(rows[k], peer, relType, resource)
    ensures FindRow(rows, peer, relType, resource) == Some(rows[i])
  {
    if i > 0 {
      assert !IsFor(rows[0], peer, relType, resource);
      FoundFirst(rows[1..], peer, relType, resource, i - 1);
    }
  }

  lemma FoundNothing(rows: seq<Row>, peer: Address, relType: Option<string>, resource: Value)
    requires forall r <- rows :: !IsFor(r, peer, relType, resource)
    ensures FindRow(rows, peer, relType, resource) == None
  {
    forall r <- rows ensures !Matches(r, peer, relType, resource) { assert !IsFor(r, peer, relType, resource); }
  }
}
