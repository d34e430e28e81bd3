/** The service request ledger in terms of what is on the wire: which requests and responses are accepted,
    and where everything that is stored comes from. */
module ServiceWire {
  import opened Values
  import opened Envelopes
  import opened ServiceRequests
  import opened WireFields

  // ---- what is read off the wire ----

  /** A request envelope, and the row that is made of it. */
  ghost predicate Asks(c: Call, q: Request) {
    && c.RecordRequest? && c.wire.Parsed?
    && Carries(c.wire.envelope, "aap.service-request/v1", {"payload", "service_id", "nonce"})
    && var p := c.wire.envelope.payload.fields;
    && p["payload"].Dict?
    && q.nonce == p["nonce"] && q.serviceId == p["service_id"] && q.business == c.business
    && q.requestedAt == c.wire.envelope.iat && q.envelope == c.wire.envelope
  }

  /** A verified response envelope, and the row that is made of it. */
  ghost predicate Answers(c: Call, r: Response) {
    && c.RecordResponse? && c.verified
    && c.wire.Parsed?
    && Carries(c.wire.envelope, "aap.service-response/v1", {"status", "service_id", "request_nonce", "nonce"})
    && var p := c.wire.envelope.payload.fields;
    && p["status"] in {Str("confirmed"), Str("denied"), Str("pending")}
    && ("payload" !in p || IsEmpty(p["payload"]) || p["payload"].Dict?)
    && r.nonce == p["nonce"] && r.requestNonce == p["request_nonce"] && r.serviceId == p["service_id"]
    && r.business == c.wire.envelope.iss && r.respondedAt == c.wire.envelope.iat && r.envelope == c.wire.envelope
  }

  lemma RequestReadExactly(c: Call, q: Request)
    requires c.RecordRequest?
    ensures ReadRequest(c.business, c.wire) == Success(q) <==> Asks(c, q)
  {
  }

  lemma ResponseReadExactly(c: Call, r: Response)
    requires c.RecordResponse?
    ensures c.verified && ReadResponse(c.wire) == Success(r) <==> Answers(c, r)
  {
  }

  // ---- what is accepted ----

  lemma PendingExactly(pending: seq<Request>, q: Request)
    requires DistinctRequests(pending) && q in pending
    ensures FindPending(pending, q.nonce) == Some(q)
  {
    var found := FindPending(pending, q.nonce);
    var i :| 0 <= i < |pending| && pending[i] == q;
    var j :| 0 <= j < |pending| && pending[j] == found.value;
    assert i == j;
  }

  /** A request is accepted exactly when it is well formed and no pending one has its nonce. It is then
      the newest pending one. */
  lemma RequestExactly(s: State, c: Call, q: Request)
    requires Asks(c, q)
    ensures Accepts(s, c) <==> forall x <- s.pending :: x.nonce != q.nonce
    ensures Accepts(s, c) ==> Step(s, c) == State(s.pending + [q], s.responses)
  {
    RequestReadExactly(c, q);
  }

  /** A response is accepted exactly when it is verified and well formed, its nonce is new, and a pending
      request has its request nonce, was sent to its issuer and is for its service. It is then the newest
      response, and that request is no longer pending. */
  lemma ResponseExactly(s: State, c: Call, r: Response)
    requires DistinctNonces(s) && Answers(c, r)
    ensures Accepts(s, c)
       <==> && (forall x <- s.responses :: x.nonce != r.nonce)
            && exists q <- s.pending ::
                 q.nonce == r.requestNonce && q.business == r.business && q.serviceId == r.serviceId
    ensures Accepts(s, c) ==>
      && Step(s, c).responses == s.responses + [r]
      && forall q :: q in Step(s, c).pending <==> q in s.pending && q.nonce != r.requestNonce
  {
    ResponseReadExactly(c, r);
    if q :| q in s.pending && q.nonce == r.requestNonce && q.business == r.business && q.serviceId == r.serviceId {
      PendingExactly(s.pending, q);
    }
  }

  /** Anything else is refused. */
  lemma OthersRefused(s: State, c: Call)
    requires forall q :: !Asks(c, q)
    requires forall r :: !Answers(c, r)
    ensures !Accepts(s, c)
  {
    match c
    case RecordRequest(_, _) =>
      if ReadRequest(c.business, c.wire).Success? { RequestReadExactly(c, ReadRequest(c.business, c.wire).value); }
    case RecordResponse(_, _) =>
      if c.verified && ReadResponse(c.wire).Success? { ResponseReadExactly(c, ReadResponse(c.wire).value); }
  }

  // ---- where everything stored comes from ----

  ghost predicate ResponseStems(r: Response, calls: seq<Call>) {
    exists k :: 0 <= k < |calls| && Answers(calls[k], r)
  }

  ghost predicate RequestStems(q: Request, calls: seq<Call>) {
    exists k :: 0 <= k < |calls| && Asks(calls[k], q)
  }

  lemma StemsExtended(calls: seq<Call>, c: Call)
    ensures forall r :: ResponseStems(r, calls) || Answers(c, r) ==> ResponseStems(r, calls + [c])
    ensures forall q :: RequestStems(q, calls) || Asks(c, q) ==> RequestStems(q, calls + [c])
  {
    var after := calls + [c];
    assert after[|calls|] == c && forall k :: 0 <= k < |calls| ==> after[k] == calls[k];
    forall r | ResponseStems(r, calls) || Answers(c, r) ensures ResponseStems(r, after) {
      if k :| 0 <= k < |calls| && Answers(calls[k], r) { assert Answers(after[k], r); }
    }
    forall q | RequestStems(q, calls) || Asks(c, q) ensures RequestStems(q, after) {
      if k :| 0 <= k < |calls| && Asks(calls[k], q) { assert Asks(after[k], q); }
    }
  }

  /** Every stored response is a verified envelope of the business it is stored for, and every pending
      request an envelope recorded for its business. */
  lemma {:induction false} StoredStem(calls: seq<Call>)
    ensures forall r <- Run(calls).responses :: ResponseStems(r, calls)
    ensures forall q <- Run(calls).pending :: RequestStems(q, calls)
  {
    if calls != [] {
      var init, c := calls[..|calls| - 1], calls[|calls| - 1];
      StoredStem(init);
      StemsExtended(init, c);
      assert calls == init + [c];
      if Accepts(Run(init), c) {
        match c
        case RecordRequest(_, _) => RequestReadExactly(c, ReadRequest(c.business, c.wire).value);
        case RecordResponse(_, _) => ResponseReadExactly(c, ReadResponse(c.wire).value);
      }
    }
  }
}
