/** The service request ledger of `aap/stores/service_requests.py`. */
module ServiceRequests {
  import opened Values
  import opened Envelopes

  const REQUEST := "aap.service-request/v1"
  const RESPONSE := "aap.service-response/v1"
  const STATUSES := {"confirmed", "denied", "pending"}

  datatype Request = Request(
    nonce: Value, business: Address, serviceId: Value, requestedAt: Option<int>, envelope: Envelope)

  datatype Response = Response(
    nonce: Value, requestNonce: Value, business: Address, serviceId: Value, respondedAt: Option<int>,
    envelope: Envelope)

  datatype State = State(pending: seq<Request>, responses: seq<Response>)

  const EMPTY := State([], [])

  /** What a request and its response have in common. */
  datatype Ticket = Ticket(requestNonce: Value, business: Address, serviceId: Value)

  function Asked(r: Request): Ticket { Ticket(r.nonce, r.business, r.serviceId) }

  function Answered(r: Response): Ticket { Ticket(r.requestNonce, r.business, r.serviceId) }

  datatype Call =
    | RecordRequest(business: Address, wire: Wire)
    | RecordResponse(wire: Wire, verified: bool)

  function ReadRequest(business: Address, w: Wire): Result<Request> {
    if w.Malformed? || w.envelope.payloadType != REQUEST then Failure("not a service request")
    else if !w.envelope.payload.Dict? then Failure("payload is not a dict")
    else
      var d := w.envelope.payload.fields;
      if "payload" in d && d["payload"].Dict? && "service_id" in d && "nonce" in d
      then Success(Request(d["nonce"], business, d["service_id"], w.envelope.iat, w.envelope))
      else Failure("invalid service request payload")
  }

  /** A response as signed; the business it claims to come from is the envelope's issuer. */
  function ReadResponse(w: Wire): Result<Response> {
    if w.Malformed? || w.envelope.payloadType != RESPONSE then Failure("not a service response")
    else if !w.envelope.payload.Dict? then Failure("payload is not a dict")
    else
      var d := w.envelope.payload.fields;
      if "status" !in d || !d["status"].Str? || d["status"].text !in STATUSES then Failure("unknown status")
      else if Truthy(Get(d, "payload")) && !d["payload"].Dict? then Failure("payload must be a dict")
      else if "service_id" in d && "request_nonce" in d && "nonce" in d
      then Success(Response(d["nonce"], d["request_nonce"], w.envelope.iss, d["service_id"], w.envelope.iat,
                            w.envelope))
      else Failure("missing field")
  }

  function FindPending(pending: seq<Request>, nonce: Value): (r: Option<Request>)
    ensures r.None? <==> forall x <- pending :: x.nonce != nonce
    ensures r.Some? ==> r.value in pending && r.value.nonce == nonce
  {
    if pending == [] then None
    else if pending[0].nonce == nonce then Some(pending[0])
    else FindPending(pending[1..], nonce)
  }

  function WithoutRequest(pending: seq<Request>, nonce: Value): (r: seq<Request>)
    ensures forall x :: x in r <==> x in pending && x.nonce != nonce
  {
    if pending == [] then []
    else if pending[0].nonce == nonce then WithoutRequest(pending[1..], nonce)
    else [pending[0]] + WithoutRequest(pending[1..], nonce)
  }

  predicate Accepts(s: State, c: Call) {
    match c
    case RecordRequest(business, wire) =>
      var q := ReadRequest(business, wire);
      q.Success? && FindPending(s.pending, q.value.nonce).None?
    case RecordResponse(wire, verified) =>
      var r := ReadResponse(wire);
      && verified && r.Success?
      && (forall x <- s.responses :: x.nonce != r.value.nonce)
      && FindPending(s.pending, r.value.requestNonce).Some?
      && Answered(r.value) == Asked(FindPending(s.pending, r.value.requestNonce).value)
  }

  function Step(s: State, c: Call): State {
    if !Accepts(s, c) then s
    else match c
      case RecordRequest(business, wire) => s.(pending := s.pending + [ReadRequest(business, wire).value])
      case RecordResponse(wire, _) =>
        var r := ReadResponse(wire).value;
        State(WithoutRequest(s.pending, r.requestNonce), s.responses + [r])
  }

  function Run(calls: seq<Call>): State {
    if calls == [] then EMPTY else Step(Run(calls[..|calls| - 1]), calls[|calls| - 1])
  }

  /** The requests accepted in a run, in order. */
  function Requests(calls: seq<Call>): seq<Request> {
    if calls == [] then []
    else
      var init, c := calls[..|calls| - 1], calls[|calls| - 1];
      Requests(init)
      + if c.RecordRequest? && Accepts(Run(init), c) then [ReadRequest(c.business, c.wire).value] else []
  }

  // ---- what every run keeps ----

  ghost predicate DistinctRequests(pending: seq<Request>) {
    forall i, j :: 0 <= i < j < |pending| ==> pending[i].nonce != pending[j].nonce
  }

  ghost predicate DistinctNonces(s: State) {
    && DistinctRequests(s.pending)
    && (forall i, j :: 0 <= i < j < |s.responses| ==> s.responses[i].nonce != s.responses[j].nonce)
  }

  function AllAsked(rs: seq<Request>): multiset<Ticket> {
    if rs == [] then multiset{} else multiset{Asked(rs[0])} + AllAsked(rs[1..])
  }

  function AllAnswered(rs: seq<Response>): multiset<Ticket> {
    if rs == [] then multiset{} else multiset{Answered(rs[0])} + AllAnswered(rs[1..])
  }

  lemma {:induction false} AllAskedAppend(rs: seq<Request>, r: Request)
    ensures AllAsked(rs + [r]) == AllAsked(rs) + multiset{Asked(r)}
  {
    if rs != [] {
      assert (rs + [r])[1..] == rs[1..] + [r];
      AllAskedAppend(rs[1..], r);
    }
  }

  lemma {:induction false} AllAnsweredAppend(rs: seq<Response>, r: Response)
    ensures AllAnswered(rs + [r]) == AllAnswered(rs) + multiset{Answered(r)}
  {
    if rs != [] {
      assert (rs + [r])[1..] == rs[1..] + [r];
      AllAnsweredAppend(rs[1..], r);
    }
  }

  lemma {:induction false} SizesOfTickets(rs: seq<Request>, ss: seq<Response>)
    ensures |AllAsked(rs)| == |rs| && |AllAnswered(ss)| == |ss|
  {
    if rs != [] { SizesOfTickets(rs[1..], ss); }
    else if ss != [] { SizesOfTickets(rs, ss[1..]); }
  }

  lemma AskedFirst(r: Request, rs: seq<Request>)
    ensures AllAsked([r] + rs) == multiset{Asked(r)} + AllAsked(rs)
  {
    assert ([r] + rs)[1..] == rs;
  }

  lemma {:induction false} NothingRemoved(pending: seq<Request>, nonce: Value)
    requires forall x <- pending :: x.nonce != nonce
    ensures WithoutRequest(pending, nonce) == pending
  {
    if pending != [] { NothingRemoved(pending[1..], nonce); }
  }

  lemma FirstRemoved(pending: seq<Request>)
    requires DistinctRequests(pending) && pending != []
    ensures WithoutRequest(pending, pending[0].nonce) == pending[1..]
  {
    var rest := pending[1..];
    forall x <- rest ensures x.nonce != pending[0].nonce {
      var k :| 0 <= k < |rest| && rest[k] == x;
      assert pending[k + 1] == x;
    }
    NothingRemoved(rest, pending[0].nonce);
  }

  /** Taking a request off the pending list takes exactly its ticket off. */
  lemma {:induction false} RemovedTicket(pending: seq<Request>, nonce: Value)
    requires DistinctRequests(pending)
    requires FindPending(pending, nonce).Some?
    ensures AllAsked(pending)
         == AllAsked(WithoutRequest(pending, nonce)) + multiset{Asked(FindPending(pending, nonce).value)}
  {
    if pending[0].nonce == nonce {
      FirstRemoved(pending);
    } else {
      RemovedTicket(pending[1..], nonce);
      AskedFirst(pending[0], WithoutRequest(pending[1..], nonce));
    }
  }

  lemma {:induction false} WithoutRequestKeepsDistinct(pending: seq<Request>, nonce: Value)
    requires DistinctRequests(pending)
    ensures DistinctRequests(WithoutRequest(pending, nonce))
  {
    if pending != [] {
      var rest := WithoutRequest(pending[1..], nonce);
      WithoutRequestKeepsDistinct(pending[1..], nonce);
      forall j | 0 <= j < |rest| ensures pending[0].nonce != rest[j].nonce {
        assert rest[j] in rest;
        var k :| 0 <= k < |pending[1..]| && pending[1..][k] == rest[j];
        assert pending[k + 1] == rest[j];
      }
    }
  }

  lemma StepKeepsDistinct(s: State, c: Call)
    requires DistinctNonces(s)
    ensures DistinctNonces(Step(s, c))
  {
    if Accepts(s, c) && c.RecordResponse? {
      WithoutRequestKeepsDistinct(s.pending, ReadResponse(c.wire).value.requestNonce);
    }
  }

  /** In every run pending nonces are distinct and so are response nonces. */
  lemma {:induction false} RunKeepsDistinct(calls: seq<Call>)
    ensures DistinctNonces(Run(calls))
  {
    if calls != [] {
      RunKeepsDistinct(calls[..|calls| - 1]);
      StepKeepsDistinct(Run(calls[..|calls| - 1]), calls[|calls| - 1]);
    }
  }

  /** The tickets a state accounts for: pending ones and answered ones. */
  function Accounted(s: State): multiset<Ticket> {
    AllAsked(s.pending) + AllAnswered(s.responses)
  }

  lemma ResponseAccounts(s: State, c: Call)
    requires DistinctNonces(s) && c.RecordResponse? && Accepts(s, c)
    ensures Accounted(Step(s, c)) == Accounted(s)
  {
    var r := ReadResponse(c.wire).value;
    RemovedTicket(s.pending, r.requestNonce);
    AllAnsweredAppend(s.responses, r);
  }

  lemma StepAccounts(s: State, c: Call)
    requires DistinctNonces(s)
    ensures Accounted(Step(s, c))
         == Accounted(s)
            + if c.RecordRequest? && Accepts(s, c) then multiset{Asked(ReadRequest(c.business, c.wire).value)}
              else multiset{}
  {
    if Accepts(s, c) {
      match c
      case RecordRequest(business, wire) => AllAskedAppend(s.pending, ReadRequest(business, wire).value);
      case RecordResponse(_, _) => ResponseAccounts(s, c);
    }
  }

  /** Conservation: every accepted request is either still pending or has been answered, exactly once,
      by a response with its nonce, from its business and for its service. */
  lemma {:induction false} RequestsAreConserved(calls: seq<Call>)
    ensures AllAsked(Requests(calls)) == AllAsked(Run(calls).pending) + AllAnswered(Run(calls).responses)
    ensures |Requests(calls)| == |Run(calls).pending| + |Run(calls).responses|
  {
    if calls != [] {
      var init, c := calls[..|calls| - 1], calls[|calls| - 1];
      RequestsAreConserved(init);
      RunKeepsDistinct(init);
      StepAccounts(Run(init), c);
      if c.RecordRequest? && Accepts(Run(init), c) {
        AllAskedAppend(Requests(init), ReadRequest(c.business, c.wire).value);
      } else {
        assert Requests(calls) == Requests(init);
      }
    }
    SizesOfTickets(Requests(calls), Run(calls).responses);
    SizesOfTickets(Run(calls).pending, Run(calls).responses);
  }

  /** So no ticket is ever answered more often than it was asked, at any point of a run. */
  lemma AnsweredAtMostAsAsked(calls: seq<Call>, k: nat, t: Ticket)
    requires k <= |calls|
    ensures AllAnswered(Run(calls[..k]).responses)[t] <= AllAsked(Requests(calls[..k]))[t]
  {
    RequestsAreConserved(calls[..k]);
  }

  // ---- the store object ----

  class ServiceRequestStore {
    var pending: seq<Request>
    var responses: seq<Response>

    function Contents(): State
      reads this
    {
      State(pending, responses)
    }

    constructor ()
      ensures Contents() == EMPTY
    {
      pending, responses := [], [];
    }

    method Find(nonce: Value) returns (r: Option<Request>)
      ensures r == FindPending(pending, nonce)
    {
      for k := 0 to |pending|
        invariant FindPending(pending[k..], nonce) == FindPending(pending, nonce)
      {
        if pending[k].nonce == nonce { return Some(pending[k]); }
      }
      return None;
    }

    method Request(business: Address, wire: Wire) returns (r: Result<Request>)
      modifies this
      ensures Contents() == Step(old(Contents()), RecordRequest(business, wire))
      ensures r.Success? <==> Accepts(old(Contents()), RecordRequest(business, wire))
      ensures r.Success? ==> r == ReadRequest(business, wire)
    {
      r := ReadRequest(business, wire);
      if r.Failure? { return; }
      var existing := Find(r.value.nonce);
      if existing.Some? { return Failure("service request nonce already recorded"); }
      pending := pending + [r.value];
    }

    method Respond(wire: Wire, verified: bool) returns (r: Result<Response>)
      modifies this
      ensures Contents() == Step(old(Contents()), RecordResponse(wire, verified))
      ensures r.Success? <==> Accepts(old(Contents()), RecordResponse(wire, verified))
      ensures r.Success? ==> r == ReadResponse(wire)
    {
      r := ReadResponse(wire);
      if r.Failure? { return; }
      if !verified { return Failure("service response envelope failed verification"); }
      var response := r.value;
      if exists x <- responses :: x.nonce == response.nonce { return Failure("service response replay detected"); }
      var request := Find(response.requestNonce);
      if request.None? { return Failure("service response does not match a pending request"); }
      if response.business != request.value.business { return Failure("issuer is not the expected business"); }
      if response.serviceId != request.value.serviceId { return Failure("service id does not match"); }
      pending := WithoutRequest(pending, response.requestNonce);
      responses := responses + [response];
    }
  }
}
