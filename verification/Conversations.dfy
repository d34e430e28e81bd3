/** The group-conversation protocol of `aap/conversations.py` as a transition system:
    which deliveries a store accepts, and what it holds afterwards. */
module Conversations {
  import opened Values
  import opened Envelopes
  import opened Payloads

  datatype Conversation = Conversation(
    id: Value, purpose: Value, members: seq<Value>, convener: Value,
    acceptedAt: int, lastMessageAt: Option<int>, name: Value, goal: Value, completedAt: Option<int>)

  /** The four protocol methods, and the kinds of event they record. */
  datatype Operation = Invite | Update | Leave | Complete

  datatype Event = Event(
    conversationId: Value, kind: Operation, issuer: Address, nonce: Value,
    envelope: Envelope, recordedAt: int)

  datatype State = State(conversations: seq<Conversation>, events: seq<Event>)

  const EMPTY := State([], [])

  /** One call of a protocol method: the envelope handed over, whether its signature and freshness
      verified, and the two clock readings the method may take. */
  datatype Delivery = Delivery(op: Operation, envelope: Envelope, verified: bool, at: int, recordedAt: int)

  /** The payload type an operation requires; it is what a recorded event is labelled with. */
  function TypeOf(op: Operation): string {
    match op
    case Invite => INVITATION
    case Update => MEMBERSHIP_UPDATE
    case Leave => LEAVE
    case Complete => COMPLETE
  }

  /** `get`: position of the first conversation with this id, or the length when there is none. */
  function IndexOf(cs: seq<Conversation>, id: Value): (i: nat)
    ensures i <= |cs|
    ensures i < |cs| ==> cs[i].id == id
    ensures forall j :: 0 <= j < i ==> cs[j].id != id
  {
    if cs == [] || cs[0].id == id then 0 else 1 + IndexOf(cs[1..], id)
  }

  predicate Holds(s: State, id: Value) {
    IndexOf(s.conversations, id) < |s.conversations|
  }

  function Held(s: State, id: Value): (c: Conversation)
    requires Holds(s, id)
    ensures c in s.conversations && c.id == id
  {
    s.conversations[IndexOf(s.conversations, id)]
  }

  function Drop(cs: seq<Conversation>, id: Value): (r: seq<Conversation>)
    ensures forall c :: c in r <==> c in cs && c.id != id
  {
    if cs == [] then []
    else if cs[0].id == id then Drop(cs[1..], id)
    else [cs[0]] + Drop(cs[1..], id)
  }

  /** `_require_fresh_event`: the nonce is present and not yet logged under this id and kind. */
  predicate Fresh(events: seq<Event>, id: Value, kind: Operation, nonce: Value) {
    && Truthy(nonce)
    && forall e <- events :: !(e.conversationId == id && e.kind == kind && e.nonce == nonce)
  }

  /** Who, under which id and with which nonce: what all four payload kinds share. */
  function Notice(d: Delivery): Result<GroupNotice> {
    match d.op
    case Invite =>
      (match ParseInvitation(d.envelope.payload)
       case Success(i) => Success(GroupNotice(i.conversationId, i.nonce))
       case Failure(e) => Failure(e))
    case Update =>
      (match ParseMembershipUpdate(d.envelope.payload)
       case Success(u) => Success(GroupNotice(u.conversationId, u.nonce))
       case Failure(e) => Failure(e))
    case Leave => ParseLeave(d.envelope.payload)
    case Complete => ParseComplete(d.envelope.payload)
  }

  /** The convener stays, or the current convener names a different one. */
  predicate ConvenerRule(current: Value, u: GroupMembershipUpdate) {
    if u.convenerChangedFrom == Null then u.convener == current
    else u.convenerChangedFrom == current && u.convener != current
  }

  predicate InvitationAllowed(s: State, self: Address, issuer: Address, i: GroupInvitation) {
    Str(issuer) == i.convener && Str(self) in i.members && !Holds(s, i.conversationId)
  }

  predicate UpdateAllowed(c: Conversation, issuer: Address, u: GroupMembershipUpdate) {
    && c.completedAt.None?
    && Str(issuer) == c.convener
    && u.added == Elements(u.members) - Elements(c.members)
    && u.removed == Elements(c.members) - Elements(u.members)
    && ConvenerRule(c.convener, u)
  }

  predicate LeaveAllowed(c: Conversation, issuer: Address) {
    c.completedAt.None? && Str(issuer) in c.members && Str(issuer) != c.convener
  }

  predicate CompleteAllowed(c: Conversation, issuer: Address) {
    c.completedAt.None? && Str(issuer) == c.convener
  }

  /** The policy checks past the nonce, which depend on the kind of event. */
  predicate Authorized(s: State, self: Address, d: Delivery, id: Value)
    requires Notice(d).Success?
  {
    if d.op.Invite? then
      InvitationAllowed(s, self, d.envelope.iss, ParseInvitation(d.envelope.payload).value)
    else
      && Holds(s, id)
      && match d.op
         case Update =>
           UpdateAllowed(Held(s, id), d.envelope.iss, ParseMembershipUpdate(d.envelope.payload).value)
         case Leave => LeaveAllowed(Held(s, id), d.envelope.iss)
         case Complete => CompleteAllowed(Held(s, id), d.envelope.iss)
  }

  predicate Accepts(s: State, self: Address, d: Delivery) {
    && d.verified
    && d.envelope.payloadType == TypeOf(d.op)
    && Notice(d).Success?
    && Fresh(s.events, Notice(d).value.conversationId, d.op, Notice(d).value.nonce)
    && Authorized(s, self, d, Notice(d).value.conversationId)
  }

  function Opened(i: GroupInvitation, at: int): Conversation {
    Conversation(i.conversationId, i.purpose, i.members, i.convener, at, None,
                 if Truthy(i.name) then i.name else Null, i.goal, None)
  }

  function LogEntry(d: Delivery): Event
    requires Notice(d).Success?
  {
    Event(Notice(d).value.conversationId, d.op, d.envelope.iss, Notice(d).value.nonce,
          d.envelope, d.recordedAt)
  }

  /** What becomes of the addressed conversation: its next version, or nothing when it is dropped. */
  function Next(c: Conversation, self: Address, d: Delivery): Option<Conversation>
    requires !d.op.Invite? && Notice(d).Success?
  {
    match d.op
    case Update =>
      var u := ParseMembershipUpdate(d.envelope.payload).value;
      if Str(self) in u.members then Some(c.(members := u.members, convener := u.convener)) else None
    case Leave =>
      var rest := Without(c.members, Str(d.envelope.iss));
      if d.envelope.iss == self || |rest| < MIN_MEMBERS then None else Some(c.(members := rest))
    case Complete => Some(c.(completedAt := Some(d.at)))
  }

  /** The conversations after an accepted event. */
  function Resolved(cs: seq<Conversation>, self: Address, d: Delivery): seq<Conversation>
    requires Notice(d).Success?
  {
    var id := Notice(d).value.conversationId;
    var i := IndexOf(cs, id);
    if d.op.Invite? then cs + [Opened(ParseInvitation(d.envelope.payload).value, d.at)]
    else if i == |cs| then cs
    else match Next(cs[i], self, d)
      case None => Drop(cs, id)
      case Some(c) => cs[i := c]
  }

  function Step(s: State, self: Address, d: Delivery): State {
    if Accepts(s, self, d) then State(Resolved(s.conversations, self, d), s.events + [LogEntry(d)]) else s
  }

  /** The state of a store that belongs to `self`, started in `s`, after these calls. */
  function Run(s: State, self: Address, ds: seq<Delivery>): State {
    if ds == [] then s
    else Step(Run(s, self, ds[..|ds| - 1]), self, ds[|ds| - 1])
  }

  /** What the checks decide does not depend on the clock. */
  lemma AcceptsAtAnyTime(s: State, self: Address, d: Delivery, e: Delivery)
    requires d.op == e.op && d.envelope == e.envelope && d.verified == e.verified
    ensures Accepts(s, self, d) <==> Accepts(s, self, e)
  {
    assert Notice(d) == Notice(e);
  }
}
