/** The log explains the state: who is in a conversation, who convenes it and by whose leave, and
    whether it is completed, all as a fold over the events recorded for it. */
module ConversationHistory {
  import opened Values
  import opened Envelopes
  import opened Payloads
  import opened Conversations
  import opened ConversationSafety

  // ---- the events of one conversation since it was last opened ----

  function Since(log: seq<Event>, id: Value): seq<Event> {
    if log == [] then []
    else
      var e := log[|log| - 1];
      var before := Since(log[..|log| - 1], id);
      if e.conversationId != id then before
      else if e.kind == Invite then [e]
      else before + [e]
  }

  function Invited(e: Event): seq<Value> {
    match ParseInvitation(e.envelope.payload)
    case Success(i) => i.members
    case Failure(_) => []
  }

  /** Declared additions: of a membership update, nothing otherwise. */
  function Added(e: Event): set<Value> {
    if e.kind != Update then {}
    else match ParseMembershipUpdate(e.envelope.payload)
      case Success(u) => u.added
      case Failure(_) => {}
  }

  /** Declared removals of a membership update, and the issuer of a leave. */
  function Removed(e: Event): set<Value> {
    if e.kind == Leave then {Str(e.issuer)}
    else if e.kind != Update then {}
    else match ParseMembershipUpdate(e.envelope.payload)
      case Success(u) => u.removed
      case Failure(_) => {}
  }

  /** The invited members, then additions and removals as declared, in order. */
  function MemberSet(h: seq<Event>): set<Value> {
    if h == [] then {}
    else if |h| == 1 then Elements(Invited(h[0]))
    else MemberSet(h[..|h| - 1]) + Added(h[|h| - 1]) - Removed(h[|h| - 1])
  }

  function TotalAdded(h: seq<Event>): nat {
    if h == [] then 0 else TotalAdded(h[..|h| - 1]) + |Added(h[|h| - 1])|
  }

  function TotalRemoved(h: seq<Event>): nat {
    if h == [] then 0 else TotalRemoved(h[..|h| - 1]) + |Removed(h[|h| - 1])|
  }

  /** A period under one convener, and the envelope that put it in place. */
  datatype Tenure = Tenure(convener: Value, grantedBy: Envelope)

  function Tenures(h: seq<Event>): seq<Tenure> {
    if h == [] then []
    else
      var e := h[|h| - 1];
      var before := Tenures(h[..|h| - 1]);
      if e.kind == Invite then
        (match ParseInvitation(e.envelope.payload)
         case Success(i) => [Tenure(i.convener, e.envelope)]
         case Failure(_) => before)
      else if e.kind == Update then
        (match ParseMembershipUpdate(e.envelope.payload)
         case Success(u) =>
           if u.convenerChangedFrom == Null then before else before + [Tenure(u.convener, e.envelope)]
         case Failure(_) => before)
      else before
  }

  /** `later` was put in place by an envelope of `earlier`'s convener that names it as the one handing off. */
  ghost predicate HandedOver(earlier: Tenure, later: Tenure) {
    && Str(later.grantedBy.iss) == earlier.convener
    && later.convener != earlier.convener
    && ParseMembershipUpdate(later.grantedBy.payload).Success?
    && ParseMembershipUpdate(later.grantedBy.payload).value.convenerChangedFrom == earlier.convener
  }

  /** An unbroken chain: the first convener invited in person, every later one was handed over to. */
  ghost predicate Legitimate(ts: seq<Tenure>) {
    && ts != []
    && Str(ts[0].grantedBy.iss) == ts[0].convener
    && forall k :: 0 < k < |ts| ==> HandedOver(ts[k - 1], ts[k])
  }

  /** The declared additions and removals add up to the members held, as a set and in number. */
  ghost predicate MembersExplained(h: seq<Event>, members: seq<Value>) {
    && h != []
    && MemberSet(h) == Elements(members)
    && |members| == |Invited(h[0])| + TotalAdded(h) - TotalRemoved(h)
  }

  /** The convener comes last in an unbroken chain of tenures. */
  ghost predicate ConvenerExplained(h: seq<Event>, convener: Value) {
    Legitimate(Tenures(h)) && Tenures(h)[|Tenures(h)| - 1].convener == convener
  }

  ghost predicate Completed(h: seq<Event>) {
    exists e <- h :: e.kind.Complete?
  }

  /** What the log says about a conversation that is held. */
  ghost predicate Explained(h: seq<Event>, c: Conversation) {
    && MembersExplained(h, c.members)
    && ConvenerExplained(h, c.convener)
    && (c.completedAt.Some? <==> Completed(h))
  }

  ghost predicate AllExplained(s: State) {
    forall c <- s.conversations :: Explained(Since(s.events, c.id), c)
  }

  lemma SizeOfUpdate(before: set<Value>, after: set<Value>)
    ensures |after| == |before| + |after - before| - |before - after|
    ensures before + (after - before) - (before - after) == after
  {
    assert after == (before * after) + (after - before);
    assert before == (before * after) + (before - after);
  }

  lemma OpenedIsExplained(i: GroupInvitation, d: Delivery, log: seq<Event>)
    requires d.op.Invite? && ParseInvitation(d.envelope.payload) == Success(i)
    requires Str(d.envelope.iss) == i.convener
    ensures Explained(Since(log + [LogEntry(d)], i.conversationId), Opened(i, d.at))
  {
    var e := LogEntry(d);
    assert (log + [e])[..|log|] == log;
    assert Since(log + [e], i.conversationId) == [e];
    assert [e][..0] == [];
  }

  lemma CompletedExtends(h: seq<Event>, e: Event)
    ensures Completed(h + [e]) <==> Completed(h) || e.kind.Complete?
  {
    assert e in h + [e];
    assert forall f <- h :: f in h + [e];
  }

  /** One more event, folded in. */
  lemma FoldsExtend(h: seq<Event>, e: Event)
    requires h != []
    ensures MemberSet(h + [e]) == MemberSet(h) + Added(e) - Removed(e)
    ensures TotalAdded(h + [e]) == TotalAdded(h) + |Added(e)|
    ensures TotalRemoved(h + [e]) == TotalRemoved(h) + |Removed(e)|
  {
    assert (h + [e])[..|h|] == h;
  }

  lemma TenuresExtend(h: seq<Event>, e: Event)
    ensures !e.kind.Invite? && !e.kind.Update? ==> Tenures(h + [e]) == Tenures(h)
  {
    assert (h + [e])[..|h|] == h;
  }

  lemma UpdatedConvener(c: Conversation, e: Event, u: GroupMembershipUpdate, h: seq<Event>)
    requires ConvenerExplained(h, c.convener)
    requires e.kind.Update? && ParseMembershipUpdate(e.envelope.payload) == Success(u)
    requires UpdateAllowed(c, e.envelope.iss, u)
    ensures ConvenerExplained(h + [e], u.convener)
  {
    assert (h + [e])[..|h|] == h;
    var granted := if u.convenerChangedFrom == Null then [] else [Tenure(u.convener, e.envelope)];
    assert Tenures(h + [e]) == Tenures(h) + granted;
  }

  lemma UpdatedMembers(c: Conversation, e: Event, u: GroupMembershipUpdate, h: seq<Event>)
    requires MembersExplained(h, c.members) && Distinct(c.members)
    requires e.kind.Update? && ParseMembershipUpdate(e.envelope.payload) == Success(u)
    requires UpdateAllowed(c, e.envelope.iss, u)
    ensures MembersExplained(h + [e], u.members)
  {
    FoldsExtend(h, e);
    SizeOfUpdate(Elements(c.members), Elements(u.members));
    CardinalityMeansDistinct(c.members);
    CardinalityMeansDistinct(u.members);
  }

  lemma RemainingMembers(c: Conversation, e: Event, h: seq<Event>)
    requires MembersExplained(h, c.members) && Distinct(c.members)
    requires e.kind.Leave? && Str(e.issuer) in c.members
    ensures MembersExplained(h + [e], Without(c.members, Str(e.issuer)))
  {
    FoldsExtend(h, e);
    WithoutKeepsDistinct(c.members, Str(e.issuer));
    assert Elements(Without(c.members, Str(e.issuer))) == Elements(c.members) - {Str(e.issuer)};
  }

  /** What an accepted event makes of a conversation is explained by the log with that event added. */
  lemma NextIsExplained(c: Conversation, self: Address, d: Delivery, h: seq<Event>)
    requires !d.op.Invite? && Notice(d).Success? && Distinct(c.members) && Explained(h, c)
    requires d.op.Update? ==> UpdateAllowed(c, d.envelope.iss, ParseMembershipUpdate(d.envelope.payload).value)
    requires d.op.Leave? ==> LeaveAllowed(c, d.envelope.iss)
    requires Next(c, self, d).Some?
    ensures Explained(h + [LogEntry(d)], Next(c, self, d).value)
  {
    var e := LogEntry(d);
    CompletedExtends(h, e);
    TenuresExtend(h, e);
    match d.op {
      case Update =>
        var u := ParseMembershipUpdate(d.envelope.payload).value;
        UpdatedMembers(c, e, u, h);
        UpdatedConvener(c, e, u, h);
      case Leave =>
        RemainingMembers(c, e, h);
      case Complete =>
        FoldsExtend(h, e);
        assert MembersExplained(h + [e], c.members);
    }
  }

  lemma SinceExtended(log: seq<Event>, e: Event)
    ensures Since(log + [e], e.conversationId)
         == if e.kind == Invite then [e] else Since(log, e.conversationId) + [e]
  {
    assert (log + [e])[..|log|] == log;
  }

  lemma InvitedIsExplained(s: State, self: Address, d: Delivery)
    requires Inv(s, self) && Accepts(s, self, d) && d.op.Invite?
    requires Holds(Step(s, self, d), Notice(d).value.conversationId)
    ensures var id := Notice(d).value.conversationId;
            Explained(Since(Step(s, self, d).events, id), Held(Step(s, self, d), id))
  {
    var i := ParseInvitation(d.envelope.payload).value;
    StepKeepsInv(s, self, d);
    HeldIsUnique(Step(s, self, d), Opened(i, d.at));
    OpenedIsExplained(i, d, s.events);
  }

  lemma ChangedIsExplained(s: State, self: Address, d: Delivery)
    requires Inv(s, self) && AllExplained(s) && Accepts(s, self, d) && !d.op.Invite?
    requires Holds(Step(s, self, d), Notice(d).value.conversationId)
    ensures var id := Notice(d).value.conversationId;
            Explained(Since(Step(s, self, d).events, id), Held(Step(s, self, d), id))
  {
    var id := Notice(d).value.conversationId;
    SinceExtended(s.events, LogEntry(d));
    DropExactly(s, self, d, id);
    NextIsExplained(Held(s, id), self, d, Since(s.events, id));
  }

  lemma AddressedStaysExplained(s: State, self: Address, d: Delivery)
    requires Inv(s, self) && AllExplained(s) && Accepts(s, self, d)
    requires Holds(Step(s, self, d), Notice(d).value.conversationId)
    ensures var id := Notice(d).value.conversationId;
            Explained(Since(Step(s, self, d).events, id), Held(Step(s, self, d), id))
  {
    if d.op.Invite? {
      InvitedIsExplained(s, self, d);
    } else {
      ChangedIsExplained(s, self, d);
    }
  }

  lemma OthersStayExplained(s: State, self: Address, d: Delivery, id: Value)
    requires Inv(s, self) && AllExplained(s) && Accepts(s, self, d)
    requires Notice(d).value.conversationId != id && Holds(Step(s, self, d), id)
    ensures Explained(Since(Step(s, self, d).events, id), Held(Step(s, self, d), id))
  {
    OthersUntouched(s, self, d, id);
    assert (s.events + [LogEntry(d)])[..|s.events|] == s.events;
  }

  lemma StepStaysExplained(s: State, self: Address, d: Delivery)
    requires Inv(s, self) && AllExplained(s)
    ensures AllExplained(Step(s, self, d))
  {
    if Accepts(s, self, d) {
      var t := Step(s, self, d);
      StepKeepsInv(s, self, d);
      forall c <- t.conversations ensures Explained(Since(t.events, c.id), c) {
        HeldIsUnique(t, c);
        if c.id == Notice(d).value.conversationId {
          AddressedStaysExplained(s, self, d);
        } else {
          OthersStayExplained(s, self, d, c.id);
        }
      }
    }
  }

  /** After any run the log accounts for every conversation held. Its members are the invited ones,
      with the accepted additions and removals applied in order, also in number; its convener is
      reached from the inviting one by handoffs, each issued by the convener of the time. */
  lemma {:induction false} RunStaysExplained(self: Address, ds: seq<Delivery>)
    ensures Inv(Run(EMPTY, self, ds), self) && AllExplained(Run(EMPTY, self, ds))
  {
    RunKeepsInv(EMPTY, self, ds);
    if ds != [] {
      RunStaysExplained(self, ds[..|ds| - 1]);
      StepStaysExplained(Run(EMPTY, self, ds[..|ds| - 1]), self, ds[|ds| - 1]);
    }
  }
}
