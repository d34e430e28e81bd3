/** `ConversationStore` of `aap/conversations.py`: mutable conversation objects in a list, and an
    event list, updated in place. Every method is tied to `Conversations.Step`. */
module ConversationStores {
  import opened Values
  import opened Envelopes
  import opened Payloads
  import opened Conversations

  class ConversationRecord {
    const id: Value
    const purpose: Value
    var members: seq<Value>
    var convener: Value
    const acceptedAt: int
    const lastMessageAt: Option<int>
    const name: Value
    const goal: Value
    var completedAt: Option<int>

    constructor (id: Value, purpose: Value, members: seq<Value>, convener: Value, acceptedAt: int,
                 name: Value, goal: Value)
      ensures View() == Conversation(id, purpose, members, convener, acceptedAt, None, name, goal, None)
    {
      this.id, this.purpose, this.members, this.convener := id, purpose, members, convener;
      this.acceptedAt, this.lastMessageAt, this.name, this.goal := acceptedAt, None, name, goal;
      this.completedAt := None;
    }

    function View(): Conversation
      reads this
    {
      Conversation(id, purpose, members, convener, acceptedAt, lastMessageAt, name, goal, completedAt)
    }
  }

  ghost function Views(rs: seq<ConversationRecord>): (r: seq<Conversation>)
    reads rs
    ensures |r| == |rs| && forall i :: 0 <= i < |rs| ==> r[i] == rs[i].View()
  {
    seq(|rs|, i requires 0 <= i < |rs| reads rs => rs[i].View())
  }

  /** `[c for c in conversations if c.conversation_id != id]`. */
  function OtherRecords(rs: seq<ConversationRecord>, id: Value): (r: seq<ConversationRecord>)
    ensures forall c <- r :: c in rs
  {
    if rs == [] then []
    else if rs[0].id == id then OtherRecords(rs[1..], id)
    else [rs[0]] + OtherRecords(rs[1..], id)
  }

  lemma {:induction false} OthersStayDistinct(rs: seq<ConversationRecord>, id: Value)
    requires Distinct(rs)
    ensures Distinct(OtherRecords(rs, id))
  {
    if rs != [] {
      OthersStayDistinct(rs[1..], id);
      assert rs == [rs[0]] + rs[1..];
      assert rs[0] !in OtherRecords(rs[1..], id);
    }
  }

  lemma ViewsCons(r: ConversationRecord, rs: seq<ConversationRecord>)
    ensures Views([r] + rs) == [r.View()] + Views(rs)
  {
  }

  lemma {:induction false} ViewsOfOthers(rs: seq<ConversationRecord>, id: Value)
    ensures Views(OtherRecords(rs, id)) == Drop(Views(rs), id)
  {
    if rs != [] {
      var r, rest := rs[0], rs[1..];
      ViewsOfOthers(rest, id);
      assert rs == [r] + rest;
      ViewsCons(r, rest);
      ViewsCons(r, OtherRecords(rest, id));
      assert ([r.View()] + Views(rest))[1..] == Views(rest);
    }
  }

  /** Changing one record in place changes one position of the list. */
  lemma ViewsAfterChange(before: seq<Conversation>, rs: seq<ConversationRecord>, i: nat)
    requires |before| == |rs| && i < |rs|
    requires forall k :: 0 <= k < |rs| && k != i ==> rs[k].View() == before[k]
    ensures Views(rs) == before[i := rs[i].View()]
  {
  }

  datatype Outcome = Accepted(conversation: ConversationRecord?) | Rejected(error: string)

  class ConversationStore {
    var conversations: seq<ConversationRecord>
    var events: seq<Event>

    /** No record is listed twice, and no member list repeats a member. */
    ghost predicate Valid()
      reads this, conversations
    {
      && Distinct(conversations)
      && (forall c <- conversations :: Distinct(c.members))
    }

    ghost function Contents(): State
      reads this, conversations
    {
      State(Views(conversations), events)
    }

    constructor ()
      ensures Valid() && Contents() == EMPTY
    {
      conversations, events := [], [];
    }

    /** `c` is the record that stands for the conversation held under this id. */
    ghost predicate IsHeld(c: ConversationRecord?, id: Value)
      reads this, conversations
    {
      Holds(Contents(), id) && c == conversations[IndexOf(Contents().conversations, id)]
    }

    method Find(id: Value) returns (c: ConversationRecord?)
      ensures c != null <==> Holds(Contents(), id)
      ensures c != null ==> IsHeld(c, id)
    {
      ghost var views := Views(conversations);
      for k := 0 to |conversations|
        invariant forall j :: 0 <= j < k ==> views[j].id != id
      {
        if conversations[k].id == id {
          assert views[k].id == id && IndexOf(views, id) == k;
          return conversations[k];
        }
      }
      return null;
    }

    /** `_require_fresh_event`. */
    method IsFresh(id: Value, kind: Operation, nonce: Value) returns (unused: bool)
      ensures unused <==> Fresh(events, id, kind, nonce)
    {
      if !Truthy(nonce) { return false; }
      for k := 0 to |events|
        invariant forall j :: 0 <= j < k ==>
          !(events[j].conversationId == id && events[j].kind == kind && events[j].nonce == nonce)
      {
        var e := events[k];
        if e.conversationId == id && e.kind == kind && e.nonce == nonce { return false; }
      }
      return true;
    }

    /** `_coerce_envelope` and `_verify_group_envelope`. */
    method OpenEnvelope(wire: Wire, op: Operation, verified: bool) returns (r: Result<Envelope>)
      ensures r.Success? <==> wire.Parsed? && wire.envelope.payloadType == TypeOf(op) && verified
      ensures r.Success? ==> r.value == wire.envelope
    {
      if wire.Malformed? { return Failure("invalid envelope"); }
      if wire.envelope.payloadType != TypeOf(op) { return Failure("unexpected payload type"); }
      if !verified { return Failure("group envelope verification failed"); }
      return Success(wire.envelope);
    }

    method RecordEvent(id: Value, kind: Operation, issuer: Address, nonce: Value, envelope: Envelope, now: int)
      modifies this`events
      ensures events == old(events) + [Event(id, kind, issuer, nonce, envelope, now)]
    {
      events := events + [Event(id, kind, issuer, nonce, envelope, now)];
    }

    method AddConversation(conv: ConversationRecord)
      requires Valid() && conv !in conversations && Distinct(conv.members)
      modifies this`conversations
      ensures Valid() && Views(conversations) == old(Views(conversations)) + [conv.View()]
      ensures conversations == old(conversations) + [conv]
    {
      conversations := conversations + [conv];
    }

    method DropConversation(id: Value)
      requires Valid()
      modifies this`conversations
      ensures Valid() && Views(conversations) == Drop(old(Views(conversations)), id)
      ensures forall c <- conversations :: c in old(conversations) && c.id != id
    {
      ViewsOfOthers(conversations, id);
      OthersStayDistinct(conversations, id);
      conversations := OtherRecords(conversations, id);
      assert forall k :: 0 <= k < |conversations| ==> Views(conversations)[k].id == conversations[k].id;
    }

    /** `conv.members = ...; conv.convener = ...`, in place. */
    method SetMembers(conv: ConversationRecord, members: seq<Value>, convener: Value, ghost i: nat)
      requires Valid() && i < |conversations| && conv == conversations[i] && Distinct(members)
      modifies conv
      ensures Valid() && conv.View() == old(conv.View()).(members := members, convener := convener)
      ensures Views(conversations) == old(Views(conversations))[i := conv.View()]
    {
      conv.members := members;
      conv.convener := convener;
      ViewsAfterChange(old(Views(conversations)), conversations, i);
    }

    method SetCompleted(conv: ConversationRecord, at: int, ghost i: nat)
      requires Valid() && i < |conversations| && conv == conversations[i]
      modifies conv
      ensures Valid() && conv.View() == old(conv.View()).(completedAt := Some(at))
      ensures Views(conversations) == old(Views(conversations))[i := conv.View()]
    {
      conv.completedAt := Some(at);
      ViewsAfterChange(old(Views(conversations)), conversations, i);
    }

    // ---- the four protocol methods: first every check, then the change ----

    method CheckInvitation(self: Address, wire: Wire, verified: bool) returns (r: Result<GroupInvitation>)
      ensures r.Success? <==> wire.Parsed? && Accepts(Contents(), self, Delivery(Invite, wire.envelope, verified, 0, 0))
      ensures r.Success? ==> r == ParseInvitation(wire.envelope.payload)
    {
      var coerced := OpenEnvelope(wire, Invite, verified);
      if coerced.Failure? { return Failure(coerced.error); }
      var envelope := coerced.value;
      r := ParseInvitation(envelope.payload);
      if r.Failure? { return; }
      if Str(envelope.iss) != r.value.convener { return Failure("issuer does not match"); }
      if Str(self) !in r.value.members { return Failure("local agent is not in group members"); }
      var unused := IsFresh(r.value.conversationId, Invite, r.value.nonce);
      if !unused { return Failure("nonce missing or replayed"); }
      var existing := Find(r.value.conversationId);
      if existing != null { return Failure("conversation already exists"); }
    }

    method AcceptInvitation(self: Address, wire: Wire, verified: bool, at: int, recordedAt: int)
      returns (r: Outcome)
      requires Valid()
      modifies this
      ensures Valid() && forall c <- conversations :: c in old(conversations) || fresh(c)
      ensures wire.Malformed? ==> r.Rejected? && Contents() == old(Contents())
      ensures wire.Parsed? ==>
        var d := Delivery(Invite, wire.envelope, verified, at, recordedAt);
        && (r.Accepted? <==> Accepts(old(Contents()), self, d))
        && Contents() == Step(old(Contents()), self, d)
      ensures r.Accepted? ==> r.conversation != null && r.conversation in conversations && fresh(r.conversation)
    {
      var checked := CheckInvitation(self, wire, verified);
      if checked.Failure? { return Rejected(checked.error); }
      AcceptsAtAnyTime(Contents(), self, Delivery(Invite, wire.envelope, verified, at, recordedAt),
                       Delivery(Invite, wire.envelope, verified, 0, 0));
      var i := checked.value;
      var conv := new ConversationRecord(
        i.conversationId, i.purpose, i.members, i.convener, at, if Truthy(i.name) then i.name else Null, i.goal);
      AddConversation(conv);
      RecordEvent(i.conversationId, Invite, wire.envelope.iss, i.nonce, wire.envelope, recordedAt);
      return Accepted(conv);
    }

    method CheckMembershipUpdate(self: Address, wire: Wire, verified: bool)
      returns (r: Result<GroupMembershipUpdate>, conv: ConversationRecord?)
      requires Valid()
      ensures r.Success? <==> wire.Parsed? && Accepts(Contents(), self, Delivery(Update, wire.envelope, verified, 0, 0))
      ensures r.Success? ==> r == ParseMembershipUpdate(wire.envelope.payload)
      ensures r.Success? ==> IsHeld(conv, r.value.conversationId)
    {
      conv := null;
      var coerced := OpenEnvelope(wire, Update, verified);
      if coerced.Failure? { return Failure(coerced.error), null; }
      r := ParseMembershipUpdate(coerced.value.payload);
      if r.Failure? { return; }
      var update := r.value;
      conv := Find(update.conversationId);
      if conv == null { return Failure("unknown conversation"), null; }
      var unused := IsFresh(update.conversationId, Update, update.nonce);
      if !unused { return Failure("nonce missing or replayed"), null; }
      if conv.completedAt != None { return Failure("conversation is completed"), null; }
      if Str(coerced.value.iss) != conv.convener { return Failure("issuer does not match"), null; }
      var objection := CheckDiff(conv, update);
      if objection.Some? { return Failure(objection.value), null; }
    }

    /** The membership diff and the convener rule. */
    method CheckDiff(conv: ConversationRecord, update: GroupMembershipUpdate) returns (objection: Option<string>)
      requires Distinct(conv.members) && IsMemberList(update.members) && update.convener in update.members
      ensures objection.None? <==>
        && update.added == Elements(update.members) - Elements(conv.members)
        && update.removed == Elements(conv.members) - Elements(update.members)
        && ConvenerRule(conv.convener, update)
    {
      var oldMembers, newMembers := Elements(conv.members), Elements(update.members);
      CardinalityMeansDistinct(conv.members);
      CardinalityMeansDistinct(update.members);
      if |oldMembers| != |conv.members| || |newMembers| != |update.members| {
        return Some("conversation members must be unique");
      }
      if update.added != newMembers - oldMembers { return Some("added members do not match"); }
      if update.removed != oldMembers - newMembers { return Some("removed members do not match"); }
      if update.convenerChangedFrom == Null {
        if update.convener != conv.convener { return Some("convener changed without convener_changed_from"); }
      } else {
        if update.convenerChangedFrom != conv.convener { return Some("convener_changed_from does not match"); }
        if update.convener == conv.convener { return Some("convener handoff did not change convener"); }
      }
      if update.convener !in newMembers { return Some("new convener must be in members"); }
      return None;
    }

    method ApplyMembershipUpdate(self: Address, wire: Wire, verified: bool, recordedAt: int)
      returns (r: Outcome)
      requires Valid()
      modifies this, conversations
      ensures Valid() && forall c <- conversations :: c in old(conversations)
      ensures wire.Malformed? ==> r.Rejected? && Contents() == old(Contents())
      ensures wire.Parsed? ==>
        var d := Delivery(Update, wire.envelope, verified, recordedAt, recordedAt);
        && (r.Accepted? <==> Accepts(old(Contents()), self, d))
        && Contents() == Step(old(Contents()), self, d)
      ensures r.Accepted? ==> Kept(r.conversation, ParseMembershipUpdate(wire.envelope.payload).value.conversationId)
    {
      var checked, conv := CheckMembershipUpdate(self, wire, verified);
      if checked.Failure? { return Rejected(checked.error); }
      AcceptsAtAnyTime(Contents(), self, Delivery(Update, wire.envelope, verified, recordedAt, recordedAt),
                       Delivery(Update, wire.envelope, verified, 0, 0));
      r := CommitMembershipUpdate(self, wire.envelope, checked.value, conv, recordedAt);
    }

    /** The changes of an update that passed every check. */
    method CommitMembershipUpdate(self: Address, envelope: Envelope, update: GroupMembershipUpdate,
                                  conv: ConversationRecord, recordedAt: int)
      returns (r: Outcome)
      requires Valid() && ParseMembershipUpdate(envelope.payload) == Success(update)
      requires Accepts(Contents(), self, Delivery(Update, envelope, true, recordedAt, recordedAt))
      requires IsHeld(conv, update.conversationId)
      modifies this, conversations
      ensures Valid() && forall c <- conversations :: c in old(conversations)
      ensures r.Accepted? && Kept(r.conversation, update.conversationId)
      ensures Contents() == Step(old(Contents()), self, Delivery(Update, envelope, true, recordedAt, recordedAt))
    {
      StepByNext(Contents(), self, Delivery(Update, envelope, true, recordedAt, recordedAt));
      ghost var i := IndexOf(Contents().conversations, update.conversationId);
      RecordEvent(update.conversationId, Update, envelope.iss, update.nonce, envelope, recordedAt);
      if Str(self) !in Elements(update.members) {
        DropConversation(update.conversationId);
        return Accepted(null);
      }
      SetMembers(conv, update.members, update.convener, i);
      return Accepted(conv);
    }

    /** What an accepted call returns: the addressed record, or nothing when none is left under its id. */
    ghost predicate Kept(conv: ConversationRecord?, id: Value)
      reads this
    {
      if conv == null then forall c <- conversations :: c.id != id else conv in conversations && conv.id == id
    }

    method CheckLeave(self: Address, wire: Wire, verified: bool)
      returns (r: Result<GroupNotice>, conv: ConversationRecord?)
      requires Valid()
      ensures r.Success? <==> wire.Parsed? && Accepts(Contents(), self, Delivery(Leave, wire.envelope, verified, 0, 0))
      ensures r.Success? ==> r == ParseLeave(wire.envelope.payload)
      ensures r.Success? ==> IsHeld(conv, r.value.conversationId)
    {
      conv := null;
      var coerced := OpenEnvelope(wire, Leave, verified);
      if coerced.Failure? { return Failure(coerced.error), null; }
      r := ParseLeave(coerced.value.payload);
      if r.Failure? { return; }
      var leave := r.value;
      conv := Find(leave.conversationId);
      if conv == null { return Failure("unknown conversation"), null; }
      var unused := IsFresh(leave.conversationId, Leave, leave.nonce);
      if !unused { return Failure("nonce missing or replayed"), null; }
      if conv.completedAt != None { return Failure("conversation is completed"), null; }
      if Str(coerced.value.iss) !in conv.members { return Failure("leaver is not a group member"), null; }
      if Str(coerced.value.iss) == conv.convener { return Failure("convener must hand off before leaving"), null; }
    }

    /** A member is taken out; a group of one is not kept. */
    method RemoveMember(conv: ConversationRecord, member: Value, ghost i: nat) returns (kept: bool)
      requires Valid() && i < |conversations| && conv == conversations[i]
      modifies this`conversations, conv
      ensures Valid() && forall c <- conversations :: c in old(conversations)
      ensures kept <==> |Without(old(conv.members), member)| >= MIN_MEMBERS
      ensures kept ==> conv in conversations
      ensures kept ==>
        Views(conversations)
        == old(Views(conversations))[i := old(conv.View()).(members := Without(old(conv.members), member))]
      ensures !kept ==> Views(conversations) == Drop(old(Views(conversations)), conv.id)
      ensures !kept ==> forall c <- conversations :: c.id != conv.id
    {
      WithoutKeepsDistinct(conv.members, member);
      SetMembers(conv, Without(conv.members, member), conv.convener, i);
      if |conv.members| < 2 {
        DropIgnoresDropped(old(Views(conversations)), Views(conversations), conv.id, i);
        DropConversation(conv.id);
        return false;
      }
      return true;
    }

    method ApplyLeave(self: Address, wire: Wire, verified: bool, recordedAt: int) returns (r: Outcome)
      requires Valid()
      modifies this, conversations
      ensures Valid() && forall c <- conversations :: c in old(conversations)
      ensures wire.Malformed? ==> r.Rejected? && Contents() == old(Contents())
      ensures wire.Parsed? ==>
        var d := Delivery(Leave, wire.envelope, verified, recordedAt, recordedAt);
        && (r.Accepted? <==> Accepts(old(Contents()), self, d))
        && Contents() == Step(old(Contents()), self, d)
      ensures r.Accepted? ==> Kept(r.conversation, ParseLeave(wire.envelope.payload).value.conversationId)
    {
      var checked, conv := CheckLeave(self, wire, verified);
      if checked.Failure? { return Rejected(checked.error); }
      AcceptsAtAnyTime(Contents(), self, Delivery(Leave, wire.envelope, verified, recordedAt, recordedAt),
                       Delivery(Leave, wire.envelope, verified, 0, 0));
      var leave := checked.value;
      StepByNext(Contents(), self, Delivery(Leave, wire.envelope, verified, recordedAt, recordedAt));
      ghost var i := IndexOf(Contents().conversations, leave.conversationId);
      RecordEvent(leave.conversationId, Leave, wire.envelope.iss, leave.nonce, wire.envelope, recordedAt);
      if wire.envelope.iss == self {
        DropConversation(leave.conversationId);
        return Accepted(null);
      }
      var kept := RemoveMember(conv, Str(wire.envelope.iss), i);
      return Accepted(if kept then conv else null);
    }

    method CheckComplete(self: Address, wire: Wire, verified: bool)
      returns (r: Result<GroupNotice>, conv: ConversationRecord?)
      requires Valid()
      ensures r.Success? <==>
        wire.Parsed? && Accepts(Contents(), self, Delivery(Complete, wire.envelope, verified, 0, 0))
      ensures r.Success? ==> r == ParseComplete(wire.envelope.payload)
      ensures r.Success? ==> IsHeld(conv, r.value.conversationId)
    {
      conv := null;
      var coerced := OpenEnvelope(wire, Complete, verified);
      if coerced.Failure? { return Failure(coerced.error), null; }
      r := ParseComplete(coerced.value.payload);
      if r.Failure? { return; }
      var complete := r.value;
      conv := Find(complete.conversationId);
      if conv == null { return Failure("unknown conversation"), null; }
      var unused := IsFresh(complete.conversationId, Complete, complete.nonce);
      if !unused { return Failure("nonce missing or replayed"), null; }
      if conv.completedAt != None { return Failure("conversation is completed"), null; }
      if Str(coerced.value.iss) != conv.convener { return Failure("issuer does not match"), null; }
    }

    method ApplyComplete(self: Address, wire: Wire, verified: bool, at: int, recordedAt: int)
      returns (r: Outcome)
      requires Valid()
      modifies this, conversations
      ensures Valid() && forall c <- conversations :: c in old(conversations)
      ensures wire.Malformed? ==> r.Rejected? && Contents() == old(Contents())
      ensures wire.Parsed? ==>
        var d := Delivery(Complete, wire.envelope, verified, at, recordedAt);
        && (r.Accepted? <==> Accepts(old(Contents()), self, d))
        && Contents() == Step(old(Contents()), self, d)
      ensures r.Accepted? ==> r.conversation != null
      ensures r.Accepted? ==> Kept(r.conversation, ParseComplete(wire.envelope.payload).value.conversationId)
    {
      var checked, conv := CheckComplete(self, wire, verified);
      if checked.Failure? { return Rejected(checked.error); }
      AcceptsAtAnyTime(Contents(), self, Delivery(Complete, wire.envelope, verified, at, recordedAt),
                       Delivery(Complete, wire.envelope, verified, 0, 0));
      var complete := checked.value;
      StepByNext(Contents(), self, Delivery(Complete, wire.envelope, verified, at, recordedAt));
      ghost var i := IndexOf(Contents().conversations, complete.conversationId);
      SetCompleted(conv, at, i);
      RecordEvent(complete.conversationId, Complete, wire.envelope.iss, complete.nonce, wire.envelope, recordedAt);
      return Accepted(conv);
    }
  }

  /** An accepted event changes one place of the list, or drops the conversation there. */
  lemma StepByNext(s: State, self: Address, d: Delivery)
    requires !d.op.Invite? && Accepts(s, self, d)
    ensures var id := Notice(d).value.conversationId;
            var i := IndexOf(s.conversations, id);
            && i < |s.conversations|
            && Step(s, self, d)
               == State(match Next(s.conversations[i], self, d)
                        case None => Drop(s.conversations, id)
                        case Some(c) => s.conversations[i := c],
                        s.events + [LogEntry(d)])
  {
  }

  /** Changing a conversation that is dropped anyway makes no difference to what remains. */
  lemma {:induction false} DropIgnoresDropped(cs: seq<Conversation>, cs': seq<Conversation>, id: Value, i: nat)
    requires i < |cs| == |cs'| && cs[i].id == cs'[i].id == id
    requires forall k :: 0 <= k < |cs| && k != i ==> cs'[k] == cs[k]
    ensures Drop(cs, id) == Drop(cs', id)
  {
    if i == 0 {
      assert cs[1..] == cs'[1..];
    } else {
      DropIgnoresDropped(cs[1..], cs'[1..], id, i - 1);
    }
  }
}
