/** The group-conversation protocol in terms of what is on the wire: which payload fields make an event
    acceptable, and what is held afterwards. Nothing here goes through the payload readers or the
    acceptance predicates it is about. */
module ConversationWire {
  import opened Values
  import opened Envelopes
  import opened Payloads
  import opened Conversations
  import opened ConversationSafety
  import opened WireFields

  // ---- fields ----

  /** 2 to 10 non-empty strings, no two the same. */
  ghost predicate IsGroup(v: Value) {
    && v.List? && 2 <= |v.items| <= 10
    && (forall i :: 0 <= i < |v.items| ==> v.items[i].Str? && v.items[i].text != "")
    && (forall i, j :: 0 <= i < j < |v.items| ==> v.items[i] != v.items[j])
  }

  /** The field lists exactly these values: a list its elements, a string its characters, a dict its
      keys, and an empty or missing field nothing. */
  ghost predicate Declares(p: map<string, Value>, name: string, xs: set<Value>) {
    if name !in p || IsEmpty(p[name]) then xs == {}
    else match p[name]
      case List(items) => forall x :: x in xs <==> x in items
      case Str(text) => forall x :: x in xs <==> exists c <- text :: x == Str([c])
      case Dict(fields) => forall x :: x in xs <==> exists k <- fields :: x == Str(k)
      case _ => false
  }

  /** The nonce is there, and not logged for this conversation under this kind of event. */
  ghost predicate Unused(s: State, id: Value, kind: Operation, nonce: Value) {
    && !IsEmpty(nonce)
    && forall e <- s.events :: e.conversationId == id && e.kind == kind ==> e.nonce != nonce
  }

  lemma UnusedIsFresh(s: State, id: Value, kind: Operation, nonce: Value)
    ensures Fresh(s.events, id, kind, nonce) <==> Unused(s, id, kind, nonce)
  {
    EmptyIsFalsy(nonce);
  }

  lemma GroupIsMemberList(v: Value)
    ensures IsGroup(v) <==> v.List? && IsMemberList(v.items)
  {
    if v.List? && IsMemberList(v.items) {
      forall i | 0 <= i < |v.items| ensures v.items[i].Str? && v.items[i].text != "" {
        assert v.items[i] in v.items;
      }
    }
  }

  // ---- invitations ----

  /** Every check an invitation must pass. */
  ghost predicate InvitationOnWire(s: State, self: Address, d: Delivery) {
    && d.verified
    && Carries(d.envelope, "aap.group-invitation/v1", {"conversation_id", "purpose", "members", "convener", "nonce"})
    && var p := d.envelope.payload.fields;
    && IsGroup(p["members"]) && Str(self) in p["members"].items
    && p["convener"] in p["members"].items && p["convener"] == Str(d.envelope.iss)
    && Unused(s, p["conversation_id"], Invite, p["nonce"])
    && forall c <- s.conversations :: c.id != p["conversation_id"]
  }

  lemma HoldsExactly(s: State, id: Value)
    ensures Holds(s, id) <==> exists c <- s.conversations :: c.id == id
  {
    if c :| c in s.conversations && c.id == id {
      var k :| 0 <= k < |s.conversations| && s.conversations[k] == c;
    }
  }

  lemma InvitationExactly(s: State, self: Address, d: Delivery)
    requires d.op.Invite?
    ensures Accepts(s, self, d) <==> InvitationOnWire(s, self, d)
  {
    if Carries(d.envelope, d.envelope.payloadType, {"conversation_id", "purpose", "members", "convener", "nonce"}) {
      var p := d.envelope.payload.fields;
      GroupIsMemberList(p["members"]);
      UnusedIsFresh(s, p["conversation_id"], Invite, p["nonce"]);
      HoldsExactly(s, p["conversation_id"]);
    }
  }

  /** An accepted event is logged under its id, kind and nonce, with its issuer, envelope and time. */
  ghost predicate Logged(s: State, t: State, d: Delivery) {
    && d.envelope.payload.Dict? && {"conversation_id", "nonce"} <= d.envelope.payload.fields.Keys
    && var p := d.envelope.payload.fields;
    t.events == s.events + [Event(p["conversation_id"], d.op, d.envelope.iss, p["nonce"], d.envelope, d.recordedAt)]
  }

  /** What an accepted invitation opens, field by field. */
  lemma InvitationOutcome(s: State, self: Address, d: Delivery)
    requires d.op.Invite? && InvitationOnWire(s, self, d)
    ensures var t := Step(s, self, d);
            var p := d.envelope.payload.fields;
            && Logged(s, t, d)
            && t.conversations == s.conversations + [Conversation(
                 p["conversation_id"], p["purpose"], p["members"].items, p["convener"], d.at, None,
                 if "name" in p && !IsEmpty(p["name"]) then p["name"] else Null,
                 if "goal" in p then p["goal"] else Str(""),
                 None)]
  {
    InvitationExactly(s, self, d);
    var p := d.envelope.payload.fields;
    EmptyIsFalsy(Get(p, "name"));
  }

  // ---- the addressed conversation ----

  lemma IndexOfHeld(cs: seq<Conversation>, k: nat)
    requires DistinctIds(cs) && k < |cs|
    ensures IndexOf(cs, cs[k].id) == k
  {
  }

  lemma {:induction false} NothingDropped(cs: seq<Conversation>, id: Value)
    requires forall c <- cs :: c.id != id
    ensures Drop(cs, id) == cs
  {
    if cs != [] { NothingDropped(cs[1..], id); }
  }

  lemma JoinThree(c: Conversation, before: seq<Conversation>, after: seq<Conversation>)
    ensures [c] + (before + after) == ([c] + before) + after
  {
  }

  lemma DropHead(cs: seq<Conversation>)
    requires DistinctIds(cs) && cs != []
    ensures Drop(cs, cs[0].id) == cs[1..]
  {
    forall c <- cs[1..] ensures c.id != cs[0].id {
      var j :| 0 <= j < |cs[1..]| && cs[1..][j] == c;
      assert cs[j + 1] == c;
    }
    NothingDropped(cs[1..], cs[0].id);
  }

  lemma {:induction false} DropAt(cs: seq<Conversation>, k: nat)
    requires DistinctIds(cs) && k < |cs|
    ensures Drop(cs, cs[k].id) == cs[..k] + cs[k + 1..]
  {
    if k == 0 {
      DropHead(cs);
      assert cs[..0] + cs[1..] == cs[1..];
    } else {
      var rest, before, after := cs[1..], cs[1..][..k - 1], cs[1..][k..];
      DropAt(rest, k - 1);
      assert cs[0].id != cs[k].id;
      assert cs[..k] == [cs[0]] + before && cs[k + 1..] == after;
      JoinThree(cs[0], before, after);
    }
  }

  /** The only conversation with this id, among distinct ones, at its place. */
  ghost predicate At(s: State, k: nat, id: Value) {
    k < |s.conversations| && s.conversations[k].id == id
  }

  /** The conversation at this place is replaced. */
  ghost predicate ReplacedAt(s: State, t: State, k: nat, c: Conversation) {
    k < |s.conversations| && t.conversations == s.conversations[k := c]
  }

  /** The conversation at this place is gone, the others stay in order. */
  ghost predicate DroppedAt(s: State, t: State, k: nat) {
    k < |s.conversations| && t.conversations == s.conversations[..k] + s.conversations[k + 1..]
  }

  lemma StepAt(s: State, self: Address, d: Delivery, k: nat)
    requires DistinctIds(s.conversations) && !d.op.Invite? && Accepts(s, self, d)
    requires At(s, k, Notice(d).value.conversationId)
    ensures Next(s.conversations[k], self, d).Some?
        ==> ReplacedAt(s, Step(s, self, d), k, Next(s.conversations[k], self, d).value)
    ensures Next(s.conversations[k], self, d).None? ==> DroppedAt(s, Step(s, self, d), k)
  {
    IndexOfHeld(s.conversations, k);
    DropAt(s.conversations, k);
  }

  lemma HeldAt(s: State, k: nat, id: Value)
    requires DistinctIds(s.conversations) && At(s, k, id)
    ensures Holds(s, id) && Held(s, id) == s.conversations[k]
  {
    IndexOfHeld(s.conversations, k);
  }

  // ---- membership updates ----

  /** Every check an update of the conversation `c` must pass. */
  ghost predicate UpdateOnWire(s: State, c: Conversation, d: Delivery) {
    && d.verified
    && Carries(d.envelope, "aap.group-membership-update/v1", {"conversation_id", "members", "convener", "nonce"})
    && var p := d.envelope.payload.fields;
    && p["conversation_id"] == c.id && IsGroup(p["members"]) && p["convener"] in p["members"].items
    && Unused(s, c.id, Update, p["nonce"])
    && c.completedAt == None && Str(d.envelope.iss) == c.convener
    && Declares(p, "added", (set m | m in p["members"].items && m !in c.members))
    && Declares(p, "removed", (set m | m in c.members && m !in p["members"].items))
    && (if "convener_changed_from" !in p || p["convener_changed_from"] == Null then p["convener"] == c.convener
        else p["convener_changed_from"] == c.convener && p["convener"] != c.convener)
  }

  /** What `ListedValues` gives is what the field declares, and nothing else is. */
  lemma DeclaresExactly(p: map<string, Value>, name: string, xs: set<Value>)
    ensures ListedValues(Get(p, name)) == Success(xs) <==> Declares(p, name, xs)
  {
    EmptyIsFalsy(Get(p, name));
    if name in p && !IsEmpty(p[name]) {
      match p[name] {
        case List(items) => assert Declares(p, name, xs) ==> Elements(items) == xs;
        case Str(text) =>
          var listed := set c | c in text :: Str([c]);
          assert Declares(p, name, xs) ==> listed == xs;
        case Dict(fields) =>
          var listed := set k | k in fields :: Str(k);
          assert Declares(p, name, xs) ==> listed == xs;
        case _ =>
      }
    }
  }

  lemma UpdateReads(d: Delivery)
    requires d.op.Update?
    ensures Notice(d).Success? ==>
      && Carries(d.envelope, d.envelope.payloadType, {"conversation_id", "members", "convener", "nonce"})
      && var p := d.envelope.payload.fields;
      && IsGroup(p["members"]) && p["convener"] in p["members"].items
      && ListedValues(Get(p, "added")).Success? && ListedValues(Get(p, "removed")).Success?
      && ParseMembershipUpdate(d.envelope.payload)
         == Success(GroupMembershipUpdate(p["conversation_id"], p["members"].items, p["convener"],
                                          ListedValues(Get(p, "added")).value, ListedValues(Get(p, "removed")).value,
                                          if "convener_changed_from" in p then p["convener_changed_from"] else Null,
                                          p["nonce"]))
  {
    if Notice(d).Success? { GroupIsMemberList(d.envelope.payload.fields["members"]); }
  }

  lemma UpdateExactly(s: State, self: Address, d: Delivery, k: nat)
    requires d.op.Update? && DistinctIds(s.conversations) && d.envelope.payload.Dict?
    requires "conversation_id" in d.envelope.payload.fields && At(s, k, d.envelope.payload.fields["conversation_id"])
    ensures Accepts(s, self, d) <==> UpdateOnWire(s, s.conversations[k], d)
  {
    var p, c := d.envelope.payload.fields, s.conversations[k];
    UpdateReads(d);
    HeldAt(s, k, c.id);
    if "members" in p {
      GroupIsMemberList(p["members"]);
      if p["members"].List? {
        var members := p["members"].items;
        assert Elements(members) - Elements(c.members) == set m | m in members && m !in c.members;
        assert Elements(c.members) - Elements(members) == set m | m in c.members && m !in members;
        DeclaresExactly(p, "added", Elements(members) - Elements(c.members));
        DeclaresExactly(p, "removed", Elements(c.members) - Elements(members));
      }
    }
    if "nonce" in p { UnusedIsFresh(s, c.id, Update, p["nonce"]); }
  }

  /** What an accepted update makes of the conversation: exactly the declared members and convener, or
      nothing when the local agent is not among them. */
  lemma UpdateOutcome(s: State, self: Address, d: Delivery, k: nat)
    requires d.op.Update? && DistinctIds(s.conversations) && k < |s.conversations|
    requires UpdateOnWire(s, s.conversations[k], d)
    ensures var t, c, p := Step(s, self, d), s.conversations[k], d.envelope.payload.fields;
            && Logged(s, t, d)
            && (if Str(self) in p["members"].items
                then ReplacedAt(s, t, k, c.(members := p["members"].items, convener := p["convener"]))
                else DroppedAt(s, t, k))
  {
    UpdateExactly(s, self, d, k);
    UpdateReads(d);
    StepAt(s, self, d, k);
  }

  // ---- leaves and completions ----

  ghost predicate LeaveOnWire(s: State, c: Conversation, d: Delivery) {
    && d.verified && Carries(d.envelope, "aap.group-leave/v1", {"conversation_id", "nonce"})
    && var p := d.envelope.payload.fields;
    && p["conversation_id"] == c.id && Unused(s, c.id, Leave, p["nonce"])
    && c.completedAt == None && Str(d.envelope.iss) in c.members && Str(d.envelope.iss) != c.convener
  }

  ghost predicate CompleteOnWire(s: State, c: Conversation, d: Delivery) {
    && d.verified && Carries(d.envelope, "aap.group-complete/v1", {"conversation_id", "outcome", "nonce"})
    && var p := d.envelope.payload.fields;
    && p["conversation_id"] == c.id && Unused(s, c.id, Complete, p["nonce"])
    && c.completedAt == None && Str(d.envelope.iss) == c.convener
  }

  lemma LeaveExactly(s: State, self: Address, d: Delivery, k: nat)
    requires d.op.Leave? && DistinctIds(s.conversations) && d.envelope.payload.Dict?
    requires "conversation_id" in d.envelope.payload.fields && At(s, k, d.envelope.payload.fields["conversation_id"])
    ensures Accepts(s, self, d) <==> LeaveOnWire(s, s.conversations[k], d)
  {
    var p, c := d.envelope.payload.fields, s.conversations[k];
    HeldAt(s, k, c.id);
    if "nonce" in p { UnusedIsFresh(s, c.id, Leave, p["nonce"]); }
  }

  lemma CompleteExactly(s: State, self: Address, d: Delivery, k: nat)
    requires d.op.Complete? && DistinctIds(s.conversations) && d.envelope.payload.Dict?
    requires "conversation_id" in d.envelope.payload.fields && At(s, k, d.envelope.payload.fields["conversation_id"])
    ensures Accepts(s, self, d) <==> CompleteOnWire(s, s.conversations[k], d)
  {
    var p, c := d.envelope.payload.fields, s.conversations[k];
    HeldAt(s, k, c.id);
    if "nonce" in p { UnusedIsFresh(s, c.id, Complete, p["nonce"]); }
  }

  /** An accepted leave takes out exactly its issuer and keeps the others in order, or drops the
      conversation when the issuer is the local agent or would leave it alone. */
  lemma LeaveOutcome(s: State, self: Address, d: Delivery, k: nat) returns (j: nat)
    requires d.op.Leave? && Inv(s, self) && k < |s.conversations| && LeaveOnWire(s, s.conversations[k], d)
    ensures var t, c := Step(s, self, d), s.conversations[k];
            && Logged(s, t, d)
            && j < |c.members| && c.members[j] == Str(d.envelope.iss)
            && (if d.envelope.iss != self && |c.members| > 2
                then ReplacedAt(s, t, k, c.(members := c.members[..j] + c.members[j + 1..]))
                else DroppedAt(s, t, k))
  {
    var c := s.conversations[k];
    LeaveExactly(s, self, d, k);
    StepAt(s, self, d, k);
    j :| 0 <= j < |c.members| && c.members[j] == Str(d.envelope.iss);
    assert Sound(c, self);
    WithoutAt(c.members, j);
  }

  lemma {:induction false} NothingTaken(xs: seq<Value>, x: Value)
    requires x !in xs
    ensures Without(xs, x) == xs
  {
    if xs != [] { NothingTaken(xs[1..], x); }
  }

  lemma {:induction false} WithoutAt(xs: seq<Value>, j: nat)
    requires Distinct(xs) && j < |xs|
    ensures Without(xs, xs[j]) == xs[..j] + xs[j + 1..]
  {
    if j == 0 {
      assert xs[0] !in xs[1..];
      NothingTaken(xs[1..], xs[0]);
      assert xs[..0] + xs[1..] == xs[1..];
    } else {
      WithoutAt(xs[1..], j - 1);
      assert xs[1..][..j - 1] == xs[1..j] && xs[1..][j..] == xs[j + 1..];
      assert xs[..j] == [xs[0]] + xs[1..j];
    }
  }

  lemma CompleteOutcome(s: State, self: Address, d: Delivery, k: nat)
    requires d.op.Complete? && DistinctIds(s.conversations) && k < |s.conversations|
    requires CompleteOnWire(s, s.conversations[k], d)
    ensures var t, c := Step(s, self, d), s.conversations[k];
            Logged(s, t, d) && ReplacedAt(s, t, k, c.(completedAt := Some(d.at)))
  {
    CompleteExactly(s, self, d, k);
    StepAt(s, self, d, k);
  }

  /** An event for a conversation that is not held is refused. */
  lemma UnknownIsRefused(s: State, self: Address, d: Delivery)
    requires !d.op.Invite?
    requires d.envelope.payload.Dict? && "conversation_id" in d.envelope.payload.fields ==>
      forall c <- s.conversations :: c.id != d.envelope.payload.fields["conversation_id"]
    ensures !Accepts(s, self, d)
  {
    if Notice(d).Success? { HoldsExactly(s, Notice(d).value.conversationId); }
  }

  // ---- the convener can make any proper change ----

  /** The payload of an update to these members and this convener, which declares the two differences and
      the handoff, if there is one. */
  ghost predicate IsUpdatePayload(p: map<string, Value>, c: Conversation, members: seq<Value>, convener: Value,
                                  added: seq<Value>, removed: seq<Value>, nonce: Value)
  {
    && {"conversation_id", "members", "convener", "added", "removed", "nonce"} <= p.Keys
    && p["conversation_id"] == c.id && p["members"] == List(members) && p["convener"] == convener
    && p["added"] == List(added) && (forall m :: m in added <==> m in members && m !in c.members)
    && p["removed"] == List(removed) && (forall m :: m in removed <==> m in c.members && m !in members)
    && (if convener == c.convener then "convener_changed_from" !in p
        else "convener_changed_from" in p && p["convener_changed_from"] == c.convener)
    && p["nonce"] == nonce
  }

  /** Any member list and any convener in it: signed by the current convener, with the differences and
      the handoff declared and an unused nonce, the update is accepted, and then exactly these members and
      this convener are held. */
  lemma ConvenerMayChange(s: State, self: Address, d: Delivery, k: nat, members: seq<Value>, convener: Value,
                          added: seq<Value>, removed: seq<Value>, nonce: Value)
    requires Inv(s, self) && k < |s.conversations| && s.conversations[k].completedAt == None
    requires IsGroup(List(members)) && convener in members && Unused(s, s.conversations[k].id, Update, nonce)
    requires d.op.Update? && d.verified && d.envelope.payloadType == "aap.group-membership-update/v1"
    requires Str(d.envelope.iss) == s.conversations[k].convener && d.envelope.payload.Dict?
    requires IsUpdatePayload(d.envelope.payload.fields, s.conversations[k], members, convener, added, removed, nonce)
    ensures var t, c := Step(s, self, d), s.conversations[k];
            && Accepts(s, self, d) && Logged(s, t, d)
            && (if Str(self) in members then ReplacedAt(s, t, k, c.(members := members, convener := convener))
                else DroppedAt(s, t, k))
  {
    var p, c := d.envelope.payload.fields, s.conversations[k];
    assert Sound(c, self);
    assert IsEmpty(List(added)) ==> added == [];
    assert IsEmpty(List(removed)) ==> removed == [];
    assert Declares(p, "added", (set m | m in members && m !in c.members));
    assert Declares(p, "removed", (set m | m in c.members && m !in members));
    UpdateExactly(s, self, d, k);
    UpdateOutcome(s, self, d, k);
  }
}
