/** What every run of the group-conversation protocol keeps, whatever is delivered. */
module ConversationSafety {
  import opened Values
  import opened Envelopes
  import opened Payloads
  import opened Conversations

  ghost predicate DistinctIds(cs: seq<Conversation>) {
    forall i, j :: 0 <= i < j < |cs| ==> cs[i].id != cs[j].id
  }

  /** A conversation as its participants need it: a proper member list that includes the convener
      and the agent that keeps it. In particular nobody keeps a group of one. */
  ghost predicate Sound(c: Conversation, self: Address) {
    IsMemberList(c.members) && c.convener in c.members && Str(self) in c.members
  }

  ghost predicate SameKey(e: Event, f: Event) {
    e.conversationId == f.conversationId && e.kind == f.kind && e.nonce == f.nonce
  }

  /** No (conversation, kind, nonce) triple is logged twice, and every logged nonce is present. */
  ghost predicate DistinctKeys(log: seq<Event>) {
    && (forall i, j :: 0 <= i < j < |log| ==> !SameKey(log[i], log[j]))
    && (forall e <- log :: Truthy(e.nonce))
  }

  ghost predicate Inv(s: State, self: Address) {
    && DistinctIds(s.conversations)
    && (forall c <- s.conversations :: Sound(c, self))
    && DistinctKeys(s.events)
  }

  // ---- lists of conversations ----

  lemma {:induction false} DropKeepsDistinctIds(cs: seq<Conversation>, id: Value)
    requires DistinctIds(cs)
    ensures DistinctIds(Drop(cs, id))
  {
    if cs != [] {
      assert cs == [cs[0]] + cs[1..];
      DropKeepsDistinctIds(cs[1..], id);
    }
  }

  /** With distinct ids the store holds exactly the conversations in its list, each under its id. */
  lemma HeldIsUnique(s: State, c: Conversation)
    requires DistinctIds(s.conversations) && c in s.conversations
    ensures Holds(s, c.id) && Held(s, c.id) == c
  {
    var k :| 0 <= k < |s.conversations| && s.conversations[k] == c;
    var i := IndexOf(s.conversations, c.id);
    assert i == k;
  }

  // ---- one step ----

  lemma LeaverRemoved(c: Conversation, self: Address, issuer: Address)
    requires Sound(c, self) && LeaveAllowed(c, issuer)
    ensures var rest := Without(c.members, Str(issuer));
            |rest| == |c.members| - 1 && Distinct(rest) && c.convener in rest
            && (self != issuer ==> Str(self) in rest)
  {
    WithoutKeepsDistinct(c.members, Str(issuer));
  }

  lemma NextIsSound(c: Conversation, self: Address, d: Delivery)
    requires !d.op.Invite? && Notice(d).Success? && Sound(c, self)
    requires d.op.Leave? ==> LeaveAllowed(c, d.envelope.iss)
    ensures Next(c, self, d).Some? ==> Next(c, self, d).value.id == c.id && Sound(Next(c, self, d).value, self)
  {
    if d.op.Leave? {
      LeaverRemoved(c, self, d.envelope.iss);
    }
  }

  lemma LogStaysDistinct(log: seq<Event>, e: Event)
    requires DistinctKeys(log) && Fresh(log, e.conversationId, e.kind, e.nonce)
    ensures DistinctKeys(log + [e])
  {
    forall i, j | 0 <= i < j < |log + [e]| ensures !SameKey((log + [e])[i], (log + [e])[j]) {
      assert (log + [e])[i] == log[i];
    }
  }

  lemma StepKeepsInv(s: State, self: Address, d: Delivery)
    requires Inv(s, self)
    ensures Inv(Step(s, self, d), self)
  {
    if Accepts(s, self, d) {
      LogStaysDistinct(s.events, LogEntry(d));
      if !d.op.Invite? {
        var id := Notice(d).value.conversationId;
        var i := IndexOf(s.conversations, id);
        NextIsSound(s.conversations[i], self, d);
        DropKeepsDistinctIds(s.conversations, id);
      }
    }
  }

  /** Reachable states are sound: distinct ids, 2 to 10 distinct non-empty members including the
      convener and the local agent, and no event logged twice. */
  lemma {:induction false} RunKeepsInv(s: State, self: Address, ds: seq<Delivery>)
    requires Inv(s, self)
    ensures Inv(Run(s, self, ds), self)
  {
    if ds != [] {
      RunKeepsInv(s, self, ds[..|ds| - 1]);
      StepKeepsInv(Run(s, self, ds[..|ds| - 1]), self, ds[|ds| - 1]);
    }
  }

  // ---- runs ----

  lemma {:induction false} RunSplit(s: State, self: Address, ds: seq<Delivery>, k: nat)
    requires k <= |ds|
    ensures Run(s, self, ds) == Run(Run(s, self, ds[..k]), self, ds[k..])
  {
    if k == |ds| {
      assert ds[..k] == ds;
    } else {
      var init := ds[..|ds| - 1];
      RunSplit(s, self, init, k);
      assert init[..k] == ds[..k] && init[k..] == ds[k..][..|ds[k..]| - 1];
    }
  }

  /** The log is append-only. */
  lemma {:induction false} LogOnlyGrows(s: State, self: Address, ds: seq<Delivery>)
    ensures s.events <= Run(s, self, ds).events
  {
    if ds != [] {
      LogOnlyGrows(s, self, ds[..|ds| - 1]);
    }
  }

  /** No two deliveries with the same conversation, operation and nonce are both accepted in a run,
      whatever else their envelopes hold, and not even after the conversation was dropped in between. */
  lemma NeverAcceptedTwice(s: State, self: Address, ds: seq<Delivery>, i: nat, j: nat)
    requires i < j < |ds|
    requires ds[i].op == ds[j].op && Notice(ds[i]) == Notice(ds[j])
    requires Accepts(Run(s, self, ds[..i]), self, ds[i])
    ensures !Accepts(Run(s, self, ds[..j]), self, ds[j])
  {
    var after := Run(s, self, ds[..i + 1]);
    assert ds[..i + 1][..i] == ds[..i];
    var e := LogEntry(ds[i]);
    assert after.events == Run(s, self, ds[..i]).events + [e];
    assert e in after.events;
    RunSplit(s, self, ds[..j], i + 1);
    assert ds[..j][..i + 1] == ds[..i + 1];
    LogOnlyGrows(after, self, ds[..j][i + 1..]);
    assert e in Run(s, self, ds[..j]).events;
  }

  /** A completed conversation is absorbing: nothing delivered later changes or removes it. */
  lemma {:induction false} CompletedIsFinal(s: State, self: Address, ds: seq<Delivery>, c: Conversation)
    requires Inv(s, self) && c in s.conversations && c.completedAt.Some?
    ensures c in Run(s, self, ds).conversations
  {
    if ds != [] {
      var init, d := ds[..|ds| - 1], ds[|ds| - 1];
      CompletedIsFinal(s, self, init, c);
      RunKeepsInv(s, self, init);
      CompletedSurvivesStep(Run(s, self, init), self, d, c);
    }
  }

  lemma CompletedSurvivesStep(s: State, self: Address, d: Delivery, c: Conversation)
    requires Inv(s, self) && c in s.conversations && c.completedAt.Some?
    ensures c in Step(s, self, d).conversations
  {
    if Accepts(s, self, d) && !d.op.Invite? {
      var id := Notice(d).value.conversationId;
      HeldIsUnique(s, c);
      assert c.id != id;
      OthersUntouched(s, self, d, c.id);
    }
  }

  lemma OthersKept(s: State, self: Address, d: Delivery, c: Conversation)
    requires Inv(s, self) && c in s.conversations
    requires Notice(d).Success? ==> Notice(d).value.conversationId != c.id
    ensures c in Step(s, self, d).conversations
  {
    var t := Step(s, self, d);
    if Accepts(s, self, d) && !d.op.Invite? {
      var i := IndexOf(s.conversations, Notice(d).value.conversationId);
      var k :| 0 <= k < |s.conversations| && s.conversations[k] == c;
      assert i != k;
      if Next(s.conversations[i], self, d).Some? { assert t.conversations[k] == c; }
    }
  }

  lemma OthersNotAdded(s: State, self: Address, d: Delivery, c: Conversation)
    requires Inv(s, self) && c in Step(s, self, d).conversations
    requires Notice(d).Success? ==> Notice(d).value.conversationId != c.id
    ensures c in s.conversations
  {
    if Accepts(s, self, d) && !d.op.Invite? {
      NextIsSound(Held(s, Notice(d).value.conversationId), self, d);
    }
  }

  /** A call changes at most the conversation it addresses. */
  lemma OthersUntouched(s: State, self: Address, d: Delivery, id: Value)
    requires Inv(s, self)
    requires Notice(d).Success? ==> Notice(d).value.conversationId != id
    ensures Holds(Step(s, self, d), id) <==> Holds(s, id)
    ensures Holds(s, id) ==> Held(Step(s, self, d), id) == Held(s, id)
  {
    var t := Step(s, self, d);
    StepKeepsInv(s, self, d);
    if Holds(s, id) {
      OthersKept(s, self, d, Held(s, id));
      HeldIsUnique(t, Held(s, id));
    }
    if Holds(t, id) {
      OthersNotAdded(s, self, d, Held(t, id));
      HeldIsUnique(s, Held(t, id));
    }
  }

  // ---- who may change what ----

  /** When a step drops a conversation: the local agent is outside the new member set, is the one
      leaving, or would stay behind alone. */
  ghost predicate Departs(c: Conversation, self: Address, d: Delivery)
    requires Notice(d).Success?
  {
    match d.op
    case Update => Str(self) !in ParseMembershipUpdate(d.envelope.payload).value.members
    case Leave => d.envelope.iss == self || |c.members| == MIN_MEMBERS
    case _ => false
  }

  lemma DropExactly(s: State, self: Address, d: Delivery, id: Value)
    requires Inv(s, self) && Holds(s, id)
    ensures !Holds(Step(s, self, d), id)
       <==> Accepts(s, self, d) && Notice(d).value.conversationId == id && Departs(Held(s, id), self, d)
    ensures Accepts(s, self, d) && Notice(d).value.conversationId == id && Holds(Step(s, self, d), id)
        ==> Next(Held(s, id), self, d) == Some(Held(Step(s, self, d), id))
  {
    var c := Held(s, id);
    if Accepts(s, self, d) && Notice(d).value.conversationId == id {
      var t, i := Step(s, self, d), IndexOf(s.conversations, id);
      StepKeepsInv(s, self, d);
      if d.op.Leave? { LeaverRemoved(c, self, d.envelope.iss); }
      if Next(c, self, d).Some? {
        NextIsSound(c, self, d);
        HeldIsUnique(t, t.conversations[i]);
      }
    } else {
      OthersUntouchedOrRefused(s, self, d, id);
    }
  }

  lemma OthersUntouchedOrRefused(s: State, self: Address, d: Delivery, id: Value)
    requires Inv(s, self)
    requires !Accepts(s, self, d) || Notice(d).value.conversationId != id
    ensures Holds(Step(s, self, d), id) <==> Holds(s, id)
    ensures Holds(s, id) ==> Held(Step(s, self, d), id) == Held(s, id)
  {
    if Accepts(s, self, d) { OthersUntouched(s, self, d, id); }
  }

  /** A conversation appears only by its convener's own invitation, and with the invited members. */
  lemma OpenedByItsConvener(s: State, self: Address, d: Delivery, id: Value)
    requires Inv(s, self) && !Holds(s, id) && Holds(Step(s, self, d), id)
    ensures Accepts(s, self, d) && d.op.Invite?
    ensures var c := Held(Step(s, self, d), id);
            var i := ParseInvitation(d.envelope.payload).value;
            c.convener == Str(d.envelope.iss) == i.convener && c.members == i.members && c.completedAt.None?
  {
    if Accepts(s, self, d) && Notice(d).value.conversationId == id {
      var t := Step(s, self, d);
      StepKeepsInv(s, self, d);
      HeldIsUnique(t, t.conversations[|s.conversations|]);
    } else {
      OthersUntouchedOrRefused(s, self, d, id);
    }
  }

  /** Every change of a kept conversation is signed by whoever may make it: the current convener
      changes members, hands over and completes; anyone else can only take themselves out. */
  lemma ChangedByAuthority(s: State, self: Address, d: Delivery, id: Value)
    requires Inv(s, self) && Holds(s, id) && Holds(Step(s, self, d), id)
    ensures var c, c' := Held(s, id), Held(Step(s, self, d), id);
            var iss := Str(d.envelope.iss);
            && (c' != c ==> d.verified && Accepts(s, self, d))
            && (c'.members != c.members ==>
                  || (iss == c.convener && d.op.Update?)
                  || (iss in c.members && iss != c.convener && d.op.Leave? && c'.members == Without(c.members, iss)))
            && (c'.convener != c.convener ==>
                  && iss == c.convener && d.op.Update? && c'.convener in c'.members
                  && ParseMembershipUpdate(d.envelope.payload).value.convenerChangedFrom == c.convener)
            && (c'.completedAt != c.completedAt ==> iss == c.convener && d.op.Complete?)
  {
    if Accepts(s, self, d) && Notice(d).value.conversationId == id {
      DropExactly(s, self, d, id);
    } else {
      OthersUntouchedOrRefused(s, self, d, id);
    }
  }
}
