/** Agreement between the stores of two participants that are handed the same envelopes. */
module ConversationReplicas {
  import opened Values
  import opened Envelopes
  import opened Payloads
  import opened Conversations
  import opened ConversationSafety
  import Signatures

  /** The nonces a store has logged for a conversation under one kind of event. */
  function Nonces(log: seq<Event>, id: Value, op: Operation): set<Value> {
    set e | e in log && e.conversationId == id && e.kind == op :: e.nonce
  }

  /** Nonces of old invitations do not matter: while a conversation is held every invitation to it is
      refused anyway. */
  ghost predicate SameNonces(sA: State, sB: State, id: Value) {
    forall op: Operation :: !op.Invite? ==> Nonces(sA.events, id, op) == Nonces(sB.events, id, op)
  }

  ghost predicate AddressedTo(d: Delivery, id: Value) {
    Notice(d).Success? && Notice(d).value.conversationId == id
  }

  /** Both stores hold the conversation with the same members, convener and completion status. */
  ghost predicate SameConversation(sA: State, sB: State, id: Value) {
    && Holds(sA, id) && Holds(sB, id)
    && Held(sA, id).members == Held(sB, id).members
    && Held(sA, id).convener == Held(sB, id).convener
    && Held(sA, id).completedAt.Some? == Held(sB, id).completedAt.Some?
  }

  ghost predicate InStep(sA: State, sB: State, id: Value) {
    SameConversation(sA, sB, id) && SameNonces(sA, sB, id)
  }

  /** The same envelope, through the same method, with the same verdict on signature and freshness. */
  ghost predicate SameDelivery(d: Delivery, e: Delivery) {
    d.op == e.op && d.envelope == e.envelope && d.verified == e.verified
  }

  ghost predicate SameDeliveries(ds: seq<Delivery>, es: seq<Delivery>) {
    |ds| == |es| && forall k :: 0 <= k < |ds| ==> SameDelivery(ds[k], es[k])
  }

  lemma FreshMeansUnused(log: seq<Event>, id: Value, kind: Operation, nonce: Value)
    ensures Fresh(log, id, kind, nonce) <==> Truthy(nonce) && nonce !in Nonces(log, id, kind)
  {
  }

  lemma NoncesAppend(log: seq<Event>, e: Event, id: Value, op: Operation)
    ensures Nonces(log + [e], id, op)
         == Nonces(log, id, op) + if e.conversationId == id && e.kind == op then {e.nonce} else {}
  {
    assert forall f :: f in log + [e] <==> f in log || f == e;
  }

  lemma NoncesAfterStep(s: State, self: Address, d: Delivery, id: Value, op: Operation)
    ensures Nonces(Step(s, self, d).events, id, op)
         == Nonces(s.events, id, op)
            + if Accepts(s, self, d) && AddressedTo(d, id) && d.op == op then {Notice(d).value.nonce} else {}
  {
    if Accepts(s, self, d) {
      NoncesAppend(s.events, LogEntry(d), id, op);
    }
  }

  // ---- one step of two replicas ----

  /** Replicas in step give the same verdict on whatever is addressed to the conversation. */
  lemma SameVerdict(sA: State, a: Address, sB: State, b: Address, id: Value, d: Delivery, e: Delivery)
    requires InStep(sA, sB, id) && SameDelivery(d, e) && AddressedTo(d, id)
    ensures Accepts(sA, a, d) <==> Accepts(sB, b, e)
  {
    assert Notice(d) == Notice(e);
    FreshMeansUnused(sA.events, id, d.op, Notice(d).value.nonce);
    FreshMeansUnused(sB.events, id, d.op, Notice(d).value.nonce);
  }

  lemma NoncesStaySame(sA: State, a: Address, sB: State, b: Address, id: Value, d: Delivery, e: Delivery)
    requires InStep(sA, sB, id) && SameDelivery(d, e)
    ensures SameNonces(Step(sA, a, d), Step(sB, b, e), id)
  {
    assert Notice(d) == Notice(e);
    if AddressedTo(d, id) { SameVerdict(sA, a, sB, b, id, d, e); }
    forall op: Operation | !op.Invite?
      ensures Nonces(Step(sA, a, d).events, id, op) == Nonces(Step(sB, b, e).events, id, op)
    {
      NoncesAfterStep(sA, a, d, id, op);
      NoncesAfterStep(sB, b, e, id, op);
    }
  }

  /** They stay in step until one of them drops the conversation. */
  lemma StaysInStep(sA: State, a: Address, sB: State, b: Address, id: Value, d: Delivery, e: Delivery)
    requires Inv(sA, a) && Inv(sB, b) && InStep(sA, sB, id) && SameDelivery(d, e)
    requires Holds(Step(sA, a, d), id) && Holds(Step(sB, b, e), id)
    ensures InStep(Step(sA, a, d), Step(sB, b, e), id)
  {
    NoncesStaySame(sA, a, sB, b, id, d, e);
    DropExactly(sA, a, d, id);
    DropExactly(sB, b, e, id);
    assert Notice(d) == Notice(e);
    if AddressedTo(d, id) {
      SameVerdict(sA, a, sB, b, id, d, e);
    }
    if !(AddressedTo(d, id) && Accepts(sA, a, d)) {
      OthersUntouchedOrRefused(sA, a, d, id);
      OthersUntouchedOrRefused(sB, b, e, id);
    }
  }

  /** Which delivery parts two replicas: an accepted update that leaves one of the two agents out,
      or the accepted leave of one of them. */
  ghost predicate Parts(sA: State, a: Address, b: Address, id: Value, d: Delivery) {
    && AddressedTo(d, id) && Accepts(sA, a, d)
    && match d.op
       case Update =>
         var members := ParseMembershipUpdate(d.envelope.payload).value.members;
         Str(a) !in members || Str(b) !in members
       case Leave => d.envelope.iss == a || d.envelope.iss == b
       case _ => false
  }

  /** A group of two is just the two agents, so whoever leaves it is one of them. */
  lemma OnlyTheTwo(c: Conversation, a: Address, b: Address, issuer: Address)
    requires a != b && Sound(c, a) && Str(b) in c.members && |c.members| == 2 && Str(issuer) in c.members
    ensures issuer == a || issuer == b
  {
    assert c.members == [c.members[0], c.members[1]];
  }

  lemma PartsExactly(sA: State, a: Address, sB: State, b: Address, id: Value, d: Delivery, e: Delivery)
    requires a != b && Inv(sA, a) && Inv(sB, b) && InStep(sA, sB, id) && SameDelivery(d, e)
    ensures !Holds(Step(sA, a, d), id) || !Holds(Step(sB, b, e), id) <==> Parts(sA, a, b, id, d)
  {
    assert Notice(d) == Notice(e);
    DropExactly(sA, a, d, id);
    DropExactly(sB, b, e, id);
    if AddressedTo(d, id) {
      SameVerdict(sA, a, sB, b, id, d, e);
      if Accepts(sA, a, d) && d.op.Leave? && |Held(sA, id).members| == 2 {
        OnlyTheTwo(Held(sA, id), a, b, d.envelope.iss);
      }
    }
  }

  // ---- runs of two replicas ----

  /** Both replicas hold the conversation after every prefix of what they are handed. */
  ghost predicate BothHoldThroughout(sA: State, a: Address, ds: seq<Delivery>,
                                     sB: State, b: Address, es: seq<Delivery>, id: Value)
  {
    && (forall k :: 0 <= k <= |ds| ==> Holds(Run(sA, a, ds[..k]), id))
    && (forall k :: 0 <= k <= |es| ==> Holds(Run(sB, b, es[..k]), id))
  }

  lemma {:induction false} RunStaysInStep(sA: State, a: Address, ds: seq<Delivery>,
                                          sB: State, b: Address, es: seq<Delivery>, id: Value)
    requires Inv(sA, a) && Inv(sB, b) && InStep(sA, sB, id)
    requires SameDeliveries(ds, es) && BothHoldThroughout(sA, a, ds, sB, b, es, id)
    ensures Inv(Run(sA, a, ds), a) && Inv(Run(sB, b, es), b)
    ensures InStep(Run(sA, a, ds), Run(sB, b, es), id)
  {
    RunKeepsInv(sA, a, ds);
    RunKeepsInv(sB, b, es);
    if ds != [] {
      var n := |ds| - 1;
      var ds', es' := ds[..n], es[..n];
      forall k | 0 <= k <= n ensures Holds(Run(sA, a, ds'[..k]), id) && Holds(Run(sB, b, es'[..k]), id) {
        assert ds'[..k] == ds[..k] && es'[..k] == es[..k];
      }
      RunStaysInStep(sA, a, ds', sB, b, es', id);
      assert ds[..n + 1] == ds && es[..n + 1] == es;
      assert Holds(Run(sA, a, ds), id) && Holds(Run(sB, b, es), id);
      StaysInStep(Run(sA, a, ds'), a, Run(sB, b, es'), b, id, ds[n], es[n]);
    }
  }

  lemma InvitationPutsInStep(sA: State, a: Address, sB: State, b: Address, id: Value, d: Delivery, e: Delivery)
    requires Inv(sA, a) && Inv(sB, b) && SameNonces(sA, sB, id)
    requires SameDelivery(d, e) && d.op.Invite? && AddressedTo(d, id)
    requires Accepts(sA, a, d) && Accepts(sB, b, e)
    ensures InStep(Step(sA, a, d), Step(sB, b, e), id)
  {
    forall op: Operation | !op.Invite?
      ensures Nonces(Step(sA, a, d).events, id, op) == Nonces(Step(sB, b, e).events, id, op)
    {
      NoncesAfterStep(sA, a, d, id, op);
      NoncesAfterStep(sB, b, e, id, op);
    }
    InvitedConversation(sA, a, d);
    InvitedConversation(sB, b, e);
  }

  lemma InvitedConversation(s: State, self: Address, d: Delivery)
    requires Inv(s, self) && d.op.Invite? && Accepts(s, self, d)
    ensures var i := ParseInvitation(d.envelope.payload).value;
            Holds(Step(s, self, d), i.conversationId) && Held(Step(s, self, d), i.conversationId) == Opened(i, d.at)
  {
    var t := Step(s, self, d);
    StepKeepsInv(s, self, d);
    HeldIsUnique(t, t.conversations[|s.conversations|]);
  }

  /** Two agents whose stores logged the same update, leave and completion nonces for a conversation, if
      any, accept the same invitation to it and are then handed the same envelopes. As long as both hold
      it they agree on its members, convener and completion and on every further envelope addressed to
      it; the one that ends this is exactly the accepted removal or leave of one of the two. */
  lemma ReplicasAgree(sA: State, a: Address, sB: State, b: Address, id: Value,
                      invite: Delivery, invite': Delivery, ds: seq<Delivery>, es: seq<Delivery>,
                      d: Delivery, e: Delivery)
    requires a != b && Inv(sA, a) && Inv(sB, b) && SameNonces(sA, sB, id)
    requires invite.op.Invite? && SameDelivery(invite, invite') && AddressedTo(invite, id)
    requires Accepts(sA, a, invite) && Accepts(sB, b, invite')
    requires SameDeliveries(ds, es) && SameDelivery(d, e)
    requires BothHoldThroughout(Step(sA, a, invite), a, ds, Step(sB, b, invite'), b, es, id)
    ensures var tA := Run(Step(sA, a, invite), a, ds);
            var tB := Run(Step(sB, b, invite'), b, es);
            && SameConversation(tA, tB, id)
            && (AddressedTo(d, id) ==> (Accepts(tA, a, d) <==> Accepts(tB, b, e)))
            && (!Holds(Step(tA, a, d), id) || !Holds(Step(tB, b, e), id) <==> Parts(tA, a, b, id, d))
  {
    StepKeepsInv(sA, a, invite);
    StepKeepsInv(sB, b, invite');
    InvitationPutsInStep(sA, a, sB, b, id, invite, invite');
    RunStaysInStep(Step(sA, a, invite), a, ds, Step(sB, b, invite'), b, es, id);
    var tA, tB := Run(Step(sA, a, invite), a, ds), Run(Step(sB, b, invite'), b, es);
    PartsExactly(tA, a, tB, b, id, d, e);
    if AddressedTo(d, id) { SameVerdict(tA, a, tB, b, id, d, e); }
  }

  // ---- equal logs are needed ----

  /** What a call may be handed: an envelope that verified is dated and signed. */
  ghost predicate Feasible(d: Delivery) {
    d.verified ==> d.envelope.iat.Some? && Signatures.SignatureOf(d.envelope).Some?
  }

  ghost predicate AgreeOnNext(sA: State, a: Address, sB: State, b: Address, id: Value) {
    forall d :: AddressedTo(d, id) && Feasible(d) ==> (Accepts(sA, a, d) <==> Accepts(sB, b, d))
  }

  /** After these runs both hold the conversation alike and decide alike about this delivery. */
  ghost predicate AgreeAfter(sA: State, a: Address, ds: seq<Delivery>, d: Delivery,
                             sB: State, b: Address, es: seq<Delivery>, e: Delivery, id: Value)
  {
    && SameConversation(Run(sA, a, ds), Run(sB, b, es), id)
    && (Accepts(Run(sA, a, ds), a, d) <==> Accepts(Run(sB, b, es), b, e))
  }

  /** Whatever both are handed from here on, until one of them drops the conversation they hold it alike
      and decide alike. */
  ghost predicate AgreeUntilParted(sA: State, a: Address, sB: State, b: Address, id: Value) {
    forall ds, es, d, e ::
      && SameDeliveries(ds, es) && BothHoldThroughout(sA, a, ds, sB, b, es, id)
      && SameDelivery(d, e) && AddressedTo(d, id) && Feasible(d)
      ==> AgreeAfter(sA, a, ds, d, sB, b, es, e, id)
  }

  /** An envelope that only the nonce can refuse: it changes nothing, or one member leaves, or the
      convener completes. */
  function Probe(c: Conversation, op: Operation, nonce: Value, sig: string): Delivery
    requires |c.members| >= 2
  {
    var leaver := if c.members[0] == c.convener then c.members[1] else c.members[0];
    var issuer := if op.Leave? then leaver else c.convener;
    var payload := Dict(map["conversation_id" := c.id, "members" := List(c.members), "convener" := c.convener,
                            "outcome" := Str(""), "nonce" := nonce]);
    var iss := if issuer.Str? then issuer.text else "";
    Delivery(op, Envelope(TypeOf(op), payload, iss, Some(0), Null, Some(sig)), true, 0, 0)
  }

  lemma ProbeTestsTheNonce(s: State, self: Address, id: Value, c: Conversation, op: Operation, nonce: Value,
                           sig: string)
    requires Inv(s, self) && Holds(s, id) && Held(s, id).completedAt.None? && !op.Invite? && Truthy(nonce)
    requires c.id == id && c.members == Held(s, id).members && c.convener == Held(s, id).convener
    ensures AddressedTo(Probe(c, op, nonce, sig), id)
    ensures Accepts(s, self, Probe(c, op, nonce, sig)) <==> nonce !in Nonces(s.events, id, op)
  {
    var d := Probe(c, op, nonce, sig);
    assert Sound(Held(s, id), self);
    var p := d.envelope.payload.fields;
    assert p["conversation_id"] == id && p["nonce"] == nonce && p["members"] == List(c.members);
    assert p["convener"] == c.convener && "outcome" in p && "added" !in p && "removed" !in p;
    var u := GroupMembershipUpdate(id, c.members, c.convener, {}, {}, Null, nonce);
    assert op.Update? ==> ParseMembershipUpdate(d.envelope.payload) == Success(u);
    assert Notice(d) == Success(GroupNotice(id, nonce));
    assert Elements(c.members) - Elements(c.members) == {};
  }

  /** Replicas that hold the same open conversation agree on the next envelope for it, whichever it is,
      exactly when they have logged the same update, leave and completion nonces for it. */
  lemma AgreementNeedsEqualLogs(sA: State, a: Address, sB: State, b: Address, id: Value)
    requires Inv(sA, a) && Inv(sB, b) && SameConversation(sA, sB, id) && Held(sA, id).completedAt.None?
    ensures AgreeOnNext(sA, a, sB, b, id) <==> SameNonces(sA, sB, id)
  {
    var c, sig := Held(sA, id), Signatures.SampleText();
    assert Sound(c, a);
    if AgreeOnNext(sA, a, sB, b, id) {
      forall op: Operation | !op.Invite? ensures Nonces(sA.events, id, op) == Nonces(sB.events, id, op) {
        forall nonce | nonce in Nonces(sA.events, id, op) + Nonces(sB.events, id, op)
          ensures nonce in Nonces(sA.events, id, op) && nonce in Nonces(sB.events, id, op)
        {
          ProbeTestsTheNonce(sA, a, id, c, op, nonce, sig);
          ProbeTestsTheNonce(sB, b, id, c, op, nonce, sig);
          assert Feasible(Probe(c, op, nonce, sig));
        }
      }
    }
    if SameNonces(sA, sB, id) {
      forall d | AddressedTo(d, id) ensures Accepts(sA, a, d) <==> Accepts(sB, b, d) {
        SameVerdict(sA, a, sB, b, id, d, d);
      }
    }
  }

  lemma RefusedWhenCompleted(s: State, self: Address, id: Value, d: Delivery)
    requires Holds(s, id) && Held(s, id).completedAt.Some? && AddressedTo(d, id)
    ensures !Accepts(s, self, d)
  {
  }

  lemma StillCompleted(s: State, self: Address, ds: seq<Delivery>, id: Value)
    requires Inv(s, self) && Holds(s, id) && Held(s, id).completedAt.Some?
    ensures Holds(Run(s, self, ds), id) && Held(Run(s, self, ds), id) == Held(s, id)
  {
    CompletedIsFinal(s, self, ds, Held(s, id));
    RunKeepsInv(s, self, ds);
    HeldIsUnique(Run(s, self, ds), Held(s, id));
  }

  /** A completed conversation stays as it is, and everything addressed to it is refused. */
  lemma CompletedAgree(sA: State, a: Address, ds: seq<Delivery>, d: Delivery,
                       sB: State, b: Address, es: seq<Delivery>, e: Delivery, id: Value)
    requires Inv(sA, a) && Inv(sB, b) && SameConversation(sA, sB, id) && Held(sA, id).completedAt.Some?
    requires SameDelivery(d, e) && AddressedTo(d, id)
    ensures AgreeAfter(sA, a, ds, d, sB, b, es, e, id)
  {
    StillCompleted(sA, a, ds, id);
    StillCompleted(sB, b, es, id);
    assert Notice(d) == Notice(e);
    RefusedWhenCompleted(Run(sA, a, ds), a, id, d);
    RefusedWhenCompleted(Run(sB, b, es), b, id, e);
  }

  lemma InStepAgree(sA: State, a: Address, ds: seq<Delivery>, d: Delivery,
                    sB: State, b: Address, es: seq<Delivery>, e: Delivery, id: Value)
    requires Inv(sA, a) && Inv(sB, b) && InStep(sA, sB, id)
    requires SameDeliveries(ds, es) && BothHoldThroughout(sA, a, ds, sB, b, es, id)
    requires SameDelivery(d, e) && AddressedTo(d, id)
    ensures AgreeAfter(sA, a, ds, d, sB, b, es, e, id)
  {
    RunStaysInStep(sA, a, ds, sB, b, es, id);
    SameVerdict(Run(sA, a, ds), a, Run(sB, b, es), b, id, d, e);
  }

  lemma AgreeingRunsAgreeNext(sA: State, a: Address, sB: State, b: Address, id: Value)
    requires Holds(sA, id) && Holds(sB, id) && AgreeUntilParted(sA, a, sB, b, id)
    ensures AgreeOnNext(sA, a, sB, b, id)
  {
    forall d | AddressedTo(d, id) && Feasible(d) ensures Accepts(sA, a, d) <==> Accepts(sB, b, d) {
      assert Run(sA, a, []) == sA && Run(sB, b, []) == sB;
      assert SameDeliveries([], []) && BothHoldThroughout(sA, a, [], sB, b, [], id) && SameDelivery(d, d);
      assert AgreeAfter(sA, a, [], d, sB, b, [], d, id);
    }
  }

  /** Agreement over runs, exactly: replicas that hold the same conversation agree on everything they
      are both handed, until one of them drops it, if and only if it is completed or they have logged
      the same update, leave and completion nonces for it. An agent that took part before, was removed
      and is invited again carries its old nonces, and may so disagree with one that joins for the
      first time. */
  lemma AgreementExactly(sA: State, a: Address, sB: State, b: Address, id: Value)
    requires Inv(sA, a) && Inv(sB, b) && SameConversation(sA, sB, id)
    ensures AgreeUntilParted(sA, a, sB, b, id) <==> Held(sA, id).completedAt.Some? || SameNonces(sA, sB, id)
  {
    if Held(sA, id).completedAt.Some? || SameNonces(sA, sB, id) {
      forall ds, es, d: Delivery, e: Delivery
        | SameDeliveries(ds, es) && BothHoldThroughout(sA, a, ds, sB, b, es, id)
          && SameDelivery(d, e) && AddressedTo(d, id)
        ensures AgreeAfter(sA, a, ds, d, sB, b, es, e, id)
      {
        if Held(sA, id).completedAt.Some? {
          CompletedAgree(sA, a, ds, d, sB, b, es, e, id);
        } else {
          InStepAgree(sA, a, ds, d, sB, b, es, e, id);
        }
      }
    } else if AgreeUntilParted(sA, a, sB, b, id) {
      AgreeingRunsAgreeNext(sA, a, sB, b, id);
      AgreementNeedsEqualLogs(sA, a, sB, b, id);
    }
  }

  // ---- replicas that disagree ----

  /** A verified delivery that carries this invitation, from this agent. */
  ghost predicate Invites(d: Delivery, issuer: Address, i: GroupInvitation) {
    && d.op.Invite? && d.verified && d.envelope.payloadType == INVITATION && d.envelope.iss == issuer
    && ParseInvitation(d.envelope.payload) == Success(i)
  }

  ghost predicate Updates(d: Delivery, issuer: Address, u: GroupMembershipUpdate) {
    && d.op.Update? && d.verified && d.envelope.payloadType == MEMBERSHIP_UPDATE && d.envelope.iss == issuer
    && ParseMembershipUpdate(d.envelope.payload) == Success(u)
  }

  /** Accepted into an empty store, under a nonce not used for an invitation before. */
  lemma InvitedAfresh(s: State, self: Address, d: Delivery, c: Address, i: GroupInvitation)
    requires Invites(d, c, i) && Str(c) == i.convener && Str(self) in i.members && Truthy(i.nonce)
    requires s.conversations == [] && forall e <- s.events :: !(e.kind.Invite? && e.nonce == i.nonce)
    ensures Accepts(s, self, d)
    ensures Step(s, self, d) == State([Opened(i, d.at)], s.events + [LogEntry(d)])
    ensures Notice(d) == Success(GroupNotice(i.conversationId, i.nonce))
  {
  }

  /** The convener of an open conversation, the only one held, takes members out or changes nothing. */
  lemma UpdateAccepted(s: State, self: Address, d: Delivery, conv: Conversation, c: Address, u: GroupMembershipUpdate)
    requires s.conversations == [conv] && conv.completedAt.None? && conv.convener == Str(c) == u.convener
    requires Updates(d, c, u) && u.conversationId == conv.id && u.convenerChangedFrom == Null
    requires Elements(u.members) - Elements(conv.members) == u.added
    requires Elements(conv.members) - Elements(u.members) == u.removed
    requires Truthy(u.nonce) && forall e <- s.events :: !(e.kind.Update? && e.nonce == u.nonce)
    ensures Accepts(s, self, d)
    ensures Notice(d) == Success(GroupNotice(conv.id, u.nonce))
    ensures Str(self) !in u.members ==> Step(s, self, d) == State([], s.events + [LogEntry(d)])
  {
    assert Held(s, conv.id) == conv;
    assert Drop(s.conversations, conv.id) == [] by { assert s.conversations[1..] == []; }
  }

  /** What `a` went through before: invited to a group, and taken out of it again. */
  lemma RemovalLeavesItsNonces(a: Address, c: Address, d: Delivery, i: GroupInvitation,
                               d': Delivery, u: GroupMembershipUpdate)
    requires Invites(d, c, i) && Str(c) == i.convener && Str(a) in i.members && Truthy(i.nonce)
    requires Updates(d', c, u) && u.conversationId == i.conversationId && u.convener == Str(c)
    requires u.convenerChangedFrom == Null && Truthy(u.nonce) && Str(a) !in u.members
    requires Elements(u.members) - Elements(i.members) == u.added
    requires Elements(i.members) - Elements(u.members) == u.removed
    ensures Run(EMPTY, a, [d, d']) == State([], [LogEntry(d), LogEntry(d')])
    ensures LogEntry(d').conversationId == i.conversationId && LogEntry(d').nonce == u.nonce
  {
    var s := Step(EMPTY, a, d);
    InvitedAfresh(EMPTY, a, d, c, i);
    UpdateAccepted(s, a, d', Opened(i, d.at), c, u);
    assert [d, d'][..1] == [d] && [d][..0] == [];
    assert Run(EMPTY, a, [d]) == s;
  }

  /** Invited again, `a` refuses an update whose nonce it has already seen; `b`, who has not, accepts it. */
  lemma SeenNonceParts(sA: State, a: Address, b: Address, c: Address, d: Delivery, i: GroupInvitation,
                       d': Delivery, u: GroupMembershipUpdate)
    requires sA.conversations == [] && forall e <- sA.events :: !(e.kind.Invite? && e.nonce == i.nonce)
    requires exists e <- sA.events :: e.conversationId == i.conversationId && e.kind.Update? && e.nonce == u.nonce
    requires Invites(d, c, i) && Str(c) == i.convener && Str(a) in i.members && Str(b) in i.members && Truthy(i.nonce)
    requires Updates(d', c, u) && u.conversationId == i.conversationId && u.convener == Str(c)
    requires u.convenerChangedFrom == Null && Truthy(u.nonce) && u.members == i.members && u.added == u.removed == {}
    ensures Accepts(sA, a, d) && Accepts(EMPTY, b, d)
    ensures !Accepts(Step(sA, a, d), a, d') && Accepts(Step(EMPTY, b, d), b, d')
  {
    InvitedAfresh(sA, a, d, c, i);
    InvitedAfresh(EMPTY, b, d, c, i);
    UpdateAccepted(Step(EMPTY, b, d), b, d', Opened(i, d.at), c, u);
    var e :| e in sA.events && e.conversationId == i.conversationId && e.kind.Update? && e.nonce == u.nonce;
    assert e in Step(sA, a, d).events;
  }

  function Invitation(id: Value, members: seq<Value>, convener: Address, nonce: Value, sig: string): Delivery {
    var payload := Dict(map["conversation_id" := id, "purpose" := Str(""), "members" := List(members),
                            "convener" := Str(convener), "nonce" := nonce]);
    Delivery(Invite, Envelope(INVITATION, payload, convener, Some(0), Null, Some(sig)), true, 0, 0)
  }

  /** An update by the convener that takes out `removed` and adds nobody. */
  function Removal(id: Value, members: seq<Value>, convener: Address, removed: seq<Value>, nonce: Value, sig: string)
    : Delivery
  {
    var payload := Dict(map["conversation_id" := id, "members" := List(members), "convener" := Str(convener),
                            "removed" := List(removed), "nonce" := nonce]);
    Delivery(Update, Envelope(MEMBERSHIP_UPDATE, payload, convener, Some(0), Null, Some(sig)), true, 0, 0)
  }

  function Invited(id: Value, members: seq<Value>, convener: Address, nonce: Value): GroupInvitation {
    GroupInvitation(id, Str(""), members, Str(convener), nonce, Str(""), Str(""))
  }

  function Updated(id: Value, members: seq<Value>, convener: Address, removed: seq<Value>, nonce: Value)
    : GroupMembershipUpdate
  {
    GroupMembershipUpdate(id, members, Str(convener), {}, Elements(removed), Null, nonce)
  }

  lemma ThreeMembers(x: Address, y: Address, z: Address)
    requires x != y && x != z && y != z && "" !in {x, y, z}
    ensures IsMemberList([Str(x), Str(y)]) && IsMemberList([Str(x), Str(y), Str(z)])
  {
  }

  lemma InvitationParses(id: Value, members: seq<Value>, convener: Address, nonce: Value, sig: string)
    requires IsMemberList(members) && Str(convener) in members
    ensures Invites(Invitation(id, members, convener, nonce, sig), convener, Invited(id, members, convener, nonce))
  {
  }

  lemma RemovalParses(id: Value, members: seq<Value>, convener: Address, removed: seq<Value>, nonce: Value, sig: string)
    requires IsMemberList(members) && Str(convener) in members
    ensures Updates(Removal(id, members, convener, removed, nonce, sig), convener,
                    Updated(id, members, convener, removed, nonce))
  {
    assert removed == [] ==> Elements(removed) == {};
  }

  /** Invited with `z` to a group of `c`, and taken out again. */
  function Past(a: Address, c: Address, z: Address, id: Value, nonce: Value, used: Value, sig: string): seq<Delivery> {
    [Invitation(id, [Str(c), Str(a), Str(z)], c, nonce, sig), Removal(id, [Str(c), Str(z)], c, [Str(a)], used, sig)]
  }

  /** With `past` behind it `a` accepts the invitation, just as `b` does from scratch; yet of the two
      only `b` accepts the update that comes next. */
  ghost predicate Disagree(a: Address, past: seq<Delivery>, b: Address, invite: Delivery, update: Delivery) {
    var sA := Run(EMPTY, a, past);
    && Accepts(sA, a, invite) && Accepts(EMPTY, b, invite)
    && !Accepts(Step(sA, a, invite), a, update) && Accepts(Step(EMPTY, b, invite), b, update)
  }

  /** The two lemmas above, one after the other, for these members. */
  lemma RejoinedAgentRefuses(a: Address, b: Address, c: Address, z: Address,
                             id: Value, nonce: Value, nonce': Value, used: Value,
                             d0: Delivery, d1: Delivery, d2: Delivery, d3: Delivery)
    requires a != c && a != z && "" !in {a, b, c, z}
    requires Truthy(nonce) && Truthy(nonce') && Truthy(used) && nonce != nonce'
    requires Invites(d0, c, Invited(id, [Str(c), Str(a), Str(z)], c, nonce))
    requires Updates(d1, c, Updated(id, [Str(c), Str(z)], c, [Str(a)], used))
    requires Invites(d2, c, Invited(id, [Str(c), Str(a), Str(b)], c, nonce'))
    requires Updates(d3, c, Updated(id, [Str(c), Str(a), Str(b)], c, [], used))
    ensures Disagree(a, [d0, d1], b, d2, d3)
  {
    var i, u := Invited(id, [Str(c), Str(a), Str(z)], c, nonce), Updated(id, [Str(c), Str(z)], c, [Str(a)], used);
    RemovalLeavesItsNonces(a, c, d0, i, d1, u);
    var s := Run(EMPTY, a, [d0, d1]);
    assert s.events[0].kind.Invite? && s.events[0].nonce == nonce;
    assert s.events[1] in s.events;
    SeenNonceParts(s, a, b, c, d2, Invited(id, [Str(c), Str(a), Str(b)], c, nonce'),
                   d3, Updated(id, [Str(c), Str(a), Str(b)], c, [], used));
  }

  /** Accepting the same invitation and receiving the same envelopes is not enough: an agent that was
      in the group before refuses a reused nonce that an agent new to it accepts. (`sig` is any
      signature text; whether it verifies is part of a delivery.) */
  lemma RejoinedAgentDisagrees(a: Address, b: Address, c: Address, z: Address,
                               id: Value, nonce: Value, nonce': Value, used: Value, sig: string)
    requires a != b && a != c && b != c && a != z && c != z && "" !in {a, b, c, z}
    requires Truthy(nonce) && Truthy(nonce') && Truthy(used) && nonce != nonce'
    ensures var members := [Str(c), Str(a), Str(b)];
            Disagree(a, Past(a, c, z, id, nonce, used, sig), b,
                     Invitation(id, members, c, nonce', sig), Removal(id, members, c, [], used, sig))
  {
    var before, after, members := [Str(c), Str(a), Str(z)], [Str(c), Str(z)], [Str(c), Str(a), Str(b)];
    ThreeMembers(c, a, z);
    ThreeMembers(c, z, a);
    ThreeMembers(c, a, b);
    InvitationParses(id, before, c, nonce, sig);
    RemovalParses(id, after, c, [Str(a)], used, sig);
    InvitationParses(id, members, c, nonce', sig);
    RemovalParses(id, members, c, [], used, sig);
    RejoinedAgentRefuses(a, b, c, z, id, nonce, nonce', used,
                         Invitation(id, before, c, nonce, sig), Removal(id, after, c, [Str(a)], used, sig),
                         Invitation(id, members, c, nonce', sig), Removal(id, members, c, [], used, sig));
  }
}
