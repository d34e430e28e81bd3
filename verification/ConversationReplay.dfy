/** Event sourcing: the recorded events alone rebuild the store. */
module ConversationReplay {
  import opened Values
  import opened Envelopes
  import opened Payloads
  import opened Conversations

  // ---- a state with its clock readings blanked ----

  function Untimed(c: Conversation): Conversation {
    c.(acceptedAt := 0, completedAt := if c.completedAt.Some? then Some(0) else None)
  }

  function UntimedAll(cs: seq<Conversation>): (r: seq<Conversation>)
    ensures |r| == |cs| && forall i :: 0 <= i < |cs| ==> r[i] == Untimed(cs[i])
  {
    if cs == [] then [] else [Untimed(cs[0])] + UntimedAll(cs[1..])
  }

  function UntimedLog(es: seq<Event>): (r: seq<Event>)
    ensures |r| == |es| && forall i :: 0 <= i < |es| ==> r[i] == es[i].(recordedAt := 0)
  {
    if es == [] then [] else [es[0].(recordedAt := 0)] + UntimedLog(es[1..])
  }

  function UntimedState(s: State): State {
    State(UntimedAll(s.conversations), UntimedLog(s.events))
  }

  // ---- replaying a log ----

  /** The recorded envelope, handed to the method that recorded it; signature and freshness count as passed. */
  function Redelivery(e: Event): Delivery {
    Delivery(e.kind, e.envelope, true, 0, 0)
  }

  function Replayed(s: State, self: Address, d: Delivery): Option<State> {
    if Accepts(s, self, d) then Some(Step(s, self, d)) else None
  }

  /** Every recorded event in order, from an empty store; nothing when some event is refused. */
  function Replay(self: Address, log: seq<Event>): Option<State> {
    if log == [] then Some(EMPTY)
    else
      match Replay(self, log[..|log| - 1])
      case None => None
      case Some(s) => Replayed(s, self, Redelivery(log[|log| - 1]))
  }

  // ---- blanking the clock commutes with the protocol ----

  lemma UntimedIndex(cs: seq<Conversation>, id: Value)
    ensures IndexOf(UntimedAll(cs), id) == IndexOf(cs, id)
  {
    var i, j := IndexOf(UntimedAll(cs), id), IndexOf(cs, id);
    assert i == j by {
      assert i < |cs| ==> UntimedAll(cs)[i].id == cs[i].id;
      assert j < |cs| ==> UntimedAll(cs)[j].id == cs[j].id;
    }
  }

  lemma {:induction false} UntimedDrop(cs: seq<Conversation>, id: Value)
    ensures UntimedAll(Drop(cs, id)) == Drop(UntimedAll(cs), id)
  {
    if cs != [] {
      UntimedDrop(cs[1..], id);
      assert UntimedAll(cs)[1..] == UntimedAll(cs[1..]);
      if cs[0].id != id {
        assert ([cs[0]] + Drop(cs[1..], id))[1..] == Drop(cs[1..], id);
      }
    }
  }

  lemma UntimedFresh(log: seq<Event>, id: Value, kind: Operation, nonce: Value)
    ensures Fresh(UntimedLog(log), id, kind, nonce) <==> Fresh(log, id, kind, nonce)
  {
    var u := UntimedLog(log);
    forall e | e in log ensures exists f <- u :: f == e.(recordedAt := 0) {
      var k :| 0 <= k < |log| && log[k] == e;
      assert u[k] in u;
    }
    forall f | f in u ensures exists e <- log :: f == e.(recordedAt := 0) {
      var k :| 0 <= k < |u| && u[k] == f;
      assert log[k] in log;
    }
  }

  /** The same envelope through the same method, at time zero. */
  function Untime(d: Delivery): Delivery {
    Delivery(d.op, d.envelope, true, 0, 0)
  }

  lemma UntimedHeld(s: State, id: Value)
    ensures Holds(UntimedState(s), id) <==> Holds(s, id)
    ensures Holds(s, id) ==> Held(UntimedState(s), id) == Untimed(Held(s, id))
  {
    UntimedIndex(s.conversations, id);
  }

  lemma UntimedAccepts(s: State, self: Address, d: Delivery)
    requires Accepts(s, self, d)
    ensures Accepts(UntimedState(s), self, Untime(d))
  {
    var n := Notice(d).value;
    assert Notice(Untime(d)) == Notice(d);
    UntimedFresh(s.events, n.conversationId, d.op, n.nonce);
    UntimedHeld(s, n.conversationId);
  }

  lemma UntimedNext(c: Conversation, self: Address, d: Delivery)
    requires !d.op.Invite? && Notice(d).Success?
    ensures Notice(Untime(d)) == Notice(d)
    ensures Next(Untimed(c), self, Untime(d))
         == match Next(c, self, d)
            case None => None
            case Some(c') => Some(Untimed(c'))
  {
  }

  lemma UntimedAppend(cs: seq<Conversation>, c: Conversation)
    ensures UntimedAll(cs + [c]) == UntimedAll(cs) + [Untimed(c)]
  {
  }

  lemma UntimedChange(cs: seq<Conversation>, i: nat, c: Conversation)
    requires i < |cs|
    ensures UntimedAll(cs[i := c]) == UntimedAll(cs)[i := Untimed(c)]
  {
  }

  lemma UntimedOpened(cs: seq<Conversation>, self: Address, d: Delivery)
    requires d.op.Invite? && Notice(d).Success?
    ensures Resolved(UntimedAll(cs), self, Untime(d)) == UntimedAll(Resolved(cs, self, d))
  {
    UntimedAppend(cs, Opened(ParseInvitation(d.envelope.payload).value, d.at));
  }

  lemma UntimedResolved(cs: seq<Conversation>, self: Address, d: Delivery)
    requires Notice(d).Success?
    ensures Notice(Untime(d)) == Notice(d)
    ensures Resolved(UntimedAll(cs), self, Untime(d)) == UntimedAll(Resolved(cs, self, d))
  {
    var id := Notice(d).value.conversationId;
    var i := IndexOf(cs, id);
    if d.op.Invite? {
      UntimedOpened(cs, self, d);
    } else if i < |cs| {
      UntimedIndex(cs, id);
      UntimedNext(cs[i], self, d);
      match Next(cs[i], self, d)
      case None => UntimedDrop(cs, id);
      case Some(c) => UntimedChange(cs, i, c);
    } else {
      UntimedIndex(cs, id);
    }
  }

  lemma UntimedEntry(log: seq<Event>, d: Delivery)
    requires Notice(d).Success?
    ensures Notice(Untime(d)) == Notice(d)
    ensures UntimedLog(log + [LogEntry(d)]) == UntimedLog(log) + [LogEntry(Untime(d))]
  {
  }

  lemma UntimedStep(s: State, self: Address, d: Delivery)
    requires Accepts(s, self, d)
    ensures Accepts(UntimedState(s), self, Untime(d))
    ensures Step(UntimedState(s), self, Untime(d)) == UntimedState(Step(s, self, d))
  {
    UntimedAccepts(s, self, d);
    UntimedResolved(s.conversations, self, d);
    UntimedEntry(s.events, d);
  }

  lemma ReplayExtends(self: Address, log: seq<Event>, e: Event)
    ensures Replay(self, log + [e])
         == match Replay(self, log)
            case None => None
            case Some(s) => Replayed(s, self, Redelivery(e))
  {
    assert (log + [e])[..|log|] == log;
  }

  lemma ReplayFollowsStep(self: Address, s: State, d: Delivery)
    requires Replay(self, s.events) == Some(UntimedState(s))
    ensures Replay(self, Step(s, self, d).events) == Some(UntimedState(Step(s, self, d)))
  {
    if Accepts(s, self, d) {
      ReplayExtends(self, s.events, LogEntry(d));
      assert Redelivery(LogEntry(d)) == Untime(d);
      UntimedStep(s, self, d);
    }
  }

  /** After any run from an empty store, replaying the recorded events refuses none of them and
      rebuilds the conversations, in order, and the log itself, up to timestamps. */
  lemma {:induction false} EventsRebuildTheStore(self: Address, ds: seq<Delivery>)
    ensures Replay(self, Run(EMPTY, self, ds).events) == Some(UntimedState(Run(EMPTY, self, ds)))
  {
    if ds != [] {
      EventsRebuildTheStore(self, ds[..|ds| - 1]);
      ReplayFollowsStep(self, Run(EMPTY, self, ds[..|ds| - 1]), ds[|ds| - 1]);
    }
  }

  lemma SameRedelivery(e: Event, f: Event)
    requires e.(recordedAt := 0) == f.(recordedAt := 0)
    ensures Redelivery(e) == Redelivery(f)
  {
    assert e.(recordedAt := 0).kind == e.kind == f.kind;
  }

  lemma {:induction false} ReplayIgnoresClocks(self: Address, log: seq<Event>, log': seq<Event>)
    requires UntimedLog(log) == UntimedLog(log')
    ensures Replay(self, log) == Replay(self, log')
  {
    assert |log| == |UntimedLog(log)| == |UntimedLog(log')| == |log'|;
    if log != [] {
      var n := |log| - 1;
      assert log[n].(recordedAt := 0) == UntimedLog(log)[n] == log'[n].(recordedAt := 0);
      assert UntimedLog(log[..n]) == UntimedLog(log)[..n];
      assert UntimedLog(log'[..n]) == UntimedLog(log')[..n];
      ReplayIgnoresClocks(self, log[..n], log'[..n]);
      SameRedelivery(log[n], log'[n]);
    }
  }

  /** Hence two runs that recorded the same envelopes the same way hold the same conversations. */
  lemma SameLogSameStore(self: Address, ds: seq<Delivery>, es: seq<Delivery>)
    requires UntimedLog(Run(EMPTY, self, ds).events) == UntimedLog(Run(EMPTY, self, es).events)
    ensures UntimedState(Run(EMPTY, self, ds)) == UntimedState(Run(EMPTY, self, es))
  {
    EventsRebuildTheStore(self, ds);
    EventsRebuildTheStore(self, es);
    ReplayIgnoresClocks(self, Run(EMPTY, self, ds).events, Run(EMPTY, self, es).events);
  }
}
