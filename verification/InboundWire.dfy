/** The receive gate for chat in terms of what is received: which values yield an envelope, which envelopes
    are chats, and which operations of an interleaved run yield a chat. */
module InboundWire {
  import opened Values
  import opened Envelopes
  import opened InboundChat
  import opened WireFields
  import EnvelopePolicy
  import EnvelopeHistory
  import Relationships

  /** What decryption yields, or what was sent in the clear if that is allowed. */
  ghost predicate Opened(value: Inbound, allowPlaintext: bool, e: Envelope) {
    value == Sealed(Some(e)) || (allowPlaintext && value == Plaintext(Some(e)))
  }

  lemma OpenedExactly(value: Inbound, allowPlaintext: bool, e: Envelope)
    ensures OpenInbound(value, allowPlaintext) == Some(e) <==> Opened(value, allowPlaintext, e)
  {
  }

  /** A chat has a text, and a thread id that is missing, null or a string. */
  ghost predicate HasText(e: Envelope) {
    && Carries(e, "aap.message/v1", {"text"})
    && var p := e.payload.fields;
    && p["text"].Str?
    && ("thread_id" in p ==> p["thread_id"].Str? || p["thread_id"].Null?)
  }

  lemma ChatExactly(e: Envelope)
    ensures IsChat(e) <==> HasText(e)
  {
  }

  lemma AnswerAt(ops: seq<Op>, cfg: Settings, k: nat, e: Envelope, attempts: seq<EnvelopePolicy.Attempt>)
    requires k < |ops| && attempts == Attempts(ops, cfg)
    requires ops[k].Receive? && OpenInbound(ops[k].value, cfg.allowPlaintext) == Some(e)
    ensures attempts[k] == EnvelopePolicy.Attempt(e, ops[k].key, ops[k].checkedAt, ops[k].storedAt)
    ensures Answer(map[], ops, cfg, k)
         == if EnvelopeHistory.PassesAt(cfg.policy, attempts, k) then Gate(RowsAfter(ops[..k]), e, cfg.types) else None
  {
    assert attempts[..k] == Attempts(ops[..k], cfg);
    assert attempts[k] == AttemptOf(ops[k], cfg);
  }

  /** The sender holds an active key of an allowed type other than team. */
  ghost predicate IsHeard(log: seq<Relationships.Entry>, sender: Address, types: seq<string>) {
    exists key: Key :: Relationships.IsActive(log, key) && IsChatKey(key, sender, types)
  }

  predicate IsChatKey(key: Key, sender: Address, types: seq<string>) {
    key.peer == sender && key.relType in types && key.relType != "team"
  }

  lemma HeardExactly(log: seq<Relationships.Entry>, sender: Address, types: seq<string>)
    ensures IsHeard(log, sender, types) <==> exists key :: Opens(log, key, sender, types)
  {
    if key: Key :| Relationships.IsActive(log, key) && IsChatKey(key, sender, types) {
      assert Opens(log, key, sender, types);
    }
  }

  lemma GateOpensExactly(calls: seq<Relationships.Call>, e: Envelope, types: seq<string>)
    ensures Gate(Relationships.Run(calls).rows, e, types).Some?
       <==> HasText(e) && IsHeard(Relationships.Log(calls), e.iss, types)
  {
    GateExactly(calls, e, types);
    ChatExactly(e);
    HeardExactly(Relationships.Log(calls), e.iss, types);
  }

  /** An operation of a run from an empty cache and an empty ledger yields a chat exactly when it receives an
      envelope in an allowed form that gets past signature and freshness, comes under a replay key that no
      remembered envelope has, has a text, and whose issuer holds an active key of an allowed type other
      than team. That envelope is the chat's. */
  lemma ChatYieldedExactly(ops: seq<Op>, cfg: Settings, lag: nat, k: nat, e: Envelope,
                           attempts: seq<EnvelopePolicy.Attempt>)
    requires k < |ops| && attempts == Attempts(ops, cfg) && EnvelopePolicy.Timed(attempts, lag)
    requires ops[k].Receive? && Opened(ops[k].value, cfg.allowPlaintext, e)
    ensures attempts[k] == EnvelopePolicy.Attempt(e, ops[k].key, ops[k].checkedAt, ops[k].storedAt)
    ensures Answer(map[], ops, cfg, k).Some?
       <==> && EnvelopePolicy.ReachesCache(cfg.policy, attempts[k])
            && EnvelopeHistory.Forgotten(cfg.policy, attempts, k)
            && HasText(e) && IsHeard(Relationships.Log(Calls(ops[..k])), e.iss, cfg.types)
    ensures Answer(map[], ops, cfg, k).Some? ==> Answer(map[], ops, cfg, k).value.envelope == e
  {
    OpenedExactly(ops[k].value, cfg.allowPlaintext, e);
    AnswerAt(ops, cfg, k, e, attempts);
    EnvelopeHistory.PassesExactly(cfg.policy, lag, attempts, k);
    GateOpensExactly(Calls(ops[..k]), e, cfg.types);
  }

  /** An operation that yields no envelope yields no chat. */
  lemma NothingOpened(seen: Seen, ops: seq<Op>, cfg: Settings, k: nat)
    requires k < |ops|
    requires ops[k].Ledger? || forall e :: !Opened(ops[k].value, cfg.allowPlaintext, e)
    ensures Answer(seen, ops, cfg, k).None?
  {
    if ops[k].Receive? && OpenInbound(ops[k].value, cfg.allowPlaintext).Some? {
      OpenedExactly(ops[k].value, cfg.allowPlaintext, OpenInbound(ops[k].value, cfg.allowPlaintext).value);
    }
  }
}
