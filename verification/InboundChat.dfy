/** The receive gate for chat messages (`aap/inbound.py`): decryption, envelope policy with a replay
    cache, payload shape, and an active relationship with the sender. */
module InboundChat {
  import opened Values
  import opened Envelopes
  import Base64Url
  import Signatures
  import EnvelopePolicy
  import Relationships
  import RelationshipReplay

  type Seen = EnvelopePolicy.Seen
  type Policy = EnvelopePolicy.Policy
  type Row = Relationships.Row
  type Key = Relationships.Key

  const CHAT := "aap.message/v1"
  const DEFAULT_TYPES := ["friend", "admin"]

  /** What was received. Decryption and JSON parsing are opaque: they yield an envelope or nothing. */
  datatype Inbound =
    | Plaintext(envelope: Option<Envelope>)
    | Sealed(decrypted: Option<Envelope>)
    | Unsupported

  function OpenInbound(value: Inbound, allowPlaintext: bool): Option<Envelope> {
    match value
    case Plaintext(e) => if allowPlaintext then e else None
    case Sealed(e) => e
    case Unsupported => None
  }

  /** `unwrap_chat_envelope` succeeds: a text, and a thread id that is a string when present. */
  predicate IsChat(e: Envelope) {
    && e.payloadType == CHAT && e.payload.Dict?
    && Get(e.payload.fields, "text").Str?
    && (Get(e.payload.fields, "thread_id") == Null || Get(e.payload.fields, "thread_id").Str?)
  }

  /** `_authorized_relationship`: the row of the first allowed type that has one. */
  function AuthorizedRow(rows: seq<Row>, sender: Address, types: seq<string>): (r: Option<Row>)
    ensures r.Some? <==> exists t <- types :: Relationships.FindRow(rows, sender, Some(t), Null).Some?
    ensures r.Some? ==> r.value in rows && r.value.peer == sender && r.value.relType in types
  {
    if types == [] then None
    else
      var found := Relationships.FindRow(rows, sender, Some(types[0]), Null);
      if found.Some? then found else AuthorizedRow(rows, sender, types[1..])
  }

  /** No earlier allowed type has a row for the sender. */
  lemma {:induction false} AuthorizedTypeIsFirst(rows: seq<Row>, sender: Address, types: seq<string>) returns (k: nat)
    requires AuthorizedRow(rows, sender, types).Some?
    ensures k < |types| && AuthorizedRow(rows, sender, types).value.relType == types[k]
    ensures Relationships.FindRow(rows, sender, Some(types[k]), Null) == AuthorizedRow(rows, sender, types)
    ensures forall j :: 0 <= j < k ==> Relationships.FindRow(rows, sender, Some(types[j]), Null).None?
  {
    if Relationships.FindRow(rows, sender, Some(types[0]), Null).Some? {
      k := 0;
    } else {
      k := AuthorizedTypeIsFirst(rows, sender, types[1..]);
      k := k + 1;
    }
  }

  datatype Chat = Chat(envelope: Envelope, relationship: Row)

  /** `validate_inbound_chat`, once the envelope check is done. */
  function Gate(rows: seq<Row>, e: Envelope, types: seq<string>): Option<Chat> {
    var row := AuthorizedRow(rows, e.iss, types);
    if IsChat(e) && row.Some? then Some(Chat(e, row.value)) else None
  }

  method FindAuthorized(store: Relationships.RelationshipStore, sender: Address, types: seq<string>)
    returns (r: Option<Row>)
    ensures r == AuthorizedRow(store.rows, sender, types)
  {
    for k := 0 to |types|
      invariant AuthorizedRow(store.rows, sender, types[k..]) == AuthorizedRow(store.rows, sender, types)
    {
      r := store.Find(sender, Some(types[k]), Null);
      if r.Some? { return; }
    }
    return None;
  }

  /** `validate_inbound_chat`. The future skew is not a parameter of the gate: the default applies.
      Without a cache nothing is remembered between calls. As in `VerifyEnvelope` a given `now` stands
      for both clock readings. */
  method ValidateInboundChat(value: Inbound, key: Signatures.Key, now: Option<int>, first: int, second: int,
                             maxAge: Option<int>, types: seq<string>, allowPlaintext: bool,
                             store: Relationships.RelationshipStore, cache: EnvelopePolicy.EnvelopeReplayCache?)
    returns (r: Option<Chat>)
    modifies cache
    ensures OpenInbound(value, allowPlaintext).None? ==> r.None? && (cache != null ==> cache.seen == old(cache.seen))
    ensures OpenInbound(value, allowPlaintext).Some? && cache == null ==>
      var e := OpenInbound(value, allowPlaintext).value;
      var p := EnvelopePolicy.Policy(maxAge, 300, 0);
      var ok := EnvelopePolicy.ReachesCache(p, EnvelopePolicy.AttemptAt(e, key, now, first, second));
      r == if ok then Gate(store.rows, e, types) else None
    ensures OpenInbound(value, allowPlaintext).Some? && cache != null ==>
      var e := OpenInbound(value, allowPlaintext).value;
      var p := EnvelopePolicy.Policy(maxAge, 300, cache.ttl);
      var a := EnvelopePolicy.AttemptAt(e, key, now, first, second);
      && cache.seen == EnvelopePolicy.AfterAttempt(old(cache.seen), p, a)
      && r == if EnvelopePolicy.Passes(old(cache.seen), p, a) then Gate(store.rows, e, types) else None
  {
    var received := OpenInbound(value, allowPlaintext);
    if received.None? { return None; }
    var e := received.value;
    var ok := EnvelopePolicy.VerifyEnvelope(e, key, now, first, second,
                                            maxAge, EnvelopePolicy.DEFAULT_FUTURE_SKEW, cache);
    if !ok { return None; }
    if !IsChat(e) { return None; }
    var row := FindAuthorized(store, e.iss, types);
    if row.None? { return None; }
    return Some(Chat(e, row.value));
  }

  // ---- when the gate is open ----

  /** An active key that a lookup for one of these types finds. A lookup for a team names no resource
      here, and every team row has one, so "team" finds nothing. */
  ghost predicate Opens(log: seq<Relationships.Entry>, key: Key, sender: Address, types: seq<string>) {
    key.peer == sender && key.relType in types && key.relType != "team" && Relationships.IsActive(log, key)
  }

  lemma FoundExactly(calls: seq<Relationships.Call>, sender: Address, t: string)
    ensures Relationships.FindRow(Relationships.Run(calls).rows, sender, Some(t), Null).Some?
       <==> exists key :: Opens(Relationships.Log(calls), key, sender, [t])
  {
    var rows, log := Relationships.Run(calls).rows, Relationships.Log(calls);
    var found := Relationships.FindRow(rows, sender, Some(t), Null);
    Relationships.RowsAreTyped(calls);
    if found.Some? {
      var key := Relationships.KeyOf(found.value);
      Relationships.ActiveKeyExactly(calls, key);
      assert Opens(log, key, sender, [t]);
    }
    if key :| Opens(log, key, sender, [t]) {
      Relationships.ActiveKeyExactly(calls, key);
      var r :| r in rows && Relationships.KeyOf(r) == key;
      assert Relationships.Matches(r, sender, Some(t), Null);
    }
  }

  /** The gate lets a chat through exactly when, for one of the allowed types and some resource, the last
      accepted event between the sender and this agent is a handshake. */
  lemma GateExactly(calls: seq<Relationships.Call>, e: Envelope, types: seq<string>)
    ensures Gate(Relationships.Run(calls).rows, e, types).Some?
       <==> IsChat(e) && exists key :: Opens(Relationships.Log(calls), key, e.iss, types)
  {
    var rows, log := Relationships.Run(calls).rows, Relationships.Log(calls);
    if t :| t in types && Relationships.FindRow(rows, e.iss, Some(t), Null).Some? {
      FoundExactly(calls, e.iss, t);
      var key :| Opens(log, key, e.iss, [t]);
      assert Opens(log, key, e.iss, types);
    }
    if key :| Opens(log, key, e.iss, types) {
      assert Opens(log, key, e.iss, [key.relType]);
      FoundExactly(calls, e.iss, key.relType);
    }
  }

  /** After an accepted revocation the gate is open exactly for those it was open for on another key: it
      closes for a sender when the revoked key was the sender's only active one of an allowed type. */
  lemma RevokeClosesExactly(calls: seq<Relationships.Call>, r: Relationships.Call, e: Envelope, types: seq<string>)
    requires r.Revoke? && Relationships.Accepts(Relationships.Run(calls), r)
    ensures Gate(Relationships.Run(calls + [r]).rows, e, types).Some?
       <==> && IsChat(e)
            && exists key ::
                 Opens(Relationships.Log(calls), key, e.iss, types) && key != Relationships.EntryOf(r).key
  {
    var log, after := Relationships.Log(calls), Relationships.Log(calls + [r]);
    GateExactly(calls + [r], e, types);
    if key :| Opens(after, key, e.iss, types) {
      Relationships.ActiveAfterRevoke(calls, r, key);
      assert Opens(log, key, e.iss, types) && key != Relationships.EntryOf(r).key;
    }
    if key :| Opens(log, key, e.iss, types) && key != Relationships.EntryOf(r).key {
      Relationships.ActiveAfterRevoke(calls, r, key);
      assert Opens(after, key, e.iss, types);
    }
  }

  /** In particular a friend's revocation does not close the gate on a friendship with another resource. */
  lemma RevokeLeavesOthersOpen(calls: seq<Relationships.Call>, r: Relationships.Call, e: Envelope, resource: Value)
    requires r.Revoke? && Relationships.Accepts(Relationships.Run(calls), r) && IsChat(e)
    requires Relationships.IsActive(Relationships.Log(calls), Relationships.Key(e.iss, "friend", resource))
    requires Relationships.EntryOf(r).key.resource != resource
    ensures Gate(Relationships.Run(calls + [r]).rows, e, DEFAULT_TYPES).Some?
  {
    assert DEFAULT_TYPES[0] == "friend";
    RevokeClosesExactly(calls, r, e, DEFAULT_TYPES);
    assert Opens(Relationships.Log(calls), Relationships.Key(e.iss, "friend", resource), e.iss, DEFAULT_TYPES);
  }

  /** Concretely: friends over a resource; the friend revokes the friendship without naming it, which is
      accepted, and is still heard. */
  lemma RevokedFriendIsHeard(self: Address, peer: Address, nonce: Value, used: Value, resource: Value, sig: string,
                             e: Envelope)
    requires self != peer && resource != Null && IsChat(e) && e.iss == peer
    ensures var c := RelationshipReplay.Handshake(self, peer, nonce, resource, 0, sig);
            var r := RelationshipReplay.Revoked(self, peer, used, Null, sig);
            && Relationships.Accepts(Relationships.Run([]), c) && Relationships.Accepts(Relationships.Run([c]), r)
            && Gate(Relationships.Run([c] + [r]).rows, e, DEFAULT_TYPES).Some?
  {
    var c := RelationshipReplay.Handshake(self, peer, nonce, resource, 0, sig);
    var r := RelationshipReplay.Revoked(self, peer, used, Null, sig);
    RelationshipReplay.HandshakeReads(self, peer, nonce, resource, 0, sig);
    RelationshipReplay.RevokeReads(self, peer, used, Null, sig);
    RelationshipReplay.FirstCalls(c, r);
    var row := Relationships.EntryOf(c).row;
    Relationships.ActiveExactly([c], row);
    assert Relationships.KeyOf(row) == Relationships.Key(peer, "friend", resource);
    RevokeLeavesOthersOpen([c], r, e, resource);
  }

  // ---- runs of the ledger and the gate, interleaved ----

  datatype Op =
    | Ledger(call: Relationships.Call, at: int)
    | Receive(value: Inbound, key: Signatures.Key, checkedAt: int, storedAt: int)

  datatype Settings = Settings(policy: Policy, types: seq<string>, allowPlaintext: bool)

  function Calls(ops: seq<Op>): seq<Relationships.Call> {
    if ops == [] then []
    else
      var op := ops[|ops| - 1];
      Calls(ops[..|ops| - 1]) + if op.Ledger? then [op.call] else []
  }

  /** How an operation looks to the replay cache. Anything that yields no envelope looks like one that is
      not signed: the cache is left alone. */
  function AttemptOf(op: Op, cfg: Settings): EnvelopePolicy.Attempt {
    var unsigned := Envelope("", Null, "", None, Null, None);
    match op
    case Ledger(_, at) => EnvelopePolicy.Attempt(unsigned, (_, _) => false, at, at)
    case Receive(value, key, checkedAt, storedAt) =>
      var e := OpenInbound(value, cfg.allowPlaintext);
      EnvelopePolicy.Attempt(if e.Some? then e.value else unsigned, key, checkedAt, storedAt)
  }

  function Attempts(ops: seq<Op>, cfg: Settings): (r: seq<EnvelopePolicy.Attempt>)
    ensures |r| == |ops| && forall i :: 0 <= i < |ops| ==> r[i] == AttemptOf(ops[i], cfg)
  {
    seq(|ops|, i requires 0 <= i < |ops| => AttemptOf(ops[i], cfg))
  }

  function RowsAfter(ops: seq<Op>): seq<Row> {
    Relationships.Run(Calls(ops)).rows
  }

  function SeenAfter(seen: Seen, ops: seq<Op>, cfg: Settings): Seen {
    EnvelopePolicy.After(seen, cfg.policy, Attempts(ops, cfg))
  }

  /** The answer to the `k`-th operation, given everything before it. */
  function Answer(seen: Seen, ops: seq<Op>, cfg: Settings, k: nat): Option<Chat>
    requires k < |ops|
  {
    var a := AttemptOf(ops[k], cfg);
    if EnvelopePolicy.Passes(SeenAfter(seen, ops[..k], cfg), cfg.policy, a)
    then Gate(RowsAfter(ops[..k]), a.envelope, cfg.types)
    else None
  }

  /** Every accepted chat is authorized by an active row for its sender, of the first allowed type
      that has one, whose key was last touched by the very handshake that made the row. */
  lemma AcceptedChatIsAuthorized(seen: Seen, ops: seq<Op>, cfg: Settings, k: nat) returns (first: nat)
    requires k < |ops| && Answer(seen, ops, cfg, k).Some?
    ensures var chat := Answer(seen, ops, cfg, k).value;
            var row := chat.relationship;
            && ops[k].Receive? && OpenInbound(ops[k].value, cfg.allowPlaintext) == Some(chat.envelope)
            && (!cfg.allowPlaintext ==> ops[k].value.Sealed?)
            && Signatures.Verifies(chat.envelope, ops[k].key) && IsChat(chat.envelope)
            && row in RowsAfter(ops[..k]) && row.peer == chat.envelope.iss
            && Relationships.LastOn(Relationships.Log(Calls(ops[..k])), Relationships.KeyOf(row))
               == Some(Relationships.Established(row))
            && first < |cfg.types| && row.relType == cfg.types[first]
            && forall j :: 0 <= j < first ==>
                 Relationships.FindRow(RowsAfter(ops[..k]), row.peer, Some(cfg.types[j]), Null).None?
  {
    var chat := Answer(seen, ops, cfg, k).value;
    first := AuthorizedTypeIsFirst(RowsAfter(ops[..k]), chat.envelope.iss, cfg.types);
    Relationships.ActiveExactly(Calls(ops[..k]), chat.relationship);
  }

  /** With a cache that outlives the freshness window and the lag between its clock readings each
      envelope yields at most one accepted chat. An attempt that got past the cache uses the envelope
      up, even when the gate then refused it. */
  lemma OneChatPerEnvelope(seen: Seen, ops: seq<Op>, cfg: Settings, lag: nat, i: nat, j: nat)
    requires i < j < |ops| && EnvelopePolicy.Timed(Attempts(ops, cfg), lag)
    requires EnvelopePolicy.NothingFresh(cfg.policy) || EnvelopePolicy.OutlivesWindow(cfg.policy, lag)
    requires AttemptOf(ops[i], cfg).envelope == AttemptOf(ops[j], cfg).envelope
    requires EnvelopePolicy.Passes(SeenAfter(seen, ops[..i], cfg), cfg.policy, AttemptOf(ops[i], cfg))
    ensures Answer(seen, ops, cfg, j).None?
  {
    var attempts := Attempts(ops, cfg);
    assert attempts[..i] == Attempts(ops[..i], cfg) && attempts[..j] == Attempts(ops[..j], cfg);
    EnvelopePolicy.AcceptedAtMostOnce(seen, cfg.policy, lag, attempts, i, j);
  }

  /** The same for signed messages, as long as their signatures are spelled canonically. */
  lemma OneChatPerMessage(seen: Seen, ops: seq<Op>, cfg: Settings, lag: nat, i: nat, j: nat)
    requires i < j < |ops| && EnvelopePolicy.Timed(Attempts(ops, cfg), lag)
    requires EnvelopePolicy.NothingFresh(cfg.policy) || EnvelopePolicy.OutlivesWindow(cfg.policy, lag)
    requires Signatures.SameMessage(AttemptOf(ops[i], cfg).envelope, AttemptOf(ops[j], cfg).envelope)
    requires Base64Url.Canonical(AttemptOf(ops[i], cfg).envelope.sig.value)
    requires Base64Url.Canonical(AttemptOf(ops[j], cfg).envelope.sig.value)
    requires EnvelopePolicy.Passes(SeenAfter(seen, ops[..i], cfg), cfg.policy, AttemptOf(ops[i], cfg))
    ensures Answer(seen, ops, cfg, j).None?
  {
    Signatures.CanonicalMessageIsEnvelope(AttemptOf(ops[i], cfg).envelope, AttemptOf(ops[j], cfg).envelope);
    OneChatPerEnvelope(seen, ops, cfg, lag, i, j);
  }

  /** Once the last accepted event on a key is a revocation, no chat is accepted on the strength of that
      key until a new handshake is; but a chat that gets past the cache is accepted exactly when some
      other key of its sender is active. */
  lemma RevokedKeyGrantsNothing(seen: Seen, ops: seq<Op>, cfg: Settings, k: nat, key: Key)
    requires k < |ops|
    requires Relationships.LastOn(Relationships.Log(Calls(ops[..k])), key) == Some(Relationships.Revoked(key))
    ensures Answer(seen, ops, cfg, k).Some? ==> Relationships.KeyOf(Answer(seen, ops, cfg, k).value.relationship) != key
    ensures var a := AttemptOf(ops[k], cfg);
            Answer(seen, ops, cfg, k).Some?
            <==> && EnvelopePolicy.Passes(SeenAfter(seen, ops[..k], cfg), cfg.policy, a) && IsChat(a.envelope)
                 && exists other ::
                      Opens(Relationships.Log(Calls(ops[..k])), other, a.envelope.iss, cfg.types) && other != key
  {
    GateExactly(Calls(ops[..k]), AttemptOf(ops[k], cfg).envelope, cfg.types);
    if Answer(seen, ops, cfg, k).Some? {
      var first := AcceptedChatIsAuthorized(seen, ops, cfg, k);
    }
  }
}
