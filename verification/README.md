# Verified model of the AAP SDK's protocol stores

The SDK keeps what its agent has been told in stores that receive signed envelopes and decide what to
keep: group conversations, relationships, service requests, follow-up grants, a replay cache, a cached
list of trusted verifiers. This project models those stores and proves what they guarantee over whole
runs, together with the two decoders and the duration parser they depend on.

`dafny verify dfyconfig.toml` checks everything.

## How the model is laid out

Every store appears twice. A class has the store's own fields and changes them in place, branch for
branch; a transition system (`Accepts`, `Step`, `Run`, or the like) says which call is accepted in
which state and what the state is afterwards. The class methods are proved to be exactly that step,
and the theorems are about all runs of it.

- `Values`, `Envelopes`, `Payloads`: decoded JSON values (Python's booleans are the numbers 0 and 1),
  envelopes, and the payload validators.
- `Conversations`, `ConversationStores` (in `ConversationStore.dfy`): the group-conversation protocol
  and its store. `ConversationSafety`: what every run keeps. `ConversationHistory`: the log explains
  members, convener and completion. `ConversationReplay`: the log rebuilds the store.
  `ConversationReplicas`: agreement of two participants.
- `ConversationWire`, `RelationshipWire`, `ServiceWire`, `InboundWire`, with `WireFields`: each protocol
  once more in terms of payload fields alone, with exactly what is accepted, what is held afterwards,
  and where everything held comes from.
- `Signatures`: what of an envelope is signed, and the text of a signature. `EnvelopePolicy`: freshness
  and the replay cache. `EnvelopeHistory`: the same in numbers, and the cache by the attempts before.
  `MessageReplay`: replay of one signed message under different texts.
- `Relationships`: the ledger of handshakes and revocations. `RelationshipReplay`: a handshake presented
  again. `InboundChat`: the receive gate for chat. `ServiceRequests`: requests and responses.
- `Durations`, `FollowupGrants`: the duration grammar, and the rate limit of follow-up grants.
  `FollowupReplay`: grants recorded again. `FollowupWindow`: grants in payload fields, seconds and days.
- `TrustList`: the trust-list cache over time, and the merge with local overrides.
- `Digits`, `Base58`, `Base64Url`: positional numbers and the two codecs.

Ed25519, decryption and agent cards are opaque: what they say is an input of a call. For the replay cache
it matters what they are asked, so there an envelope verifies when the bytes its signature text decodes
to are accepted, by a key that is an arbitrary predicate, for the rest of the envelope. Clocks are inputs
too, in integer microseconds; wherever the code prints a time and reads it back, the fraction of a second
is dropped (`TruncateToSecond`). `verify_envelope` reads the clock once for freshness and once more for
the cache unless it is given a `now`; an attempt therefore has two times, and a run a bound on the lag
between them, which is 0 when `now` is given. Envelope text is an input that either parses or does not
(`Wire`). One locked or synchronous method call is one step.

## Where the code and its promises differ

- **Replicas.** Two agents that hold the same conversation agree on everything both are handed, until one
  drops it, if and only if it is completed or their logs hold the same update, leave and completion
  nonces for it (`AgreementExactly`). An agent that was removed earlier and is invited again refuses a
  reused nonce that a newcomer accepts (`RejoinedAgentDisagrees`). In a group of two a leave makes the
  other agent drop the conversation as well.
- **Replay cache.** No envelope is accepted twice if and only if nothing is ever fresh or, in
  microseconds, the ttl exceeds maximum age plus future skew plus 999999 plus the lag between the two
  clock readings (`AtMostOnceExactly`): with a given `now` one second more than maximum age plus skew is
  enough, a lag of one microsecond already needs more, and no ttl is enough for every lag (`LagCounts`).
  The default cache lives exactly as long as the default maximum age, so an envelope dated up to five
  minutes ahead can be accepted twice (`DefaultsCanAcceptTwice`); which accepted envelopes can be is
  `PassesAgainExactly`.
- **Spellings of a signature.** The cache remembers the text of a signature, verification looks at the
  bytes it decodes to, and base64url decoding is lenient: foreign characters are skipped, '+' and '/'
  are accepted, and stray bits in the last letter are dropped. Text survives decoding and encoding if and
  only if it is canonical (`CanonicalExactly`). So whatever the ttl and whatever the cache holds, a
  verified, fresh message passes under another spelling (`RespelledPasses`), any number of times
  (`AnyNumberPass`); at most once per signed message holds exactly when, besides the ttl bound, only one
  spelling of each signature is let through (`OncePerMessageExactly`), canonical text for example
  (`CanonicalOncePerMessageExactly`).
- **Handshake replay.** `CHANGELOG.md` lists replay among the checks of a handshake. Proposal nonces are
  looked up among active rows only: a handshake is accepted, first or again, if and only if every logged
  handshake with its nonce has been revoked or replaced (`AcceptedAgainExactly`). After a revocation the
  same signed proposal is a relationship again, also with a fresh accept (`HandshakeReturns`,
  `HandshakeReplayed`). Revoke nonces are remembered for good.
- **Revocation and the gate.** `payloads.py` promises that after a revocation messages of the revoker fall
  back to the stranger gate. The resource is part of a row's key for every type, but the gate's lookup
  ignores it: the gate is open exactly while some key of the sender with an allowed type other than team
  is active (`GateExactly`), and an accepted revocation closes it exactly when no other such key is left
  (`RevokeClosesExactly`). A friend who revokes without naming the friendship's resource is still heard
  (`RevokedFriendIsHeard`). Allowing "team" lets nobody in.
- **Follow-up replay.** The repository's README says a grant is stored only if its nonce has not been
  stored before. Nonces are looked up among the grants held now: a grant is recorded, first or again, if
  and only if none of them has its nonce (`RecordedExactly`), so also after it was revoked or replaced.
  Its stamp is then gone, and it can be used again at once (`RunWithTwoUses`). The rate limit therefore
  holds per slot between accepted records (`RecordedSlotLimit`), not across them.
- **Durations.** The pattern's `$` lets one trailing newline through, so that the bare "P" is refused but
  "P" and a newline are accepted (`NewlineHidesBareP`, `AcceptedExactly`).

## Model

| member | source | states |
|---|---|---|
| Payloads.ValidateMembersList | src/aap/payloads.py:16-37 | succeeds exactly on lists of 2 to 10 pairwise distinct non-empty strings (the code compares set and list sizes) |
| Payloads.ParseInvitation | src/aap/payloads.py:168-184 | exactly which payloads are invitations; the convener is one of a proper member list |
| Payloads.ParseMembershipUpdate | src/aap/payloads.py:210-226 | exactly which payloads are membership updates, listable additions and removals included |
| Values.CardinalityMeansDistinct | src/aap/payloads.py:36-37 | a list is as long as its set exactly when no entry repeats |
| ConversationStores.ConversationStore.Find | src/aap/conversations.py:120-124 | the record held under an id, or null exactly when there is none |
| ConversationStores.ConversationStore.IsFresh | src/aap/conversations.py:389-403 | true exactly when the nonce is present and no event with this id, kind and nonce is logged |
| ConversationStores.ConversationStore.OpenEnvelope | src/aap/conversations.py:491-514 | succeeds exactly on text that parses, has the right payload type and verifies |
| ConversationStores.ConversationStore.RecordEvent | src/aap/conversations.py:405-421 | appends one event and touches nothing else |
| ConversationStores.ConversationStore.DropConversation | src/aap/conversations.py:275-281 | removes every conversation with the id, keeps the others in order |
| ConversationStores.ConversationStore.CheckInvitation | src/aap/conversations.py:167-188 | the checks of an invitation pass exactly when the protocol accepts it, and change nothing |
| ConversationStores.ConversationStore.AcceptInvitation | src/aap/conversations.py:160-209 | in-place method is the protocol step; accepted exactly when the protocol accepts; nothing changes otherwise |
| ConversationStores.ConversationStore.CheckMembershipUpdate | src/aap/conversations.py:218-266 | all checks of an update together decide acceptance, and find the addressed record |
| ConversationStores.ConversationStore.CheckDiff | src/aap/conversations.py:242-266 | no objection exactly when declared additions and removals are the two set differences and the convener rule holds |
| ConversationStores.ConversationStore.ApplyMembershipUpdate | src/aap/conversations.py:211-286 | in-place method is the protocol step, including the drop when the local agent is left out |
| ConversationStores.ConversationStore.CommitMembershipUpdate | src/aap/conversations.py:268-286 | the changes of an accepted update are the protocol step; what is returned is the record still held, or nothing |
| ConversationStores.ConversationStore.CheckLeave | src/aap/conversations.py:295-320 | all checks of a leave together decide acceptance |
| ConversationStores.ConversationStore.RemoveMember | src/aap/conversations.py:337-346 | one member is taken out, in place; a group of one is dropped |
| ConversationStores.ConversationStore.ApplyLeave | src/aap/conversations.py:288-346 | in-place method is the protocol step, including both ways a leave drops the conversation |
| ConversationStores.ConversationStore.CheckComplete | src/aap/conversations.py:354-376 | all checks of a completion together decide acceptance |
| ConversationStores.ConversationStore.ApplyComplete | src/aap/conversations.py:348-387 | in-place method is the protocol step; the completed record stays |
| ConversationWire.InvitationExactly | src/aap/conversations.py:160-209 | an invitation is accepted if and only if it verified, carries its five fields, its proper member list has the local agent and the issuer as convener, and its id and nonce are new |
| ConversationWire.InvitationOutcome | src/aap/conversations.py:190-209 | what is then held, field by field, and logged |
| ConversationWire.DeclaresExactly | src/aap/payloads.py:210-226 | which values a payload field lists, for lists, strings, dicts, and empty or missing fields |
| ConversationWire.UpdateExactly | src/aap/conversations.py:211-286 | an update is accepted if and only if it verified, comes from the convener of an open conversation, declares exactly the two set differences, names a handoff exactly when there is one, and has a new nonce |
| ConversationWire.UpdateOutcome | src/aap/conversations.py:268-286 | then exactly its members and convener are held at the same place, or the conversation is dropped when the local agent is not among them; all else stays |
| ConversationWire.ConvenerMayChange | src/aap/conversations.py:242-286 | every proper member list and every convener in it, handoffs included: the update that declares them, signed by the current convener with an unused nonce, is accepted, and they are held |
| ConversationWire.LeaveExactly | src/aap/conversations.py:288-320 | a leave is accepted if and only if it verified, its issuer is a member but not the convener of the open conversation, and its nonce is new |
| ConversationWire.LeaveOutcome | src/aap/conversations.py:321-346 | then exactly its issuer is taken out, order kept, or the conversation dropped when the issuer is the local agent or would leave one member |
| ConversationWire.CompleteExactly | src/aap/conversations.py:348-376 | a completion is accepted if and only if it verified, comes from the convener of the open conversation, and its nonce is new |
| ConversationWire.CompleteOutcome | src/aap/conversations.py:377-387 | then only the completion time changes |
| ConversationWire.UnknownIsRefused | src/aap/conversations.py:223-225 | an event other than an invitation for a conversation that is not held is refused |
| ConversationSafety.StepKeepsInv | src/aap/conversations.py:160-387 | one call keeps the store invariant |
| ConversationSafety.RunKeepsInv | src/aap/conversations.py:160-387 | reachable states: distinct ids; 2 to 10 distinct non-empty members including convener and local agent; no event key logged twice |
| ConversationSafety.LogOnlyGrows | src/aap/conversations.py:405-421 | the event log of a run extends the log it started from |
| ConversationSafety.NeverAcceptedTwice | src/aap/conversations.py:389-403 | no two deliveries with the same conversation id, operation and nonce are both accepted in a run, whatever else they hold, even after the conversation was dropped |
| ConversationSafety.CompletedIsFinal | src/aap/conversations.py:529-533 | a completed conversation is in every later state, unchanged |
| ConversationSafety.OthersUntouched | src/aap/conversations.py:160-387 | a call neither adds, drops nor changes a conversation it does not address |
| ConversationSafety.DropExactly | src/aap/conversations.py:268-346 | a conversation is dropped exactly by an accepted update without the local agent, its own leave, or a leave out of a group of two |
| ConversationSafety.OpenedByItsConvener | src/aap/conversations.py:178-200 | a conversation appears only by its convener's accepted invitation, with the invited members |
| ConversationSafety.ChangedByAuthority | src/aap/conversations.py:240-337 | members change only by the current convener or by removing exactly the issuer, a non-convener member; convener and completion only by the current convener |
| ConversationHistory.UpdatedMembers | src/aap/conversations.py:242-251 | an allowed update preserves that the log adds up to the members, as a set and in number |
| ConversationHistory.RemainingMembers | src/aap/conversations.py:337 | so does a leave |
| ConversationHistory.UpdatedConvener | src/aap/conversations.py:253-266 | an allowed update preserves the unbroken chain of conveners |
| ConversationHistory.StepStaysExplained | src/aap/conversations.py:160-387 | one call preserves that the log explains every held conversation |
| ConversationHistory.RunStaysExplained | src/aap/conversations.py:160-387 | after any run members = invited + additions - removals and leavers in order, also in number; the convener ends a chain of handoffs each by the convener of the time; completed exactly when a completion is logged |
| ConversationReplay.UntimedStep | src/aap/conversations.py:160-421 | blanking the clock readings commutes with an accepted step |
| ConversationReplay.EventsRebuildTheStore | src/aap/conversations.py:160-421 | replaying the recorded events from empty refuses none and rebuilds conversations in order, up to timestamps |
| ConversationReplay.SameLogSameStore | src/aap/conversations.py:405-421 | runs that recorded the same events hold the same conversations, up to timestamps |
| ConversationReplicas.SameVerdict | src/aap/conversations.py:211-387 | replicas with the same conversation and the same update, leave and completion nonces decide every envelope for it alike |
| ConversationReplicas.StaysInStep | src/aap/conversations.py:211-387 | one common delivery keeps them so, unless one drops the conversation |
| ConversationReplicas.RunStaysInStep | src/aap/conversations.py:211-387 | any number of common deliveries does |
| ConversationReplicas.PartsExactly | src/aap/conversations.py:268-346 | one of them drops it exactly at an accepted update leaving one of the two out, or the accepted leave of one of the two |
| ConversationReplicas.ReplicasAgree | src/aap/conversations.py:211-346 | from a common invitation on, old invitation nonces aside: same members, convener, completion and verdicts while both hold it, and exactly what ends that |
| ConversationReplicas.ProbeTestsTheNonce | src/aap/conversations.py:389-403 | for every kind and nonce there is a dated, signed envelope that only the nonce check can refuse |
| ConversationReplicas.AgreementNeedsEqualLogs | src/aap/conversations.py:389-403 | with the conversation open, agreement on whatever comes next holds if and only if the logs hold the same update, leave and completion nonces |
| ConversationReplicas.AgreementExactly | src/aap/conversations.py:211-387 | agreement over every common continuation until one drops the conversation holds if and only if it is completed or those nonces are the same |
| ConversationReplicas.RejoinedAgentDisagrees | src/aap/conversations.py:389-403 | a rejoined agent and a newcomer accept the same invitation and decide the next update differently |
| EnvelopePolicy.EnvelopeReplayCache.Prune | src/aap/envelope_policy.py:115-121 | keeps exactly the entries younger than the ttl |
| EnvelopePolicy.EnvelopeReplayCache.CheckAndStore | src/aap/envelope_policy.py:107-113 | refuses exactly a key that survives pruning; otherwise stores it with the time cut to the second |
| EnvelopePolicy.VerifyEnvelope | src/aap/envelope_policy.py:53-77 | with either clock mode, passes exactly a verified envelope fresh at the first time and unseen at the second; a failed attempt before the cache leaves the cache alone |
| EnvelopePolicy.EntryRetained | src/aap/envelope_policy.py:107-121 | an accepted envelope's entry survives any attempts until the cache's clock has moved ttl past its stored second |
| EnvelopePolicy.NotAcceptedAgain | src/aap/envelope_policy.py:34-77 | no second acceptance, in any run with this lag, when the last fresh moment plus the lag comes before the entry runs out |
| EnvelopePolicy.PassesAgainExactly | src/aap/envelope_policy.py:34-77 | after an acceptance, another attempt of the same envelope can pass if and only if a check while it is fresh can be followed, within the lag, by a look into the cache with the entry run out |
| EnvelopePolicy.AcceptedAtMostOnce | src/aap/envelope_policy.py:34-77 | above the bound (ttl against max age, skew, second truncation and lag) no envelope passes twice, in any run |
| EnvelopePolicy.PastIssueAcceptedAtMostOnce | src/aap/envelope_policy.py:34-77 | ttl >= max age: the same for envelopes issued more than the lag before the second of first acceptance |
| EnvelopePolicy.RedeliveredPassesTwice | src/aap/envelope_policy.py:87-121 | below the bound, a concrete pair of attempts that both pass |
| EnvelopePolicy.AtMostOnceExactly | src/aap/envelope_policy.py:34-121 | for every policy and lag, at-most-once holds if and only if nothing is ever fresh or entries outlive freshness window, truncation and lag |
| EnvelopePolicy.LagCounts | src/aap/envelope_policy.py:42-117 | given one time, ttl >= max age + skew + 1 s is exact; one microsecond of lag defeats that ttl, and some lag any ttl |
| EnvelopePolicy.DefaultsCanAcceptTwice | src/aap/envelope_policy.py:87-91 | the default ttl and freshness window do not meet the bound, whatever the lag |
| EnvelopeHistory.ReachesCacheExactly | src/aap/envelope_policy.py:34-71 | signature and freshness pass if and only if the signature text decodes to 64 bytes the key accepts for the unsigned envelope, and the issue time is within skew and age, in microseconds |
| EnvelopeHistory.ReplayKeyExactly | src/aap/envelope_policy.py:76-79 | envelopes share a replay key if and only if they share issuer and signature text, when that has no colon |
| EnvelopeHistory.EntryStems | src/aap/envelope_policy.py:106-121 | every entry of the cache was stored by an attempt that was let through, dated to its second |
| EnvelopeHistory.PassesExactly | src/aap/envelope_policy.py:50-121 | an attempt of a run is let through if and only if it passes signature and freshness and no attempt let through under its key is less than the ttl old |
| EnvelopeHistory.DefaultsInSeconds | src/aap/envelope_policy.py:13-14 | the default limits are 2592000, 300 and 2592000 seconds, and an envelope can be accepted twice under them |
| MessageReplay.OtherSpellingPassesExactly | src/aap/envelope_policy.py:80-121 | whatever a cache holds, another spelling of a verified, fresh message passes if and only if that very spelling is not remembered |
| MessageReplay.OtherSpellingPasses | src/aap/envelope_policy.py:80-83 | right after any accepted attempt its message passes again in a spelling not remembered from before |
| MessageReplay.RespelledPasses | src/aap/envelope_policy.py:80-83 | for every cache contents and ttl, a verified, fresh message passes with enough foreign characters in front of its signature |
| MessageReplay.AnyNumberPass | src/aap/envelope_policy.py:80-121 | one message can be accepted any number of times at one instant, whatever the cache holds at first |
| MessageReplay.OncePerMessageExactly | src/aap/envelope_policy.py:53-83 | no signed message passes twice if and only if nothing can pass at all, or the ttl bound holds and each signature has one admitted spelling |
| MessageReplay.AnySpellingPassesTwice | src/aap/envelope_policy.py:53-83 | with every spelling admitted, as in the code, no ttl gives at-most-once per message |
| MessageReplay.CanonicalOncePerMessageExactly | src/aap/envelope_policy.py:53-83 | with canonical spellings only, the ttl bound for envelopes is exactly the bound for messages |
| Signatures.RespelledIsSameMessage | src/aap/envelope.py:94-101 | foreign characters in front of a signature, four at a time, leave the signed message the same |
| Signatures.CanonicalMessageIsEnvelope | src/aap/envelope.py:90-101 | two canonically spelled envelopes of one message are the same envelope |
| Envelopes.TruncateToSecond | src/aap/envelope_policy.py:112 | the last whole second not after a time |
| Relationships.RowsAreSurvivors | src/aap/relationships.py:186-350 | after any run the active rows are, in order, the accepted handshakes no later accepted event replaced or revoked |
| Relationships.ActiveExactly | src/aap/relationships.py:186-350 | a row is active if and only if the last accepted event on its key is the handshake that made it |
| Relationships.ActiveKeyExactly | src/aap/relationships.py:186-350 | a key has an active row if and only if its last accepted event is a handshake, and then only that row |
| Relationships.RunKeepsInv | src/aap/relationships.py:263-350 | keys, active proposal nonces and revoke nonces are pairwise distinct in every run |
| Relationships.RevocationsOnlyGrow | src/aap/relationships.py:325-333 | the revocations of a run extend those of every prefix |
| Relationships.RevokeNonceOnce | src/aap/relationships.py:352-364 | no revoke nonce is accepted twice in a run |
| Relationships.AcceptedAgainExactly | src/aap/relationships.py:282-294 | a handshake is accepted, first or again, if and only if every logged handshake with its nonce has since been revoked or replaced |
| Relationships.RowsAreTyped | src/aap/relationships.py:263-270 | every active row of a run has a known type, and a resource if it is a team |
| Relationships.ActiveAfterRevoke | src/aap/relationships.py:335-350 | an accepted revocation deactivates its own key and no other |
| RelationshipReplay.HandshakeReturns | src/aap/relationships.py:282-294 | between handshake and revocation any handshake with that proposal nonce is refused; right after the revocation it is accepted, with the old accept or a new one |
| RelationshipReplay.HandshakeReplayed | src/aap/relationships.py:186-350 | concrete calls: handshake, revocation, and the same proposal with a fresh accept are all accepted |
| Relationships.FindRow | src/aap/relationships.py:135-150 | a matching active row, or nothing exactly when none matches |
| Relationships.RelationshipStore.Find | src/aap/relationships.py:135-150 | the scan returns the first matching row |
| Relationships.RelationshipStore.HasSeenProposalNonce | src/aap/relationships.py:282-294 | true exactly when an active row's proposal reads back with this nonce |
| Relationships.RelationshipStore.HasSeenRevocationNonce | src/aap/relationships.py:352-364 | true exactly when a stored revocation reads back with this nonce |
| Relationships.RelationshipStore.AddVerified | src/aap/relationships.py:263-280 | the row replaces whatever had its key, at the end |
| Relationships.RelationshipStore.EstablishRelationship | src/aap/relationships.py:186-261 | in-place method is the ledger step; succeeds exactly when the handshake is accepted |
| Relationships.RelationshipStore.RevokeRelationship | src/aap/relationships.py:296-350 | in-place method is the ledger step; says exactly whether an active row was removed |
| RelationshipWire.ProposalExactly | src/aap/payloads.py:594-609 | exactly which proposals are well formed, and what is read off them |
| RelationshipWire.AcceptExactly | src/aap/payloads.py:632-638 | exactly which accepts are well formed, and the nonce they refer to |
| RelationshipWire.HandshakeExactly | src/aap/relationships.py:186-245 | the checks of a handshake, each on its own: both envelopes verified, issued by exactly the two parties, cards naming the issuers, the accept for this proposal's nonce; and the row it makes |
| RelationshipWire.RowsStem | src/aap/relationships.py:186-261 | after any run every active row was made by a handshake of the run that passed all of them |
| RelationshipWire.EstablishExactly | src/aap/relationships.py:186-261 | a handshake is accepted if and only if it passes them and no active row has its proposal nonce; then its row is the newest and exactly the rows with its key are gone |
| RelationshipWire.RevocationsStem | src/aap/relationships.py:296-350 | every stored revocation is a verified envelope of one of the two parties, with that party as revoker |
| RelationshipWire.RevokeExactly | src/aap/relationships.py:296-350 | a revocation is accepted if and only if it verified, one of the two issued it, and its nonce is new; then it is stored and exactly the rows with its key are gone |
| RelationshipWire.FoundFirst | src/aap/relationships.py:135-150 | a lookup yields the oldest row of the peer, of the type asked for, and for a team of the resource |
| Relationships.ShrinksExactly | src/aap/relationships.py:337-350 | comparing lengths before and after tells whether a row with the key was there |
| InboundChat.AuthorizedRow | src/aap/inbound.py:187-205 | some active row of the sender with an allowed type, or nothing exactly when there is none |
| InboundChat.AuthorizedTypeIsFirst | src/aap/inbound.py:187-205 | it is of the first allowed type that has one |
| InboundChat.FindAuthorized | src/aap/inbound.py:187-205 | the loop over the allowed types computes it |
| InboundChat.ValidateInboundChat | src/aap/inbound.py:45-127 | in either clock mode, exactly which inbound values yield a chat, and what the replay cache holds afterwards in every case |
| InboundChat.FoundExactly | src/aap/relationships.py:135-150 | a lookup by type without resource finds a row if and only if a key of that type, other than team, is active for the peer |
| InboundChat.GateExactly | src/aap/inbound.py:187-205 | after any run the gate opens for a chat if and only if some key of its issuer with an allowed type other than team was last touched by a handshake |
| InboundChat.RevokeClosesExactly | src/aap/inbound.py:187-205 | after an accepted revocation it is open if and only if such a key other than the revoked one was active |
| InboundChat.RevokeLeavesOthersOpen | src/aap/payloads.py:663-665 | a revocation for another resource leaves the gate open for a friend |
| InboundChat.RevokedFriendIsHeard | src/aap/payloads.py:663-665 | concrete calls: a friend over a resource revokes without naming it, which is accepted, and is let through |
| InboundChat.AcceptedChatIsAuthorized | src/aap/inbound.py:45-127 | in interleaved runs an accepted chat was sealed (unless plaintext is allowed), verified, and rests on an active row of its issuer whose key was last touched by that row's handshake, of the first allowed type with a row |
| InboundChat.OneChatPerEnvelope | src/aap/inbound.py:95-127 | above the ttl bound for the lag, an envelope that once got past the cache yields no later chat, even if the gate refused it |
| InboundChat.OneChatPerMessage | src/aap/inbound.py:95-127 | the same for a signed message whose signature is spelled canonically |
| InboundChat.RevokedKeyGrantsNothing | src/aap/inbound.py:187-205 | while a key is revoked no chat rests on it, and a chat past the cache is accepted if and only if another key of its sender opens the gate |
| InboundWire.OpenedExactly | src/aap/inbound.py:130-170 | an envelope comes out of what was sealed, or of plaintext when that is allowed, and of nothing else |
| InboundWire.ChatExactly | src/aap/messages.py:133-155 | a chat has the message type, a text, and a thread id that is missing, null or a string |
| InboundWire.ChatYieldedExactly | src/aap/inbound.py:45-205 | in interleaved runs an operation yields a chat if and only if its envelope passes signature and freshness, nothing remembered has its replay key, it has a text, and its issuer has an active key of an allowed type other than team |
| Base58.ReadNumber | src/aap/did_web.py:195-200 | the loop succeeds exactly on alphabet strings and yields their base-58 value |
| Base58.AlphabetExactly | src/aap/did_web.py:16 | 58 characters in increasing order: the ASCII letters and digits except 0, I, O and l |
| Base58.BytesAreMinimal | src/aap/did_web.py:201 | `(bit_length + 7) // 8` big-endian bytes are the shortest base-256 representation |
| Base58.OnesAreZeroDigits | src/aap/did_web.py:202 | the stripped '1's are exactly the leading zero digits |
| Base58.DecodeBase58btc | src/aap/did_web.py:191-203 | succeeds exactly on 'z' + alphabet letters, and yields the recoded bytes |
| Base58.DecodeAfterEncode | src/aap/did_web.py:191-203 | decoding the encoding of any byte string gives it back (Base58 algorithms of draft-msporny-base58) |
| Base58.EncodeAfterDecode | src/aap/did_web.py:191-203 | encoding what any alphabet string decodes to gives it back, all-'1' and empty ones included |
| Digits.RecodeBack | src/aap/did_web.py:195-203 | changing the base with leading zeros carried over loses nothing, for any two bases |
| Digits.FromToDigits | src/aap/did_web.py:195-201 | a number is the value of its shortest representation |
| Digits.ToFromDigits | src/aap/did_web.py:195-201 | a representation without leading zeros is the shortest one of its value |
| Base64Url.PaddingIsRecoverable | src/aap/keys.py:63-74 | the encoding is the letters alone, without '=', and `-len % 4` is exactly the 0, 1 or 2 pad characters stripped |
| Base64Url.RoundTrip | src/aap/keys.py:63-74 | decoding the encoding of any byte string gives it back (sections 4 and 5 of RFC 4648) |
| Base64Url.EncodingIsInjective | src/aap/keys.py:63-65 | different byte strings have different encodings |
| Base64Url.ForeignTextIsSkipped | src/aap/keys.py:68-74 | ASCII characters outside the table, four at a time and anywhere in a text, make no difference to what it decodes to |
| Base64Url.CanonicalExactly | src/aap/keys.py:63-74 | text decodes and encodes back to itself if and only if it has URL-safe letters only, a length other than 1 modulo 4, and no stray bits in its last letter |
| Base64Url.CanonicalTextIsUnique | src/aap/keys.py:68-74 | canonical texts that decode alike are equal |
| Base64Url.DecodesExactly | src/aap/keys.py:68-74 | text of table letters is refused exactly when its length is 1 modulo 4 |
| Base64Url.SixBitsExactly | src/aap/keys.py:68-74 | a character is read as its place in the URL-safe alphabet; '+' and '/' as 62 and 63 |
| Base64Url.GroupOfThree | src/aap/keys.py:63-65 | three bytes as one 24-bit number are its four base-64 digits in that alphabet |
| Base64Url.GroupOfTwo | src/aap/keys.py:63-65 | two last bytes and two zero bits are three letters |
| Base64Url.GroupOfOne | src/aap/keys.py:63-65 | one last byte and four zero bits are two letters |
| Durations.SplitIsUnique | src/aap/service_followups.py:59-61 | a string splits into the seven components in at most one way, despite the two meanings of 'M' |
| Durations.ParserDecidesGrammar | src/aap/service_followups.py:59-61 | the greedy left-to-right parser accepts exactly what the pattern matches |
| Durations.ParseOfPrint | src/aap/service_followups.py:59-61 | printed components are read back |
| Durations.PrintOfParse | src/aap/service_followups.py:59-61 | parsed components print as the string they came from |
| Durations.AcceptedExactly | src/aap/service_followups.py:71-73 | accepted exactly: a match of the pattern, before at most one newline, other than the bare "P" |
| Durations.NewlineHidesBareP | src/aap/service_followups.py:71-73 | "P" is refused, "P" followed by a newline is accepted |
| Durations.ParsedPrintIsWorth | src/aap/service_followups.py:64-80 | printing components and parsing them gives 31536000, 2592000, 604800, 86400, 3600, 60 and 1 seconds for each |
| Durations.NumbersRoundTrip | src/aap/service_followups.py:64-80 | any seven numbers can be written down and parse to their sum in seconds under those factors |
| Durations.YearsAreWorth | src/aap/service_followups.py:64-80 | "P", n, "Y" parses to 31536000 n seconds |
| Durations.MonthsAreWorth | src/aap/service_followups.py:64-80 | "P", n, "M" parses to 2592000 n seconds |
| Durations.WeeksAreWorth | src/aap/service_followups.py:64-80 | "P", n, "W" parses to 604800 n seconds |
| Durations.DaysAreWorth | src/aap/service_followups.py:64-80 | "P", n, "D" parses to 86400 n seconds |
| Durations.HoursAreWorth | src/aap/service_followups.py:64-80 | "PT", n, "H" parses to 3600 n seconds |
| Durations.MinutesAreWorth | src/aap/service_followups.py:64-80 | "PT", n, "M" parses to 60 n seconds |
| Durations.SecondsAreWorth | src/aap/service_followups.py:64-80 | "PT", n, "S" parses to n seconds |
| FollowupGrants.RunKeepsInv | src/aap/service_followups.py:209-233 | grant nonces and (direction, counterparty, service) slots are pairwise distinct in every run |
| FollowupGrants.GrantAfterRun | src/aap/service_followups.py:275-293 | while a grant is held a run changes nothing of it but the stamp of its last granted use |
| FollowupGrants.UsesAreSpaced | src/aap/service_followups.py:105-121 | every granted use comes cadence less window after the stamp before it, the first after the grant's anchor |
| FollowupGrants.GapOfUses | src/aap/service_followups.py:105-121 | consecutive uses are cadence less window apart, less what the second truncation loses |
| FollowupGrants.SpanOfUses | src/aap/service_followups.py:105-121 | n uses with such gaps span n - 1 of them |
| FollowupGrants.RateLimit | src/aap/service_followups.py:105-121 | first use, every gap and the span of all uses of one held grant; exact on a whole-second clock, under a second lost per gap otherwise |
| FollowupReplay.RecordedExactly | src/aap/service_followups.py:210-211 | a verified, readable grant is recorded, first or again, if and only if no grant held now has its nonce |
| FollowupReplay.ReplacedIsRecordedAgain | src/aap/service_followups.py:209-233 | a grant replaced in its slot by another can be recorded again |
| FollowupReplay.RevokedIsRecordedAgain | src/aap/service_followups.py:295-308 | so can a revoked grant |
| FollowupReplay.UsedAgainAtOnce | src/aap/service_followups.py:209-308 | after use, revocation and the same record again the stamp is gone: a use is granted at the same time as before |
| FollowupReplay.RunWithTwoUses | src/aap/service_followups.py:209-308 | as a run: record, use, revoke, record, use grants both uses, at any time at which one may be granted |
| FollowupReplay.GrantIsRecorded | src/aap/service_followups.py:194-223 | a concrete signed grant with any cadence and window that an empty store accepts, never used, anchored at its issue |
| FollowupReplay.SlotUsesAreGrantUses | src/aap/service_followups.py:209-308 | until a grant is recorded in a slot, the slot's granted uses are those of the grant it starts with, up to that one's revocation |
| FollowupReplay.SlotLimit | src/aap/service_followups.py:105-121 | the rate limit of a (direction, counterparty, service) slot between one accepted record in it and the next |
| FollowupReplay.RecordedSlotLimit | src/aap/service_followups.py:105-121 | the same from the record itself: the slot's first use comes a full wait after the grant's issue |
| FollowupWindow.OutreachExactly | src/aap/service_followups.py:105-121 | a use is let through if and only if it comes the parsed cadence less the parsed window, in seconds, after the last stamp or else the issue |
| FollowupWindow.UnreadableIsNeverDue | src/aap/service_followups.py:105-121 | never, when one of them cannot be read |
| FollowupWindow.OutreachInDays | src/aap/service_followups.py:105-121 | the same for a cadence and a window in days |
| FollowupWindow.RateLimitInSeconds | src/aap/service_followups.py:105-121 | the rate limit of a held grant in terms of the seconds its cadence and window parse to |
| FollowupWindow.SlotLimitInSeconds | src/aap/service_followups.py:105-121 | the same for a slot, from one accepted record in it to the next |
| FollowupWindow.RecordedLimitInDays | src/aap/service_followups.py:105-121 | c days of cadence and w of window: from its record on, a slot's uses come c - w days after the issue and after each other, less the truncation loss |
| FollowupWindow.RecordedOnWire | src/aap/service_followups.py:186-235 | a record is accepted if and only if it is a verified grant of the counterparty with all fields and no held grant has its nonce; then it is the newest and exactly its slot is cleared |
| FollowupWindow.RevokedExactly | src/aap/service_followups.py:295-308 | a revocation takes out exactly the grants of its slot |
| FollowupWindow.UsedExactly | src/aap/service_followups.py:275-293 | a use is granted exactly when its grant is due, and changes only that grant's stamp, to the time of use without its fraction of a second |
| FollowupWindow.GrantsStem | src/aap/service_followups.py:186-235 | every held grant was made, stamp aside, by a verified envelope of its counterparty |
| FollowupGrants.FollowupGrantStore.RecordGrant | src/aap/service_followups.py:186-235 | in-place method is the grant step; succeeds exactly when allowed |
| FollowupGrants.FollowupGrantStore.StampUsed | src/aap/service_followups.py:275-293 | stamps exactly the first grant with the nonce; says whether there is one |
| FollowupGrants.FollowupGrantStore.RevokeGrant | src/aap/service_followups.py:295-308 | removes the slot's grants; says exactly whether there was one |
| ServiceRequests.RunKeepsDistinct | src/aap/stores/service_requests.py:86-165 | pending nonces and response nonces are pairwise distinct in every run |
| ServiceRequests.RequestsAreConserved | src/aap/stores/service_requests.py:86-165 | accepted requests are, as tickets (nonce, business, service) with multiplicity and in number, the pending ones plus the answered ones |
| ServiceRequests.AnsweredAtMostAsAsked | src/aap/stores/service_requests.py:115-165 | at every point of a run a ticket is answered at most as often as it was asked before |
| ServiceRequests.FindPending | src/aap/stores/service_requests.py:167-171 | the pending request with the nonce, or nothing exactly when there is none |
| ServiceRequests.ServiceRequestStore.Request | src/aap/stores/service_requests.py:86-113 | in-place method is the ledger step; succeeds exactly when accepted |
| ServiceRequests.ServiceRequestStore.Respond | src/aap/stores/service_requests.py:115-165 | in-place method is the ledger step; succeeds exactly on a verified, unseen response that matches a pending request |
| ServiceWire.RequestReadExactly | src/aap/payloads.py:500-508 | exactly which requests are well formed, and every field of the row made of one |
| ServiceWire.ResponseReadExactly | src/aap/payloads.py:541-557 | the same for responses, which nonce is which included |
| ServiceWire.RequestExactly | src/aap/stores/service_requests.py:86-113 | a well-formed request is accepted if and only if no pending one has its nonce; then it is pending, last |
| ServiceWire.ResponseExactly | src/aap/stores/service_requests.py:115-165 | a verified, well-formed response is accepted if and only if its nonce is new and a pending request with its request nonce went to its issuer for its service; then it is stored and only that request is no longer pending |
| ServiceWire.OthersRefused | src/aap/stores/service_requests.py:86-165 | anything that is neither is refused |
| ServiceWire.StoredStem | src/aap/stores/service_requests.py:86-165 | every stored response was a verified envelope of its business, every pending request one recorded for its business |
| TrustList.TrustListCache.GetPublishedBody | src/aap/verifiers.py:179-209 | what is answered and what is remembered, for any disk and network outcome |
| TrustList.TrustedExactly | src/aap/verifiers.py:251-266 | a reading yields a body if and only if it parsed, verified, is a well-formed list, and has the list's type and the trust root as issuer |
| TrustList.AnswerExactly | src/aap/verifiers.py:179-209 | the order of preference: young memory, young disk file, a fetch, a stale disk file, nothing |
| TrustList.MemoryIsVerified | src/aap/verifiers.py:229-266 | whatever is remembered was read in some call, with its time, off a verified, well-formed list of the trust root |
| TrustList.AnswerIsVerifiedAndYoung | src/aap/verifiers.py:179-209 | so was every answer; and it is younger than a positive ttl unless this call tried a fetch that failed |
| TrustList.FetchesAreSpaced | src/aap/verifiers.py:179-209 | two successful fetches by one cache are at least the ttl apart |
| TrustList.ApplyOverrides | src/aap/verifiers.py:278-304 | filling the ordered dict and listing its values is the merge of pruned and added entries |
| TrustList.MergedLookup | src/aap/verifiers.py:294-304 | merging keeps the last entry of every domain, and lists each domain once |
| TrustList.OverrideLookup | src/aap/verifiers.py:278-304 | last well-formed override, else last published entry unless removed, else absent; domains are distinct |
| TrustList.OverrideTwice | src/aap/verifiers.py:278-304 | applying the overrides again changes no lookup |
| TrustList.OverrideOrder | src/aap/verifiers.py:278-304 | surviving published domains first, then new added ones, each by first occurrence |

## Left out

- Files: loading, saving, file modes and the disk side of the replay cache; a store starts empty and lives in memory. The trust list's disk file is an arbitrary input of each call.
- Cryptography and foreign formats: Ed25519, HPKE, JSON canonicalisation, JSON parsing, agent cards. Their verdicts are inputs, in the stores for a whole `verify_envelope` call; that a supplied key belongs to an address is not part of this model.
- HTTP clients, relays, DID documents, key pins, discovery, and the broadcast helper of `conversations.py`.
- `record`, `update_members`, `remove_member` and `dissolve` of the conversation store: documented as unsafe local mutations, they bypass every check and are no steps of a run.
- Stores and policies of one branch each (consent, introductions, identity bindings, host policy and others), envelope builders and `to_dict` methods: they would add facts a reader sees at once.
- ConversationReplay.EventsRebuildTheStore: an event keeps the envelope as a value, not its JSON text, so that parsing that text back yields the same envelope is not covered.
- Payloads.ParseMembershipUpdate: `added` and `removed` are kept as sets, which is all the store uses of them; entries that Python cannot hash are refused here as they are there, without modelling the exception.
- Error texts, and which of several failing checks is reported first: a refusal is a refusal.
- Types that the annotations promise but nothing enforces: issuers and addresses are strings here. Python's equality of 1, 1.0 and True is kept by modelling all three as one number.
- Base64Url.RoundTrip: `base64.urlsafe_b64encode` and `urlsafe_b64decode` are library calls; the model states RFC 4648 encoding and the library's lenient scan.
- Durations.AcceptedExactly: ASCII digits only (the pattern's `\d` also admits other Unicode digits), and no limit on the size of a duration or of a number's text.
- Times outside the range of `datetime`, and the parsing of time stamps: a time is an integer or absent.
- FollowupGrants.RateLimit: for one grant while it is held; what holds beyond that is `FollowupReplay.RecordedSlotLimit`. A use is a check that passes followed by a stamp, as a holder is meant to do; the store itself does not force the check. The grant's lifetime (`valid_until`) is a separate test and not part of the limit.
- ServiceRequests.RequestsAreConserved: a nonce may be requested again once answered, so requests and responses correspond as multisets of tickets rather than by nonce alone.
- InboundChat.OneChatPerEnvelope: stated above the ttl bound; by `EnvelopePolicy.AtMostOnceExactly` and `MessageReplay.OncePerMessageExactly` envelopes below it, and messages in other spellings, can pass again.
- EnvelopePolicy.VerifyEnvelope: a public key of the wrong length raises in the code; here it is a key that accepts nothing. A clock that goes backwards is not covered by the results about runs.
- TrustList.ApplyOverrides: the list parser's verdict on an entry is an input, `remove` is a set of domain strings, and override files of another shape are not modelled. Clock readings are integers where `time.time()` is a float.
