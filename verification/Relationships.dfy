/** The relationship ledger of `aap/relationships.py`: active rows and signed revocations. */
module Relationships {
  import opened Values
  import opened Envelopes

  const PROPOSAL := "aap.relationship-proposal/v1"
  const ACCEPT := "aap.relationship-accept/v1"
  const REVOKE := "aap.relationship-revoke/v1"

  const TYPES := {"friend", "admin", "team"}

  // ---- payloads ----

  datatype Proposal = Proposal(relType: string, nonce: Value, resource: Value)
  datatype Revocation = Revocation(relType: string, nonce: Value, resource: Value)

  /** A known type, and a resource label when it is a team. */
  predicate ValidType(relType: Value, resource: Value) {
    relType.Str? && relType.text in TYPES && (relType.text == "team" ==> Truthy(resource))
  }

  /** `list(v or [])` succeeds: anything but a truthy number can be listed. */
  predicate Listable(v: Value) {
    Truthy(v) ==> !v.Num?
  }

  function ParseProposal(v: Value): (r: Result<Proposal>)
    ensures r.Success? ==> ValidType(Str(r.value.relType), r.value.resource)
  {
    if !v.Dict? || "relationship_type" !in v.fields then Failure("missing field")
    else
      var d := v.fields;
      if !ValidType(d["relationship_type"], Get(d, "resource")) then Failure("invalid relationship type")
      else if "proposer_card_envelope" !in d || "nonce" !in d then Failure("missing field")
      else if !Listable(Get(d, "identity_attestations")) then Failure("attestations are not a list")
      else Success(Proposal(d["relationship_type"].text, d["nonce"], Get(d, "resource")))
  }

  /** `RelationshipAccept.from_dict`: the proposal nonce it refers to. */
  function ParseAccept(v: Value): Result<Value> {
    if v.Dict? && "proposal_nonce" in v.fields && "accepter_card_envelope" in v.fields
       && Listable(Get(v.fields, "identity_attestations"))
    then Success(v.fields["proposal_nonce"])
    else Failure("missing field")
  }

  function ParseRevoke(v: Value): (r: Result<Revocation>)
    ensures r.Success? ==> ValidType(Str(r.value.relType), r.value.resource)
  {
    if !v.Dict? || "relationship_type" !in v.fields then Failure("missing field")
    else
      var d := v.fields;
      if !ValidType(d["relationship_type"], Get(d, "resource")) then Failure("invalid relationship type")
      else if "nonce" !in d then Failure("missing field")
      else Success(Revocation(d["relationship_type"].text, d["nonce"], Get(d, "resource")))
  }

  /** `_parse_envelope` and then the payload: the same text is read again whenever a nonce is looked up. */
  function ReadProposal(w: Wire): Result<Proposal> {
    if w.Malformed? || w.envelope.payloadType != PROPOSAL then Failure("not a proposal")
    else ParseProposal(w.envelope.payload)
  }

  function ReadAccept(w: Wire): Result<Value> {
    if w.Malformed? || w.envelope.payloadType != ACCEPT then Failure("not an accept")
    else ParseAccept(w.envelope.payload)
  }

  function ReadRevoke(w: Wire): Result<Revocation> {
    if w.Malformed? || w.envelope.payloadType != REVOKE then Failure("not a revoke")
    else ParseRevoke(w.envelope.payload)
  }

  // ---- state ----

  datatype Row = Row(
    relType: string, peer: Address, establishedAt: Option<int>, proposal: Wire, accept: Wire, resource: Value)

  datatype RevocationRow = RevocationRow(
    relType: string, peer: Address, revokedAt: Option<int>, revoker: Address, revoke: Wire, resource: Value)

  datatype State = State(rows: seq<Row>, revocations: seq<RevocationRow>)

  const EMPTY := State([], [])

  /** What a row is replaced and revoked by. A friend row with a resource is not the same as one without. */
  datatype Key = Key(peer: Address, relType: string, resource: Value)

  function KeyOf(r: Row): Key {
    Key(r.peer, r.relType, r.resource)
  }

  function WithoutKey(rows: seq<Row>, key: Key): (r: seq<Row>)
    ensures forall x :: x in r <==> x in rows && KeyOf(x) != key
  {
    if rows == [] then []
    else if KeyOf(rows[0]) == key then WithoutKey(rows[1..], key)
    else [rows[0]] + WithoutKey(rows[1..], key)
  }

  predicate HasNonce(r: Row, nonce: Value) {
    ReadProposal(r.proposal).Success? && ReadProposal(r.proposal).value.nonce == nonce
  }

  predicate SeenProposal(rows: seq<Row>, nonce: Value) {
    exists r <- rows :: HasNonce(r, nonce)
  }

  predicate SeenRevoke(rows: seq<RevocationRow>, nonce: Value) {
    exists r <- rows :: ReadRevoke(r.revoke).Success? && ReadRevoke(r.revoke).value.nonce == nonce
  }

  /** What the signature, freshness and AgentCard checks of a handshake said: a card that passes
      yields the address it is for. */
  datatype Checks = Checks(proposalOk: bool, acceptOk: bool, proposerCard: Option<Value>, accepterCard: Option<Value>)

  datatype Call =
    | Establish(self: Address, peer: Address, proposal: Wire, accept: Wire, checks: Checks)
    | Revoke(self: Address, peer: Address, revoke: Wire, verified: bool)

  predicate HandshakeValid(c: Call)
    requires c.Establish?
  {
    && ReadProposal(c.proposal).Success? && ReadAccept(c.accept).Success?
    && c.checks.proposalOk && c.checks.acceptOk
    && ReadAccept(c.accept).value == ReadProposal(c.proposal).value.nonce
    && c.self != c.peer
    && {c.proposal.envelope.iss, c.accept.envelope.iss} == {c.self, c.peer}
    && c.checks.proposerCard == Some(Str(c.proposal.envelope.iss))
    && c.checks.accepterCard == Some(Str(c.accept.envelope.iss))
  }

  predicate RevokeValid(c: Call)
    requires c.Revoke?
  {
    && ReadRevoke(c.revoke).Success? && c.verified
    && c.self != c.peer
    && c.revoke.envelope.iss in {c.self, c.peer}
  }

  predicate Accepts(s: State, c: Call) {
    match c
    case Establish(_, _, proposal, _, _) =>
      HandshakeValid(c) && !SeenProposal(s.rows, ReadProposal(proposal).value.nonce)
    case Revoke(_, _, revoke, _) =>
      RevokeValid(c) && !SeenRevoke(s.revocations, ReadRevoke(revoke).value.nonce)
  }

  /** An accepted call, as the ledger entry it amounts to. */
  datatype Entry = Established(row: Row) | Revoked(key: Key)

  function EntryKey(e: Entry): Key {
    match e
    case Established(row) => KeyOf(row)
    case Revoked(key) => key
  }

  function EntryOf(c: Call): Entry
    requires if c.Establish? then HandshakeValid(c) else RevokeValid(c)
  {
    match c
    case Establish(_, peer, proposal, accept, _) =>
      var p := ReadProposal(proposal).value;
      Established(Row(p.relType, peer, accept.envelope.iat, proposal, accept, p.resource))
    case Revoke(_, peer, revoke, _) =>
      var r := ReadRevoke(revoke).value;
      Revoked(Key(peer, r.relType, r.resource))
  }

  function RevocationOf(c: Call): RevocationRow
    requires c.Revoke? && RevokeValid(c)
  {
    var r := ReadRevoke(c.revoke).value;
    RevocationRow(r.relType, c.peer, c.revoke.envelope.iat, c.revoke.envelope.iss, c.revoke, r.resource)
  }

  function Step(s: State, c: Call): State {
    if !Accepts(s, c) then s
    else match c
      case Establish(_, _, _, _, _) =>
        var row := EntryOf(c).row;
        s.(rows := WithoutKey(s.rows, KeyOf(row)) + [row])
      case Revoke(_, _, _, _) =>
        State(WithoutKey(s.rows, EntryOf(c).key), s.revocations + [RevocationOf(c)])
  }

  function Run(calls: seq<Call>): State {
    if calls == [] then EMPTY else Step(Run(calls[..|calls| - 1]), calls[|calls| - 1])
  }

  // ---- the log behind the rows ----

  /** The accepted calls of a run, in order. */
  function Log(calls: seq<Call>): seq<Entry> {
    if calls == [] then []
    else
      var init, c := calls[..|calls| - 1], calls[|calls| - 1];
      Log(init) + if Accepts(Run(init), c) then [EntryOf(c)] else []
  }

  predicate Touches(log: seq<Entry>, key: Key) {
    exists e <- log :: EntryKey(e) == key
  }

  /** The handshakes that no later entry replaced or revoked, in the order they were made. */
  function Surviving(log: seq<Entry>): seq<Row> {
    if log == [] then []
    else FirstSurvivor(log[0], log[1..]) + Surviving(log[1..])
  }

  lemma WithoutKeyAfterHead(head: seq<Row>, rest: seq<Row>, key: Key)
    requires |head| <= 1
    ensures WithoutKey(head + rest, key) == WithoutKey(head, key) + WithoutKey(rest, key)
  {
    if head == [] {
      assert head + rest == rest;
    } else {
      assert (head + rest)[1..] == rest && head[1..] == [];
    }
  }

  lemma TouchesExtended(log: seq<Entry>, e: Entry, key: Key)
    ensures Touches(log + [e], key) <==> Touches(log, key) || EntryKey(e) == key
  {
    assert e in log + [e];
    assert forall x <- log :: x in log + [e];
  }

  /** The first entry's handshake, if nothing in the rest of the log touches its key. */
  function FirstSurvivor(e: Entry, rest: seq<Entry>): seq<Row> {
    if e.Established? && !Touches(rest, EntryKey(e)) then [e.row] else []
  }

  lemma FirstSurvivorExtended(e: Entry, rest: seq<Entry>, last: Entry)
    ensures FirstSurvivor(e, rest + [last]) == WithoutKey(FirstSurvivor(e, rest), EntryKey(last))
  {
    TouchesExtended(rest, last, EntryKey(e));
  }

  lemma {:induction false} SurvivingExtended(log: seq<Entry>, e: Entry)
    ensures Surviving(log + [e])
         == WithoutKey(Surviving(log), EntryKey(e)) + if e.Established? then [e.row] else []
  {
    if log == [] {
      assert [e][1..] == [];
    } else {
      var first, rest, key := log[0], log[1..], EntryKey(e);
      var added := if e.Established? then [e.row] else [];
      calc {
        Surviving(log + [e]);
        { assert (log + [e])[0] == first && (log + [e])[1..] == rest + [e]; }
        FirstSurvivor(first, rest + [e]) + Surviving(rest + [e]);
        { FirstSurvivorExtended(first, rest, e); SurvivingExtended(rest, e); }
        WithoutKey(FirstSurvivor(first, rest), key) + (WithoutKey(Surviving(rest), key) + added);
        { WithoutKeyAfterHead(FirstSurvivor(first, rest), Surviving(rest), key); }
        WithoutKey(FirstSurvivor(first, rest) + Surviving(rest), key) + added;
        WithoutKey(Surviving(log), key) + added;
      }
    }
  }

  /** The rows of a store are exactly the handshakes that survive in its log, in order. */
  lemma {:induction false} RowsAreSurvivors(calls: seq<Call>)
    ensures Run(calls).rows == Surviving(Log(calls))
  {
    if calls != [] {
      var init, c := calls[..|calls| - 1], calls[|calls| - 1];
      RowsAreSurvivors(init);
      if Accepts(Run(init), c) {
        SurvivingExtended(Log(init), EntryOf(c));
      } else {
        assert Log(calls) == Log(init);
      }
    }
  }

  /** The last entry on a key, if there is one. */
  function LastOn(log: seq<Entry>, key: Key): Option<Entry> {
    if log == [] then None
    else if EntryKey(log[|log| - 1]) == key then Some(log[|log| - 1])
    else LastOn(log[..|log| - 1], key)
  }

  lemma {:induction false} SurvivorsAreLast(log: seq<Entry>, row: Row)
    ensures row in Surviving(log) <==> LastOn(log, KeyOf(row)) == Some(Established(row))
  {
    if log != [] {
      var init, e := log[..|log| - 1], log[|log| - 1];
      assert log == init + [e];
      SurvivorsAreLast(init, row);
      SurvivingExtended(init, e);
    }
  }

  /** Last event wins: a row is active exactly when the last accepted event on its key is the
      handshake that made it. */
  lemma ActiveExactly(calls: seq<Call>, row: Row)
    ensures row in Run(calls).rows <==> LastOn(Log(calls), KeyOf(row)) == Some(Established(row))
  {
    RowsAreSurvivors(calls);
    SurvivorsAreLast(Log(calls), row);
  }

  lemma {:induction false} LastOnHasKey(log: seq<Entry>, key: Key)
    ensures LastOn(log, key).Some? ==> EntryKey(LastOn(log, key).value) == key
  {
    if log != [] { LastOnHasKey(log[..|log| - 1], key); }
  }

  /** A key has an active row exactly when its last accepted event is a handshake, and then only that one. */
  lemma ActiveKeyExactly(calls: seq<Call>, key: Key)
    ensures (exists r <- Run(calls).rows :: KeyOf(r) == key)
       <==> LastOn(Log(calls), key).Some? && LastOn(Log(calls), key).value.Established?
    ensures forall r <- Run(calls).rows :: KeyOf(r) == key ==> LastOn(Log(calls), key) == Some(Established(r))
  {
    LastOnHasKey(Log(calls), key);
    forall r: Row ensures r in Run(calls).rows <==> LastOn(Log(calls), KeyOf(r)) == Some(Established(r)) {
      ActiveExactly(calls, r);
    }
    if LastOn(Log(calls), key).Some? && LastOn(Log(calls), key).value.Established? {
      var r := LastOn(Log(calls), key).value.row;
      assert r in Run(calls).rows && KeyOf(r) == key;
    }
  }

  // ---- what every run keeps ----

  ghost predicate DistinctKeys(rows: seq<Row>) {
    forall i, j :: 0 <= i < j < |rows| ==> KeyOf(rows[i]) != KeyOf(rows[j])
  }

  /** Every active row's proposal can be read back, and no two share its nonce. */
  ghost predicate DistinctProposals(rows: seq<Row>) {
    && (forall r <- rows :: ReadProposal(r.proposal).Success?)
    && (forall i, j :: 0 <= i < j < |rows| ==>
          ReadProposal(rows[i].proposal).value.nonce != ReadProposal(rows[j].proposal).value.nonce)
  }

  ghost predicate DistinctRevokes(rows: seq<RevocationRow>) {
    && (forall r <- rows :: ReadRevoke(r.revoke).Success?)
    && (forall i, j :: 0 <= i < j < |rows| ==>
          ReadRevoke(rows[i].revoke).value.nonce != ReadRevoke(rows[j].revoke).value.nonce)
  }

  ghost predicate Inv(s: State) {
    DistinctKeys(s.rows) && DistinctProposals(s.rows) && DistinctRevokes(s.revocations)
  }

  ghost predicate Apart(rows: seq<Row>, clash: (Row, Row) -> bool) {
    forall i, j :: 0 <= i < j < |rows| ==> !clash(rows[i], rows[j])
  }

  /** Taking rows out brings no two others into conflict, whatever counts as one. */
  lemma {:induction false} WithoutKeyKeepsApart(rows: seq<Row>, key: Key, clash: (Row, Row) -> bool)
    requires Apart(rows, clash)
    ensures Apart(WithoutKey(rows, key), clash)
  {
    if rows != [] {
      var rest := WithoutKey(rows[1..], key);
      WithoutKeyKeepsApart(rows[1..], key, clash);
      forall j | 0 <= j < |rest| ensures !clash(rows[0], rest[j]) {
        assert rest[j] in rest;
        var k :| 0 <= k < |rows[1..]| && rows[1..][k] == rest[j];
        assert rows[k + 1] == rest[j];
      }
    }
  }

  lemma WithoutKeyKeepsDistinct(rows: seq<Row>, key: Key)
    requires DistinctKeys(rows) && DistinctProposals(rows)
    ensures DistinctKeys(WithoutKey(rows, key)) && DistinctProposals(WithoutKey(rows, key))
  {
    var rest := WithoutKey(rows, key);
    var sameKey := (r: Row, s: Row) => KeyOf(r) == KeyOf(s);
    var sameNonce := (r: Row, s: Row) =>
      ReadProposal(r.proposal).Success? && HasNonce(s, ReadProposal(r.proposal).value.nonce);
    WithoutKeyKeepsApart(rows, key, sameKey);
    WithoutKeyKeepsApart(rows, key, sameNonce);
    forall i, j | 0 <= i < j < |rest| ensures KeyOf(rest[i]) != KeyOf(rest[j]) {
      assert !sameKey(rest[i], rest[j]);
    }
    forall i, j | 0 <= i < j < |rest|
      ensures ReadProposal(rest[i].proposal).Success? && ReadProposal(rest[j].proposal).Success?
      ensures ReadProposal(rest[i].proposal).value.nonce != ReadProposal(rest[j].proposal).value.nonce
    {
      assert rest[i] in rest && rest[j] in rest && !sameNonce(rest[i], rest[j]);
    }
  }

  lemma AddKeepsDistinct(rows: seq<Row>, row: Row)
    requires DistinctKeys(rows) && DistinctProposals(rows) && ReadProposal(row.proposal).Success?
    requires !SeenProposal(rows, ReadProposal(row.proposal).value.nonce)
    ensures DistinctKeys(WithoutKey(rows, KeyOf(row)) + [row])
    ensures DistinctProposals(WithoutKey(rows, KeyOf(row)) + [row])
  {
    var rest := WithoutKey(rows, KeyOf(row));
    WithoutKeyKeepsDistinct(rows, KeyOf(row));
    forall i | 0 <= i < |rest|
      ensures KeyOf(rest[i]) != KeyOf(row)
      ensures ReadProposal(rest[i].proposal).value.nonce != ReadProposal(row.proposal).value.nonce
    {
      assert rest[i] in rest;
    }
  }

  lemma StepKeepsInv(s: State, c: Call)
    requires Inv(s)
    ensures Inv(Step(s, c))
  {
    if Accepts(s, c) {
      match c
      case Establish(_, _, _, _, _) => AddKeepsDistinct(s.rows, EntryOf(c).row);
      case Revoke(_, _, _, _) => WithoutKeyKeepsDistinct(s.rows, EntryOf(c).key);
    }
  }

  /** In every run active keys are distinct, active proposal nonces are distinct, and so are all
      revocation nonces. */
  lemma {:induction false} RunKeepsInv(calls: seq<Call>)
    ensures Inv(Run(calls))
  {
    if calls != [] {
      RunKeepsInv(calls[..|calls| - 1]);
      StepKeepsInv(Run(calls[..|calls| - 1]), calls[|calls| - 1]);
    }
  }

  /** Revocations are never taken back. */
  lemma {:induction false} RevocationsOnlyGrow(calls: seq<Call>, k: nat)
    requires k <= |calls|
    ensures Run(calls[..k]).revocations <= Run(calls).revocations
  {
    if k < |calls| {
      var init := calls[..|calls| - 1];
      RevocationsOnlyGrow(init, k);
      assert init[..k] == calls[..k];
    } else {
      assert calls[..k] == calls;
    }
  }

  /** No revoke nonce is accepted twice in a run, whoever it concerns. */
  lemma RevokeNonceOnce(calls: seq<Call>, i: nat, j: nat)
    requires i < j < |calls| && calls[i].Revoke? && calls[j].Revoke?
    requires Accepts(Run(calls[..i]), calls[i]) && Accepts(Run(calls[..j]), calls[j])
    ensures ReadRevoke(calls[i].revoke).value.nonce != ReadRevoke(calls[j].revoke).value.nonce
  {
    var rev := RevocationOf(calls[i]);
    assert calls[..i + 1][..i] == calls[..i];
    assert rev == Run(calls[..i + 1]).revocations[|Run(calls[..i]).revocations|];
    RevocationsOnlyGrow(calls[..j], i + 1);
    assert calls[..j][..i + 1] == calls[..i + 1];
    assert rev in Run(calls[..j]).revocations;
  }

  lemma {:induction false} LastOnIsLogged(log: seq<Entry>, key: Key)
    ensures LastOn(log, key).Some? ==> LastOn(log, key).value in log
  {
    if log != [] { LastOnIsLogged(log[..|log| - 1], key); }
  }

  /** Proposal nonces are remembered by active rows only: a handshake is accepted, first or again,
      exactly when every logged handshake with its nonce has since been revoked or replaced. */
  lemma AcceptedAgainExactly(calls: seq<Call>, c: Call)
    requires c.Establish? && HandshakeValid(c)
    ensures Accepts(Run(calls), c)
       <==> forall e <- Log(calls) ::
              e.Established? && HasNonce(e.row, ReadProposal(c.proposal).value.nonce)
              ==> LastOn(Log(calls), EntryKey(e)) != Some(e)
  {
    var nonce := ReadProposal(c.proposal).value.nonce;
    forall e | e in Log(calls) && e.Established? && LastOn(Log(calls), EntryKey(e)) == Some(e)
      ensures e.row in Run(calls).rows
    {
      ActiveExactly(calls, e.row);
    }
    if SeenProposal(Run(calls).rows, nonce) {
      var r :| r in Run(calls).rows && HasNonce(r, nonce);
      ActiveExactly(calls, r);
      LastOnIsLogged(Log(calls), KeyOf(r));
    }
  }

  // ---- which keys are active ----

  predicate IsActive(log: seq<Entry>, key: Key) {
    LastOn(log, key).Some? && LastOn(log, key).value.Established?
  }

  lemma LogAppend(calls: seq<Call>, c: Call)
    requires Accepts(Run(calls), c)
    ensures Log(calls + [c]) == Log(calls) + [EntryOf(c)]
    ensures Run(calls + [c]) == Step(Run(calls), c)
  {
    assert (calls + [c])[..|calls|] == calls;
  }

  lemma ActiveAfterRevoke(calls: seq<Call>, r: Call, key: Key)
    requires r.Revoke? && Accepts(Run(calls), r)
    ensures IsActive(Log(calls + [r]), key) <==> IsActive(Log(calls), key) && key != EntryOf(r).key
  {
    LogAppend(calls, r);
    assert (Log(calls) + [EntryOf(r)])[..|Log(calls)|] == Log(calls);
  }

  /** Every active row has one of the known types, and a team row names its resource. */
  lemma {:induction false} RowsAreTyped(calls: seq<Call>)
    ensures forall r <- Run(calls).rows :: ValidType(Str(r.relType), r.resource)
  {
    if calls != [] {
      RowsAreTyped(calls[..|calls| - 1]);
    }
  }

  // ---- lookup ----

  predicate Matches(r: Row, peer: Address, relType: Option<string>, resource: Value) {
    && r.peer == peer
    && (relType.Some? ==> r.relType == relType.value)
    && (relType == Some("team") ==> r.resource == resource)
  }

  /** `find`: the first matching row. */
  function FindRow(rows: seq<Row>, peer: Address, relType: Option<string>, resource: Value): (r: Option<Row>)
    ensures r.None? <==> forall x <- rows :: !Matches(x, peer, relType, resource)
    ensures r.Some? ==> r.value in rows && Matches(r.value, peer, relType, resource)
  {
    if rows == [] then None
    else if Matches(rows[0], peer, relType, resource) then Some(rows[0])
    else FindRow(rows[1..], peer, relType, resource)
  }

  // ---- the store object ----

  class RelationshipStore {
    var rows: seq<Row>
    var revocations: seq<RevocationRow>

    function Contents(): State
      reads this
    {
      State(rows, revocations)
    }

    constructor ()
      ensures Contents() == EMPTY
    {
      rows, revocations := [], [];
    }

    method Find(peer: Address, relType: Option<string>, resource: Value) returns (r: Option<Row>)
      ensures r == FindRow(rows, peer, relType, resource)
    {
      for k := 0 to |rows|
        invariant FindRow(rows[k..], peer, relType, resource) == FindRow(rows, peer, relType, resource)
      {
        if rows[k].peer != peer { continue; }
        if relType.Some? && rows[k].relType != relType.value { continue; }
        if relType == Some("team") && rows[k].resource != resource { continue; }
        return Some(rows[k]);
      }
      return None;
    }

    method HasSeenProposalNonce(nonce: Value) returns (seen: bool)
      ensures seen <==> SeenProposal(rows, nonce)
    {
      for k := 0 to |rows|
        invariant !SeenProposal(rows[..k], nonce)
      {
        var p := ReadProposal(rows[k].proposal);
        if p.Success? && p.value.nonce == nonce {
          assert rows[k] in rows;
          return true;
        }
      }
      assert rows[..|rows|] == rows;
      return false;
    }

    method HasSeenRevocationNonce(nonce: Value) returns (seen: bool)
      ensures seen <==> SeenRevoke(revocations, nonce)
    {
      for k := 0 to |revocations|
        invariant !SeenRevoke(revocations[..k], nonce)
      {
        var r := ReadRevoke(revocations[k].revoke);
        if r.Success? && r.value.nonce == nonce {
          assert revocations[k] in revocations;
          return true;
        }
      }
      assert revocations[..|revocations|] == revocations;
      return false;
    }

    /** `_add_verified`. The type checks it repeats have already been made by the payload validator. */
    method AddVerified(row: Row)
      requires ValidType(Str(row.relType), row.resource)
      modifies this`rows
      ensures rows == WithoutKey(old(rows), KeyOf(row)) + [row]
    {
      rows := WithoutKey(rows, KeyOf(row));
      rows := rows + [row];
    }

    method EstablishRelationship(self: Address, peer: Address, proposal: Wire, accept: Wire, checks: Checks)
      returns (r: Result<Row>)
      modifies this
      ensures var c := Establish(self, peer, proposal, accept, checks);
        && Contents() == Step(old(Contents()), c)
        && (r.Success? <==> Accepts(old(Contents()), c))
        && (r.Success? ==> Established(r.value) == EntryOf(c) && r.value in rows)
    {
      var p, a := ReadProposal(proposal), ReadAccept(accept);
      if p.Failure? { return Failure(p.error); }
      if a.Failure? { return Failure(a.error); }
      if !checks.proposalOk || !checks.acceptOk { return Failure("envelope failed verification"); }
      if a.value != p.value.nonce { return Failure("accept does not reference proposal nonce"); }
      var proposer, accepter := proposal.envelope.iss, accept.envelope.iss;
      if {proposer, accepter} != {self, peer} { return Failure("issuers must be exactly self and peer"); }
      if self == peer { return Failure("self and peer must differ"); }
      if checks.proposerCard != Some(Str(proposer)) { return Failure("proposer card does not match"); }
      if checks.accepterCard != Some(Str(accepter)) { return Failure("accepter card does not match"); }
      var seen := HasSeenProposalNonce(p.value.nonce);
      if seen { return Failure("proposal nonce replay detected"); }
      var row := Row(p.value.relType, peer, accept.envelope.iat, proposal, accept, p.value.resource);
      AddVerified(row);
      return Success(row);
    }

    /** Whether an active row was removed. */
    method RevokeRelationship(self: Address, peer: Address, revoke: Wire, verified: bool) returns (r: Result<bool>)
      modifies this
      ensures var c := Revoke(self, peer, revoke, verified);
        && Contents() == Step(old(Contents()), c)
        && (r.Success? <==> Accepts(old(Contents()), c))
        && (r.Success? ==> (r.value <==> exists x <- old(rows) :: KeyOf(x) == EntryOf(c).key))
    {
      if self == peer { return Failure("self and peer must differ"); }
      var rev := ReadRevoke(revoke);
      if rev.Failure? { return Failure(rev.error); }
      if !verified { return Failure("revoke envelope failed verification"); }
      if revoke.envelope.iss !in {self, peer} { return Failure("issuer must be self or peer"); }
      var seen := HasSeenRevocationNonce(rev.value.nonce);
      if seen { return Failure("revoke nonce replay detected"); }
      revocations := revocations + [RevocationRow(rev.value.relType, peer, revoke.envelope.iat,
                                                  revoke.envelope.iss, revoke, rev.value.resource)];
      var before := |rows|;
      var key := Key(peer, rev.value.relType, rev.value.resource);
      ShrinksExactly(rows, key);
      rows := WithoutKey(rows, key);
      return Success(|rows| < before);
    }
  }

  lemma {:induction false} ShrinksExactly(rows: seq<Row>, key: Key)
    ensures |WithoutKey(rows, key)| <= |rows|
    ensures |WithoutKey(rows, key)| < |rows| <==> exists r <- rows :: KeyOf(r) == key
  {
    if rows != [] {
      ShrinksExactly(rows[1..], key);
      assert rows == [rows[0]] + rows[1..];
      assert rows[0] in rows;
    }
  }
}
