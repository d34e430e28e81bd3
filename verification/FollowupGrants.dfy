/** Follow-up grants (`aap/service_followups.py`): the grant store, the outreach window, and the rate
    limit that the window and the usage stamp enforce together. */
module FollowupGrants {
  import opened Values
  import opened Envelopes
  import Durations

  const GRANT := "aap.service-followup-grant/v1"

  datatype Direction = Issued | Received

  datatype Grant = Grant(
    direction: Direction, counterparty: Address, serviceId: Value, cadence: Value, window: Value,
    validUntil: Value, nonce: Value, issuedAt: int, envelope: Envelope, lastUsedAt: Option<int>)

  /** `parse_iso_duration` of a payload field, in microseconds; anything but a string raises. */
  function Span(v: Value): Option<int> {
    if !v.Str? then None
    else match Durations.ParseIsoDuration(v.text)
      case Success(seconds) => Some(seconds * SECOND)
      case Failure(_) => None
  }

  /** How long after its anchor a grant may be used again: the cadence, less the outreach window. */
  function Wait(g: Grant): Option<int> {
    if Span(g.cadence).Some? && Span(g.window).Some? then Some(Span(g.cadence).value - Span(g.window).value)
    else None
  }

  function Anchor(g: Grant): int {
    if g.lastUsedAt.Some? then g.lastUsedAt.value else g.issuedAt
  }

  /** `is_within_outreach_window`. */
  predicate WithinOutreachWindow(g: Grant, now: int) {
    Wait(g).Some? && now >= Anchor(g) + Wait(g).value
  }

  // ---- the store as a list ----

  function IndexOf(rows: seq<Grant>, nonce: Value): (i: nat)
    ensures i <= |rows| && (i < |rows| ==> rows[i].nonce == nonce)
    ensures forall j :: 0 <= j < i ==> rows[j].nonce != nonce
  {
    if rows == [] || rows[0].nonce == nonce then 0 else 1 + IndexOf(rows[1..], nonce)
  }

  predicate Has(rows: seq<Grant>, nonce: Value) {
    IndexOf(rows, nonce) < |rows|
  }

  function RowOf(rows: seq<Grant>, nonce: Value): Grant
    requires Has(rows, nonce)
  {
    rows[IndexOf(rows, nonce)]
  }

  predicate SameSlot(g: Grant, direction: Direction, counterparty: Address, serviceId: Value) {
    g.direction == direction && g.counterparty == counterparty && g.serviceId == serviceId
  }

  function WithoutSlot(rows: seq<Grant>, direction: Direction, counterparty: Address, serviceId: Value): (r: seq<Grant>)
    ensures forall g :: g in r <==> g in rows && !SameSlot(g, direction, counterparty, serviceId)
    ensures |r| <= |rows|
  {
    if rows == [] then []
    else
      var rest := WithoutSlot(rows[1..], direction, counterparty, serviceId);
      if SameSlot(rows[0], direction, counterparty, serviceId) then rest else [rows[0]] + rest
  }

  /** `ServiceFollowupGrant.from_dict` and the row made of it. */
  function ReadGrant(direction: Direction, counterparty: Address, w: Wire): Result<Grant> {
    if w.Malformed? || w.envelope.payloadType != GRANT then Failure("not a grant envelope")
    else if w.envelope.iss != counterparty then Failure("issuer does not match counterparty")
    else if w.envelope.iat.None? then Failure("envelope has no valid issue time")
    else if !w.envelope.payload.Dict? then Failure("payload is not a dict")
    else
      var d := w.envelope.payload.fields;
      if "service_id" in d && "cadence_iso" in d && "outreach_window_before" in d && "valid_until" in d && "nonce" in d
      then Success(Grant(direction, counterparty, d["service_id"], d["cadence_iso"], d["outreach_window_before"],
                         d["valid_until"], d["nonce"], w.envelope.iat.value, w.envelope, None))
      else Failure("missing field")
  }

  datatype Op =
    | Record(direction: Direction, counterparty: Address, wire: Wire, verified: bool)
    | Revoke(counterparty: Address, serviceId: Value, direction: Direction)
    /** The holder asks whether it may reach out now and, if so, reaches out and stamps the grant. */
    | Use(nonce: Value, checkedAt: int, stampedAt: int)

  predicate RecordAllowed(rows: seq<Grant>, op: Op)
    requires op.Record?
  {
    && op.verified
    && ReadGrant(op.direction, op.counterparty, op.wire).Success?
    && !Has(rows, ReadGrant(op.direction, op.counterparty, op.wire).value.nonce)
  }

  predicate UseGranted(rows: seq<Grant>, op: Op)
    requires op.Use?
  {
    Has(rows, op.nonce) && WithinOutreachWindow(RowOf(rows, op.nonce), op.checkedAt)
  }

  function Stamped(rows: seq<Grant>, nonce: Value, now: int): seq<Grant> {
    var i := IndexOf(rows, nonce);
    if i < |rows| then rows[i := rows[i].(lastUsedAt := Some(TruncateToSecond(now)))] else rows
  }

  function Step(rows: seq<Grant>, op: Op): seq<Grant> {
    match op
    case Record(direction, counterparty, wire, _) =>
      if RecordAllowed(rows, op) then
        var g := ReadGrant(direction, counterparty, wire).value;
        WithoutSlot(rows, direction, counterparty, g.serviceId) + [g]
      else rows
    case Revoke(counterparty, serviceId, direction) => WithoutSlot(rows, direction, counterparty, serviceId)
    case Use(nonce, _, stampedAt) => if UseGranted(rows, op) then Stamped(rows, nonce, stampedAt) else rows
  }

  function Run(rows: seq<Grant>, ops: seq<Op>): seq<Grant> {
    if ops == [] then rows else Step(Run(rows, ops[..|ops| - 1]), ops[|ops| - 1])
  }

  // ---- what every run keeps ----

  ghost predicate Clash(g: Grant, h: Grant) {
    g.nonce == h.nonce || SameSlot(g, h.direction, h.counterparty, h.serviceId)
  }

  /** Grant nonces are distinct, and so are the (direction, counterparty, service) slots. */
  ghost predicate Inv(rows: seq<Grant>) {
    forall i, j :: 0 <= i < j < |rows| ==> !Clash(rows[i], rows[j])
  }

  lemma {:induction false} WithoutSlotKeepsInv(rows: seq<Grant>, direction: Direction, counterparty: Address,
                                                serviceId: Value)
    requires Inv(rows)
    ensures Inv(WithoutSlot(rows, direction, counterparty, serviceId))
  {
    if rows != [] {
      WithoutSlotKeepsInv(rows[1..], direction, counterparty, serviceId);
      var rest := WithoutSlot(rows[1..], direction, counterparty, serviceId);
      forall j | 0 <= j < |rest| ensures !Clash(rows[0], rest[j]) {
        assert rest[j] in rest;
        var k :| 0 <= k < |rows[1..]| && rows[1..][k] == rest[j];
        assert rows[k + 1] == rest[j];
      }
    }
  }

  lemma StepKeepsInv(rows: seq<Grant>, op: Op)
    requires Inv(rows)
    ensures Inv(Step(rows, op))
  {
    match op
    case Record(direction, counterparty, wire, _) =>
      if RecordAllowed(rows, op) {
        var g := ReadGrant(direction, counterparty, wire).value;
        var rest := WithoutSlot(rows, direction, counterparty, g.serviceId);
        WithoutSlotKeepsInv(rows, direction, counterparty, g.serviceId);
        forall i | 0 <= i < |rest| ensures !Clash(rest[i], g) {
          assert rest[i] in rest;
        }
      }
    case Revoke(counterparty, serviceId, direction) =>
      WithoutSlotKeepsInv(rows, direction, counterparty, serviceId);
    case Use(_, _, _) =>
  }

  lemma {:induction false} RunKeepsInv(rows: seq<Grant>, ops: seq<Op>)
    requires Inv(rows)
    ensures Inv(Run(rows, ops))
  {
    if ops != [] {
      RunKeepsInv(rows, ops[..|ops| - 1]);
      StepKeepsInv(Run(rows, ops[..|ops| - 1]), ops[|ops| - 1]);
    }
  }

  // ---- the life of one grant ----

  predicate IsGrantedUse(rows: seq<Grant>, op: Op, nonce: Value) {
    op.Use? && op.nonce == nonce && UseGranted(rows, op)
  }

  /** The granted uses of a nonce in a run, in order. */
  function Uses(rows: seq<Grant>, ops: seq<Op>, nonce: Value): (r: seq<Op>)
    ensures forall k :: 0 <= k < |r| ==> r[k].Use? && r[k].nonce == nonce
  {
    if ops == [] then []
    else
      var init, op := ops[..|ops| - 1], ops[|ops| - 1];
      Uses(rows, init, nonce)
      + if IsGrantedUse(Run(rows, init), op, nonce) then [op] else []
  }

  lemma UsesExtended(rows: seq<Grant>, before: seq<Op>, op: Op, nonce: Value)
    ensures Uses(rows, before + [op], nonce)
         == Uses(rows, before, nonce) + if IsGrantedUse(Run(rows, before), op, nonce) then [op] else []
  {
    assert (before + [op])[..|before|] == before;
  }

  /** The grant is there after every operation: it is neither revoked nor replaced. */
  ghost predicate HeldThroughout(rows: seq<Grant>, ops: seq<Op>, nonce: Value) {
    forall k :: 0 <= k <= |ops| ==> Has(Run(rows, ops[..k]), nonce)
  }

  lemma {:induction false} HasInSeq(rows: seq<Grant>, g: Grant)
    requires Inv(rows) && g in rows
    ensures Has(rows, g.nonce) && RowOf(rows, g.nonce) == g
  {
    var k :| 0 <= k < |rows| && rows[k] == g;
    assert k == IndexOf(rows, g.nonce);
  }

  /** While a grant is held, an operation changes nothing of it but the stamp, and that only when it
      is the grant's own granted use. */
  lemma GrantAfterStep(rows: seq<Grant>, op: Op, nonce: Value)
    requires Inv(rows) && Has(rows, nonce) && Has(Step(rows, op), nonce)
    ensures RowOf(Step(rows, op), nonce)
         == if IsGrantedUse(rows, op, nonce)
            then RowOf(rows, nonce).(lastUsedAt := Some(TruncateToSecond(op.stampedAt)))
            else RowOf(rows, nonce)
  {
    var g, g' := RowOf(rows, nonce), RowOf(Step(rows, op), nonce);
    StepKeepsInv(rows, op);
    match op
    case Record(_, _, _, _) =>
      assert g' in rows;
      HasInSeq(rows, g');
    case Revoke(_, _, _) =>
      assert g' in rows;
      HasInSeq(rows, g');
    case Use(used, _, stampedAt) =>
      if UseGranted(rows, op) {
        var i, k := IndexOf(rows, used), IndexOf(rows, nonce);
        var stamped := Stamped(rows, used, stampedAt);
        assert stamped[k] in stamped;
        HasInSeq(stamped, stamped[k]);
      }
  }

  lemma HeldAtBothEnds(rows: seq<Grant>, ops: seq<Op>, nonce: Value)
    requires HeldThroughout(rows, ops, nonce)
    ensures Has(rows, nonce) && Has(Run(rows, ops), nonce)
  {
    assert ops[..|ops|] == ops && ops[..0] == [];
    assert Has(Run(rows, ops[..0]), nonce) && Has(Run(rows, ops[..|ops|]), nonce);
  }

  lemma {:induction false} GrantAfterRun(rows: seq<Grant>, ops: seq<Op>, nonce: Value)
    requires Inv(rows) && HeldThroughout(rows, ops, nonce)
    ensures Has(rows, nonce) && Has(Run(rows, ops), nonce)
    ensures var uses := Uses(rows, ops, nonce);
            RowOf(Run(rows, ops), nonce)
            == if uses == [] then RowOf(rows, nonce)
               else RowOf(rows, nonce).(lastUsedAt := Some(TruncateToSecond(uses[|uses| - 1].stampedAt)))
  {
    HeldAtBothEnds(rows, ops, nonce);
    if ops != [] {
      var init := ops[..|ops| - 1];
      PrefixHeld(rows, ops, nonce);
      GrantAfterRun(rows, init, nonce);
      RunKeepsInv(rows, init);
      var op, s, uses := ops[|ops| - 1], Run(rows, init), Uses(rows, init, nonce);
      GrantAfterStep(s, op, nonce);
      if IsGrantedUse(s, op, nonce) {
        assert Uses(rows, ops, nonce) == uses + [op];
      } else {
        assert Uses(rows, ops, nonce) == uses;
      }
    }
  }

  lemma PrefixHeld(rows: seq<Grant>, ops: seq<Op>, nonce: Value)
    requires ops != [] && HeldThroughout(rows, ops, nonce)
    ensures HeldThroughout(rows, ops[..|ops| - 1], nonce)
  {
    var init := ops[..|ops| - 1];
    forall k | 0 <= k <= |init| ensures Has(Run(rows, init[..k]), nonce) {
      assert init[..k] == ops[..k];
      assert Has(Run(rows, ops[..k]), nonce);
    }
  }

  // ---- the rate limit ----

  ghost predicate AreUses(uses: seq<Op>) {
    forall k :: 0 <= k < |uses| ==> uses[k].Use?
  }

  /** What a use is measured from: the second in which the use before it was stamped, or the anchor
      the grant started with. */
  ghost function AnchorOf(uses: seq<Op>, anchor: int, k: nat): int
    requires k < |uses| && AreUses(uses)
  {
    if k == 0 then anchor else TruncateToSecond(uses[k - 1].stampedAt)
  }

  ghost predicate Spaced(uses: seq<Op>, anchor: int, wait: int)
    requires AreUses(uses)
  {
    forall k :: 0 <= k < |uses| ==> uses[k].checkedAt >= AnchorOf(uses, anchor, k) + wait
  }

  lemma SpacedExtended(uses: seq<Op>, op: Op, anchor: int, wait: int)
    requires AreUses(uses) && op.Use? && Spaced(uses, anchor, wait)
    requires op.checkedAt >= (if uses == [] then anchor else TruncateToSecond(uses[|uses| - 1].stampedAt)) + wait
    ensures Spaced(uses + [op], anchor, wait)
  {
    assert forall k: nat :: k < |uses| ==> AnchorOf(uses + [op], anchor, k) == AnchorOf(uses, anchor, k);
  }

  /** The uses of a grant are spaced by its cadence less its window; a grant without readable
      durations has none. */
  ghost predicate SpacedFor(g: Grant, uses: seq<Op>)
    requires AreUses(uses)
  {
    uses != [] ==> Wait(g).Some? && Spaced(uses, Anchor(g), Wait(g).value)
  }

  lemma SpacedForExtended(g: Grant, uses: seq<Op>, op: Op)
    requires AreUses(uses) && op.Use? && SpacedFor(g, uses) && Wait(g).Some?
    requires op.checkedAt
          >= (if uses == [] then Anchor(g) else TruncateToSecond(uses[|uses| - 1].stampedAt)) + Wait(g).value
    ensures SpacedFor(g, uses + [op])
  {
    SpacedExtended(uses, op, Anchor(g), Wait(g).value);
  }

  /** What the window check establishes for a use, in terms of the uses before it. */
  lemma UseIsSpaced(rows: seq<Grant>, before: seq<Op>, op: Op, nonce: Value)
    requires Inv(rows) && HeldThroughout(rows, before, nonce)
    requires IsGrantedUse(Run(rows, before), op, nonce)
    ensures Has(rows, nonce) && Wait(RowOf(rows, nonce)).Some?
    ensures var g, uses := RowOf(rows, nonce), Uses(rows, before, nonce);
            op.checkedAt >= (if uses == [] then Anchor(g) else TruncateToSecond(uses[|uses| - 1].stampedAt))
                            + Wait(g).value
  {
    GrantAfterRun(rows, before, nonce);
  }

  /** One more operation: the window check spaces a granted use from those before it. */
  lemma OneMoreIsSpaced(rows: seq<Grant>, before: seq<Op>, op: Op, nonce: Value)
    requires Inv(rows) && HeldThroughout(rows, before, nonce) && Has(rows, nonce)
    requires SpacedFor(RowOf(rows, nonce), Uses(rows, before, nonce))
    ensures SpacedFor(RowOf(rows, nonce), Uses(rows, before + [op], nonce))
  {
    var uses := Uses(rows, before, nonce);
    UsesExtended(rows, before, op, nonce);
    if IsGrantedUse(Run(rows, before), op, nonce) {
      UseIsSpaced(rows, before, op, nonce);
      SpacedForExtended(RowOf(rows, nonce), uses, op);
    }
  }

  /** For as long as one grant is held its granted uses are spaced by its cadence less its window,
      the first one from its issue (or from the stamp it already carried). */
  lemma {:induction false} UsesAreSpaced(rows: seq<Grant>, ops: seq<Op>, nonce: Value)
    requires Inv(rows) && HeldThroughout(rows, ops, nonce)
    ensures Has(rows, nonce) && SpacedFor(RowOf(rows, nonce), Uses(rows, ops, nonce))
  {
    HeldAtBothEnds(rows, ops, nonce);
    if ops != [] {
      var before, op := ops[..|ops| - 1], ops[|ops| - 1];
      PrefixHeld(rows, ops, nonce);
      UsesAreSpaced(rows, before, nonce);
      OneMoreIsSpaced(rows, before, op, nonce);
      assert ops == before + [op];
    }
  }

  ghost predicate ClockNeverGoesBack(uses: seq<Op>) {
    forall k :: 0 <= k < |uses| ==> uses[k].Use? && uses[k].checkedAt <= uses[k].stampedAt
  }

  ghost predicate WholeSeconds(uses: seq<Op>) {
    forall k :: 0 <= k < |uses| ==> uses[k].Use? && uses[k].stampedAt % SECOND == 0
  }

  /** What a stamp, cut down to the second, may take off a gap: nothing on a whole-second clock, and
      otherwise less than a second. */
  ghost predicate AtMostLost(uses: seq<Op>, lost: int) {
    lost == SECOND - 1 || (lost == 0 && WholeSeconds(uses))
  }

  lemma GapOfUses(uses: seq<Op>, anchor: int, wait: int, lost: int, k: nat)
    requires 0 < k < |uses| && AreUses(uses) && ClockNeverGoesBack(uses)
    requires Spaced(uses, anchor, wait) && AtMostLost(uses, lost)
    ensures uses[k].checkedAt - uses[k - 1].checkedAt >= wait - lost
  {
    var before := uses[k - 1];
    assert before.stampedAt - TruncateToSecond(before.stampedAt) <= lost;
    assert AnchorOf(uses, anchor, k) == TruncateToSecond(before.stampedAt);
  }

  lemma OneMoreGap(n: int, gap: int)
    ensures n * gap == (n - 1) * gap + gap
  {
  }

  lemma {:induction false} SpanOfUses(uses: seq<Op>, gap: int)
    requires uses != [] && AreUses(uses)
    requires forall k :: 0 < k < |uses| ==> uses[k].checkedAt - uses[k - 1].checkedAt >= gap
    ensures uses[|uses| - 1].checkedAt - uses[0].checkedAt >= (|uses| - 1) * gap
  {
    if |uses| > 1 {
      var init := uses[..|uses| - 1];
      forall k | 0 < k < |init| ensures init[k].checkedAt - init[k - 1].checkedAt >= gap {
        assert init[k] == uses[k] && init[k - 1] == uses[k - 1];
      }
      SpanOfUses(init, gap);
      OneMoreGap(|uses| - 1, gap);
    }
  }

  ghost predicate Limited(uses: seq<Op>, anchor: int, wait: int, lost: int)
    requires uses != [] && AreUses(uses)
  {
    && uses[0].checkedAt >= anchor + wait
    && (forall k :: 0 < k < |uses| ==> uses[k].checkedAt - uses[k - 1].checkedAt >= wait - lost)
    && uses[|uses| - 1].checkedAt - uses[0].checkedAt >= (|uses| - 1) * (wait - lost)
  }

  lemma SpacedIsLimited(uses: seq<Op>, anchor: int, wait: int, lost: int)
    requires uses != [] && AreUses(uses) && ClockNeverGoesBack(uses) && Spaced(uses, anchor, wait)
    requires AtMostLost(uses, lost)
    ensures Limited(uses, anchor, wait, lost)
  {
    assert AnchorOf(uses, anchor, 0) == anchor;
    forall k | 0 < k < |uses| ensures uses[k].checkedAt - uses[k - 1].checkedAt >= wait - lost {
      GapOfUses(uses, anchor, wait, lost, k);
    }
    SpanOfUses(uses, wait - lost);
  }

  /** The rate limit: while one grant is held, its first use comes a full wait (cadence less window)
      after its anchor, any two consecutive uses are at least a wait apart, and `n` of them span at
      least `n - 1` waits; each gap may lose less than a second unless the clock counts whole seconds. */
  lemma RateLimit(rows: seq<Grant>, ops: seq<Op>, nonce: Value, lost: int)
    requires Inv(rows) && HeldThroughout(rows, ops, nonce) && Uses(rows, ops, nonce) != []
    requires ClockNeverGoesBack(Uses(rows, ops, nonce)) && AtMostLost(Uses(rows, ops, nonce), lost)
    ensures Has(rows, nonce) && Wait(RowOf(rows, nonce)).Some?
    ensures Limited(Uses(rows, ops, nonce), Anchor(RowOf(rows, nonce)), Wait(RowOf(rows, nonce)).value, lost)
  {
    UsesAreSpaced(rows, ops, nonce);
    SpacedIsLimited(Uses(rows, ops, nonce), Anchor(RowOf(rows, nonce)), Wait(RowOf(rows, nonce)).value, lost);
  }

  // ---- the store object ----

  class FollowupGrantStore {
    var rows: seq<Grant>

    constructor ()
      ensures rows == [] && Inv(rows)
    {
      rows := [];
    }

    /** `_record`: a grant for the same (direction, counterparty, service) replaces the one before. */
    method RecordGrant(direction: Direction, counterparty: Address, wire: Wire, verified: bool)
      returns (r: Result<Grant>)
      modifies this
      ensures rows == Step(old(rows), Record(direction, counterparty, wire, verified))
      ensures r.Success? <==> RecordAllowed(old(rows), Record(direction, counterparty, wire, verified))
      ensures r.Success? ==> r == ReadGrant(direction, counterparty, wire)
    {
      r := ReadGrant(direction, counterparty, wire);
      if r.Failure? { return; }
      if !verified { return Failure("grant envelope failed verification"); }
      if exists g <- rows :: g.nonce == r.value.nonce {
        return Failure("follow-up grant replay detected");
      }
      var row := r.value;
      rows := WithoutSlot(rows, direction, counterparty, row.serviceId);
      rows := rows + [row];
    }

    method StampUsed(nonce: Value, now: int) returns (found: bool)
      modifies this
      ensures rows == Stamped(old(rows), nonce, now)
      ensures found <==> Has(old(rows), nonce)
    {
      for i := 0 to |rows|
        invariant rows == old(rows) && i <= IndexOf(rows, nonce)
      {
        var r := rows[i];
        if r.nonce == nonce {
          rows := rows[i := Grant(r.direction, r.counterparty, r.serviceId, r.cadence, r.window, r.validUntil,
                                  r.nonce, r.issuedAt, r.envelope, Some(TruncateToSecond(now)))];
          return true;
        }
      }
      return false;
    }

    method RevokeGrant(counterparty: Address, serviceId: Value, direction: Direction) returns (removed: bool)
      modifies this
      ensures rows == Step(old(rows), Revoke(counterparty, serviceId, direction))
      ensures removed <==> exists g <- old(rows) :: SameSlot(g, direction, counterparty, serviceId)
    {
      var before := |rows|;
      ShrinksExactly(rows, direction, counterparty, serviceId);
      rows := WithoutSlot(rows, direction, counterparty, serviceId);
      return |rows| < before;
    }
  }

  lemma {:induction false} ShrinksExactly(rows: seq<Grant>, direction: Direction, counterparty: Address,
                                                serviceId: Value)
    ensures |WithoutSlot(rows, direction, counterparty, serviceId)| < |rows|
       <==> exists g <- rows :: SameSlot(g, direction, counterparty, serviceId)
  {
    if rows != [] {
      ShrinksExactly(rows[1..], direction, counterparty, serviceId);
      assert rows == [rows[0]] + rows[1..];
      assert rows[0] in rows;
    }
  }
}
