/** Follow-up grants in numbers and wire fields: when a use is due, what the rate limit amounts to, and
    which envelopes make a grant. */
module FollowupWindow {
  import opened Values
  import opened Envelopes
  import opened FollowupGrants
  import opened FollowupReplay
  import opened WireFields
  import Durations

  // ---- when a use is due ----

  lemma SpanOfText(text: string, n: nat)
    requires Durations.ParseIsoDuration(text) == Success(n)
    ensures Span(Str(text)) == Some(n * 1_000_000)
  {
  }

  lemma WaitOfSpans(g: Grant, x: int, y: int)
    requires Span(g.cadence) == Some(x) && Span(g.window) == Some(y)
    ensures Wait(g) == Some(x - y)
  {
  }

  lemma DueExactly(g: Grant, x: int, y: int, now: int)
    requires Span(g.cadence) == Some(x) && Span(g.window) == Some(y)
    ensures WithinOutreachWindow(g, now)
       <==> now >= (if g.lastUsedAt.Some? then g.lastUsedAt.value else g.issuedAt) + x - y
  {
    WaitOfSpans(g, x, y);
  }

  /** A use is let through exactly from the last stamp, or the issue, plus the cadence less the window on
      (both in seconds here, the times in microseconds). */
  lemma OutreachExactly(g: Grant, cadence: string, window: string, c: nat, w: nat, now: int)
    requires g.cadence == Str(cadence) && Durations.ParseIsoDuration(cadence) == Success(c)
    requires g.window == Str(window) && Durations.ParseIsoDuration(window) == Success(w)
    ensures WithinOutreachWindow(g, now)
       <==> now >= (if g.lastUsedAt.Some? then g.lastUsedAt.value else g.issuedAt) + (c - w) * 1_000_000
  {
    SpanOfText(cadence, c);
    SpanOfText(window, w);
    DueExactly(g, c * 1_000_000, w * 1_000_000, now);
  }

  /** A duration that cannot be read never lets a use through. */
  lemma UnreadableIsNeverDue(g: Grant, now: int)
    requires || !g.cadence.Str? || Durations.ParseIsoDuration(g.cadence.text).Failure?
             || !g.window.Str? || Durations.ParseIsoDuration(g.window.text).Failure?
    ensures !WithinOutreachWindow(g, now)
  {
  }

  // ---- the rate limit ----

  lemma WaitInSeconds(g: Grant, cadence: string, window: string, c: nat, w: nat)
    requires g.cadence == Str(cadence) && Durations.ParseIsoDuration(cadence) == Success(c)
    requires g.window == Str(window) && Durations.ParseIsoDuration(window) == Success(w)
    ensures Wait(g).Some? && Wait(g).value == (c - w) * 1_000_000
  {
    SpanOfText(cadence, c);
    SpanOfText(window, w);
    WaitOfSpans(g, c * 1_000_000, w * 1_000_000);
  }

  /** How far the first use is from the anchor, every use from the one before it, and the last from the
      first, when the clock never goes back and a stamp loses at most its fraction of a second. */
  lemma LimitedByWait(uses: seq<Op>, anchor: int, wait: int, lost: int)
    requires uses != [] && AreUses(uses) && ClockNeverGoesBack(uses) && AtMostLost(uses, lost)
    requires Spaced(uses, anchor, wait)
    ensures uses[0].checkedAt >= anchor + wait
    ensures forall k :: 0 < k < |uses| ==> uses[k].checkedAt - uses[k - 1].checkedAt >= wait - lost
    ensures uses[|uses| - 1].checkedAt - uses[0].checkedAt >= (|uses| - 1) * (wait - lost)
  {
    SpacedIsLimited(uses, anchor, wait, lost);
  }

  lemma ClockAndLoss(uses: seq<Op>, lost: int)
    requires AreUses(uses) && forall u <- uses :: u.Use? && u.checkedAt <= u.stampedAt
    requires lost == 999_999 || (lost == 0 && forall u <- uses :: u.Use? && u.stampedAt % 1_000_000 == 0)
    ensures ClockNeverGoesBack(uses) && AtMostLost(uses, lost)
  {
    assert forall k :: 0 <= k < |uses| ==> uses[k] in uses;
  }

  lemma SpacedByWait(rows: seq<Grant>, ops: seq<Op>, g: Grant, wait: int)
    requires Inv(rows) && HeldThroughout(rows, ops, g.nonce) && Uses(rows, ops, g.nonce) != []
    requires g in rows && Wait(g) == Some(wait)
    ensures AreUses(Uses(rows, ops, g.nonce)) && Spaced(Uses(rows, ops, g.nonce), Anchor(g), wait)
  {
    UsesAreSpaced(rows, ops, g.nonce);
    HasInSeq(rows, g);
    WaitOfSpaced(g, Uses(rows, ops, g.nonce), wait);
  }

  lemma WaitOfSpaced(g: Grant, uses: seq<Op>, wait: int)
    requires AreUses(uses) && SpacedFor(g, uses) && uses != [] && Wait(g) == Some(wait)
    ensures Spaced(uses, Anchor(g), wait)
  {
  }

  lemma LimitOfWait(rows: seq<Grant>, ops: seq<Op>, uses: seq<Op>, g: Grant, wait: int, lost: int)
    requires Inv(rows) && HeldThroughout(rows, ops, g.nonce) && uses == Uses(rows, ops, g.nonce) && uses != []
    requires g in rows && Wait(g) == Some(wait)
    requires forall u <- uses :: u.Use? && u.checkedAt <= u.stampedAt
    requires lost == 999_999 || (lost == 0 && forall u <- uses :: u.Use? && u.stampedAt % 1_000_000 == 0)
    ensures uses[0].checkedAt >= (if g.lastUsedAt.Some? then g.lastUsedAt.value else g.issuedAt) + wait
    ensures forall k :: 0 < k < |uses| ==> uses[k].checkedAt - uses[k - 1].checkedAt >= wait - lost
    ensures uses[|uses| - 1].checkedAt - uses[0].checkedAt >= (|uses| - 1) * (wait - lost)
  {
    SpacedByWait(rows, ops, g, wait);
    ClockAndLoss(uses, lost);
    LimitedByWait(uses, Anchor(g), wait, lost);
  }

  /** The rate limit of a grant with a cadence of `c` and a window of `w` seconds, while it is held: when
      its first use comes, how far each use is from the one before, and the last from the first. */
  lemma RateLimitInSeconds(rows: seq<Grant>, ops: seq<Op>, uses: seq<Op>, g: Grant, lost: int,
                           cadence: string, window: string, c: nat, w: nat, wait: int)
    requires wait == (c - w) * 1_000_000
    requires g.cadence == Str(cadence) && Durations.ParseIsoDuration(cadence) == Success(c)
    requires g.window == Str(window) && Durations.ParseIsoDuration(window) == Success(w)
    requires Inv(rows) && g in rows && HeldThroughout(rows, ops, g.nonce)
    requires uses == Uses(rows, ops, g.nonce) && uses != []
    requires forall u <- uses :: u.Use? && u.checkedAt <= u.stampedAt
    requires lost == 999_999 || (lost == 0 && forall u <- uses :: u.Use? && u.stampedAt % 1_000_000 == 0)
    ensures uses[0].checkedAt >= (if g.lastUsedAt.Some? then g.lastUsedAt.value else g.issuedAt) + wait
    ensures forall k :: 0 < k < |uses| ==> uses[k].checkedAt - uses[k - 1].checkedAt >= wait - lost
    ensures uses[|uses| - 1].checkedAt - uses[0].checkedAt >= (|uses| - 1) * (wait - lost)
  {
    WaitInSeconds(g, cadence, window, c, w);
    LimitOfWait(rows, ops, uses, g, wait, lost);
  }

  /** The same for a slot, from one accepted record in it to the next. */
  lemma SlotLimitInSeconds(rows: seq<Grant>, ops: seq<Op>, uses: seq<Op>, g: Grant, lost: int,
                           cadence: string, window: string, c: nat, w: nat, wait: int)
    requires wait == (c - w) * 1_000_000
    requires g.cadence == Str(cadence) && Durations.ParseIsoDuration(cadence) == Success(c)
    requires g.window == Str(window) && Durations.ParseIsoDuration(window) == Success(w)
    requires Inv(rows) && g in rows && NoRecordInSlot(rows, ops, g)
    requires uses == SlotUses(rows, ops, g) && uses != []
    requires forall u <- uses :: u.Use? && u.checkedAt <= u.stampedAt
    requires lost == 999_999 || (lost == 0 && forall u <- uses :: u.Use? && u.stampedAt % 1_000_000 == 0)
    ensures uses[0].checkedAt >= (if g.lastUsedAt.Some? then g.lastUsedAt.value else g.issuedAt) + wait
    ensures forall k :: 0 < k < |uses| ==> uses[k].checkedAt - uses[k - 1].checkedAt >= wait - lost
    ensures uses[|uses| - 1].checkedAt - uses[0].checkedAt >= (|uses| - 1) * (wait - lost)
  {
    var k := SlotUsesAreGrantUses(rows, ops, g);
    RateLimitInSeconds(rows, ops[..k], uses, g, lost, cadence, window, c, w, wait);
  }

  // ---- in days ----

  function Days(n: nat): Value {
    Str("P" + Durations.Decimal(n) + "D")
  }

  lemma SpanOfDays(n: nat)
    ensures Span(Days(n)) == Some(n * 86400 * 1_000_000)
  {
    Durations.DaysAreWorth(n);
    SpanOfText("P" + Durations.Decimal(n) + "D", 86400 * n);
  }

  lemma OutreachInDays(g: Grant, c: nat, w: nat, now: int)
    requires g.cadence == Days(c) && g.window == Days(w)
    ensures WithinOutreachWindow(g, now)
       <==> now >= (if g.lastUsedAt.Some? then g.lastUsedAt.value else g.issuedAt) + (c - w) * 86400 * 1_000_000
  {
    SpanOfDays(c);
    SpanOfDays(w);
    DueExactly(g, c * 86400 * 1_000_000, w * 86400 * 1_000_000, now);
  }

  // ---- what makes a grant ----

  /** The envelope of a grant by this counterparty, and the grant that is made of it. */
  ghost predicate Makes(op: Op, g: Grant) {
    && op.Record? && op.verified && op.wire.Parsed?
    && Carries(op.wire.envelope, "aap.service-followup-grant/v1",
               {"service_id", "cadence_iso", "outreach_window_before", "valid_until", "nonce"})
    && var e := op.wire.envelope;
    && var p := e.payload.fields;
    && e.iss == op.counterparty
    && g.direction == op.direction && g.counterparty == op.counterparty && e.iat == Some(g.issuedAt)
    && g.serviceId == p["service_id"] && g.cadence == p["cadence_iso"] && g.window == p["outreach_window_before"]
    && g.validUntil == p["valid_until"] && g.nonce == p["nonce"] && g.envelope == e
  }

  lemma ReadGrantExactly(op: Op, g: Grant)
    requires op.Record? && op.verified && g.lastUsedAt == None
    ensures ReadGrant(op.direction, op.counterparty, op.wire) == Success(g) <==> Makes(op, g)
  {
  }

  /** The same side, the same counterparty and the same service. */
  predicate SharesSlot(g: Grant, h: Grant) {
    g.direction == h.direction && g.counterparty == h.counterparty && g.serviceId == h.serviceId
  }

  /** A record is accepted exactly when it makes a grant whose nonce is not held. That grant is then the
      newest, and exactly what was in its slot is gone. */
  lemma RecordedOnWire(rows: seq<Grant>, op: Op)
    requires op.Record?
    ensures RecordAllowed(rows, op)
       <==> exists g: Grant :: Makes(op, g) && g.lastUsedAt == None && forall r <- rows :: r.nonce != g.nonce
    ensures RecordAllowed(rows, op) ==>
      var after := Step(rows, op);
      && after != [] && Makes(op, after[|after| - 1]) && after[|after| - 1].lastUsedAt == None
      && forall g :: g in after[..|after| - 1] <==> g in rows && !SharesSlot(g, after[|after| - 1])
  {
    if RecordAllowed(rows, op) {
      ReadGrantExactly(op, GrantOf(op));
      RecordedExactly(rows, op);
    }
    if g: Grant :| Makes(op, g) && g.lastUsedAt == None && forall r <- rows :: r.nonce != g.nonce {
      ReadGrantExactly(op, g);
      RecordedExactly(rows, op);
    }
  }

  lemma MadeIsRecorded(rows: seq<Grant>, op: Op, g: Grant)
    requires op.Record? && Makes(op, g) && g.lastUsedAt == None && forall r <- rows :: r.nonce != g.nonce
    ensures RecordAllowed(rows, op) && GrantOf(op) == g && g in Step(rows, op)
  {
    ReadGrantExactly(op, g);
    RecordedExactly(rows, op);
  }

  /** A grant just recorded, of `c` days with a window of `w` days: as long as no other is recorded in its
      slot, that is first used `c - w` days after the grant's issue, and then once in `c - w` days at most. */
  lemma RecordedLimitInDays(rows: seq<Grant>, record: Op, g: Grant, after: seq<Grant>, ops: seq<Op>, uses: seq<Op>,
                            lost: int, c: nat, w: nat, wait: int)
    requires Inv(rows) && record.Record? && Makes(record, g) && g.lastUsedAt == None
    requires g.cadence == Days(c) && g.window == Days(w) && wait == (c - w) * 86400 * 1_000_000
    requires (forall r <- rows :: r.nonce != g.nonce) && after == Step(rows, record)
    requires NoRecordInSlot(after, ops, g) && uses == SlotUses(after, ops, g) && uses != []
    requires forall u <- uses :: u.Use? && u.checkedAt <= u.stampedAt
    requires lost == 999_999 || (lost == 0 && forall u <- uses :: u.Use? && u.stampedAt % 1_000_000 == 0)
    ensures uses[0].checkedAt >= g.issuedAt + wait
    ensures forall k :: 0 < k < |uses| ==> uses[k].checkedAt - uses[k - 1].checkedAt >= wait - lost
    ensures uses[|uses| - 1].checkedAt - uses[0].checkedAt >= (|uses| - 1) * (wait - lost)
  {
    MadeIsRecorded(rows, record, g);
    StepKeepsInv(rows, record);
    Durations.DaysAreWorth(c);
    Durations.DaysAreWorth(w);
    SlotLimitInSeconds(after, ops, uses, g, lost, g.cadence.text, g.window.text, 86400 * c, 86400 * w, wait);
  }

  /** A revocation takes out exactly the grants of its slot. */
  lemma RevokedExactly(rows: seq<Grant>, op: Op)
    requires op.Revoke?
    ensures forall g :: g in Step(rows, op) <==>
      g in rows && !(g.direction == op.direction && g.counterparty == op.counterparty && g.serviceId == op.serviceId)
  {
  }

  /** A use is granted exactly when the grant with its nonce is due. It changes nothing but that grant's
      stamp, which is then the time of use without the fraction of a second. */
  lemma UsedExactly(rows: seq<Grant>, i: nat, checkedAt: int, stampedAt: int)
    requires Inv(rows) && i < |rows|
    ensures UseGranted(rows, Use(rows[i].nonce, checkedAt, stampedAt)) <==> WithinOutreachWindow(rows[i], checkedAt)
    ensures Step(rows, Use(rows[i].nonce, checkedAt, stampedAt))
         == if WithinOutreachWindow(rows[i], checkedAt)
            then rows[i := rows[i].(lastUsedAt := Some(stampedAt - stampedAt % 1_000_000))]
            else rows
  {
    HeldAt(rows, i);
    StampedAt(rows, i, stampedAt);
    FractionIsDropped(stampedAt);
    UsedRow(rows, rows[i], Use(rows[i].nonce, checkedAt, stampedAt));
  }

  lemma HeldAt(rows: seq<Grant>, i: nat)
    requires Inv(rows) && i < |rows|
    ensures IndexOf(rows, rows[i].nonce) == i
  {
    var k := IndexOf(rows, rows[i].nonce);
    assert k <= i && (k < i ==> Clash(rows[k], rows[i]));
  }

  lemma StampedAt(rows: seq<Grant>, i: nat, at: int)
    requires i < |rows| && IndexOf(rows, rows[i].nonce) == i
    ensures Stamped(rows, rows[i].nonce, at) == rows[i := rows[i].(lastUsedAt := Some(TruncateToSecond(at)))]
  {
  }

  lemma UsedRow(rows: seq<Grant>, g: Grant, op: Op)
    requires op.Use? && Has(rows, op.nonce) && RowOf(rows, op.nonce) == g
    ensures UseGranted(rows, op) <==> WithinOutreachWindow(g, op.checkedAt)
    ensures Step(rows, op) == if UseGranted(rows, op) then Stamped(rows, op.nonce, op.stampedAt) else rows
  {
  }

  lemma UnknownIsNotUsed(rows: seq<Grant>, op: Op)
    requires op.Use? && forall g <- rows :: g.nonce != op.nonce
    ensures !UseGranted(rows, op) && Step(rows, op) == rows
  {
  }

  ghost predicate Stems(g: Grant, ops: seq<Op>) {
    exists k :: 0 <= k < |ops| && Makes(ops[k], g)
  }

  lemma StemsExtended(g: Grant, ops: seq<Op>, op: Op)
    requires Stems(g, ops) || Makes(op, g)
    ensures Stems(g, ops + [op])
  {
    if Stems(g, ops) {
      var k :| 0 <= k < |ops| && Makes(ops[k], g);
      assert (ops + [op])[k] == ops[k];
    } else {
      assert (ops + [op])[|ops|] == op;
    }
  }

  /** A grant held after an operation was held before, but for its stamp, or was made by it. */
  lemma HeldBeforeOrMade(rows: seq<Grant>, op: Op, g: Grant) returns (h: Grant)
    requires g in Step(rows, op)
    ensures h == g.(lastUsedAt := h.lastUsedAt) && (h in rows || Makes(op, h))
  {
    h := g;
    match op
    case Record(_, _, _, _) =>
      if g !in rows { ReadGrantExactly(op, GrantOf(op)); }
    case Revoke(_, _, _) =>
    case Use(nonce, _, _) =>
      if g !in rows { h := RowOf(rows, nonce); }
  }

  lemma StemsWhateverTheStamp(ops: seq<Op>, g: Grant, h: Grant)
    requires Stems(h, ops) && h == g.(lastUsedAt := h.lastUsedAt)
    ensures Stems(g, ops)
  {
    var k :| 0 <= k < |ops| && Makes(ops[k], h);
    assert Makes(ops[k], g);
  }

  /** Every grant held after a run from an empty store was made, stamp aside, by a verified envelope of its
      counterparty recorded in the run. */
  lemma {:induction false} GrantsStem(ops: seq<Op>, g: Grant)
    requires g in Run([], ops)
    ensures Stems(g, ops)
  {
    if ops != [] {
      var init, op := ops[..|ops| - 1], ops[|ops| - 1];
      var h := HeldBeforeOrMade(Run([], init), op, g);
      if h in Run([], init) { GrantsStem(init, h); }
      assert ops == init + [op];
      StemsExtended(h, init, op);
      StemsWhateverTheStamp(ops, g, h);
    }
  }
}
