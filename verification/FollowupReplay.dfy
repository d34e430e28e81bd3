/** Follow-up grants recorded again, and what that leaves of the rate limit. */
module FollowupReplay {
  import opened Values
  import opened Envelopes
  import opened FollowupGrants
  import Durations

  // ---- which records are accepted ----

  /** Nonces are looked up among the grants held now: a verified grant is recorded, first or again,
      exactly when none of them has its nonce. */
  lemma RecordedExactly(rows: seq<Grant>, op: Op)
    requires op.Record? && op.verified && ReadGrant(op.direction, op.counterparty, op.wire).Success?
    ensures RecordAllowed(rows, op)
       <==> forall g <- rows :: g.nonce != ReadGrant(op.direction, op.counterparty, op.wire).value.nonce
  {
    var nonce := ReadGrant(op.direction, op.counterparty, op.wire).value.nonce;
    if g :| g in rows && g.nonce == nonce {
      var k :| 0 <= k < |rows| && rows[k] == g;
      assert IndexOf(rows, nonce) <= k;
    }
    if Has(rows, nonce) { assert RowOf(rows, nonce) in rows; }
  }

  function GrantOf(op: Op): Grant
    requires op.Record? && ReadGrant(op.direction, op.counterparty, op.wire).Success?
  {
    ReadGrant(op.direction, op.counterparty, op.wire).value
  }

  ghost predicate InSlotOf(r: Grant, g: Grant) {
    SameSlot(r, g.direction, g.counterparty, g.serviceId)
  }

  /** A grant replaced in its slot by another can be recorded again, and then replaces that one. */
  lemma ReplacedIsRecordedAgain(rows: seq<Grant>, first: Op, second: Op)
    requires first.Record? && RecordAllowed(rows, first)
    requires second.Record? && RecordAllowed(Step(rows, first), second)
    requires InSlotOf(GrantOf(first), GrantOf(second))
    ensures RecordAllowed(Step(Step(rows, first), second), first)
  {
    var after := Step(Step(rows, first), second);
    RecordedExactly(rows, first);
    RecordedExactly(Step(rows, first), second);
    assert GrantOf(first) in Step(rows, first);
    RecordedExactly(after, first);
  }

  /** So can a revoked one. */
  lemma RevokedIsRecordedAgain(rows: seq<Grant>, record: Op)
    requires record.Record? && RecordAllowed(rows, record)
    ensures var g := GrantOf(record);
            RecordAllowed(Step(Step(rows, record), Revoke(g.counterparty, g.serviceId, g.direction)), record)
  {
    var g := GrantOf(record);
    RecordedExactly(rows, record);
    RecordedExactly(Step(Step(rows, record), Revoke(g.counterparty, g.serviceId, g.direction)), record);
  }

  // ---- the same grant, used again at once ----

  lemma RecordedIsHeld(rows: seq<Grant>, record: Op)
    requires Inv(rows) && record.Record? && RecordAllowed(rows, record)
    ensures var g := GrantOf(record);
            Has(Step(rows, record), g.nonce) && RowOf(Step(rows, record), g.nonce) == g
  {
    StepKeepsInv(rows, record);
    assert GrantOf(record) in Step(rows, record);
    HasInSeq(Step(rows, record), GrantOf(record));
  }

  lemma StampedThenRevoked(rows: seq<Grant>, g: Grant, t: int)
    requires Inv(rows) && Has(rows, g.nonce) && RowOf(rows, g.nonce) == g
    requires UseGranted(rows, Use(g.nonce, t, t))
    ensures var after := Step(Step(rows, Use(g.nonce, t, t)), Revoke(g.counterparty, g.serviceId, g.direction));
            Inv(after) && forall r <- after :: r.nonce != g.nonce
  {
    var used := Step(rows, Use(g.nonce, t, t));
    var i := IndexOf(rows, g.nonce);
    StepKeepsInv(rows, Use(g.nonce, t, t));
    StepKeepsInv(used, Revoke(g.counterparty, g.serviceId, g.direction));
    forall r | r in used && r.nonce == g.nonce ensures InSlotOf(r, g) {
      var k :| 0 <= k < |used| && used[k] == r;
      assert used[i].nonce == g.nonce;
      if k < i { assert Clash(used[k], used[i]); }
      if i < k { assert Clash(used[i], used[k]); }
    }
  }

  /** A use is granted, the grant is revoked and its signed envelope recorded again: the stamp is gone,
      and the next use is granted at the very same time. */
  lemma UsedAgainAtOnce(rows: seq<Grant>, record: Op, t: int)
    requires Inv(rows) && record.Record? && RecordAllowed(rows, record)
    requires WithinOutreachWindow(GrantOf(record), t)
    ensures var g := GrantOf(record);
            var use, revoke := Use(g.nonce, t, t), Revoke(g.counterparty, g.serviceId, g.direction);
            var first := Step(rows, record);
            var after := Step(Step(first, use), revoke);
            UseGranted(first, use) && RecordAllowed(after, record) && UseGranted(Step(after, record), use)
  {
    var g := GrantOf(record);
    var use, revoke := Use(g.nonce, t, t), Revoke(g.counterparty, g.serviceId, g.direction);
    var first := Step(rows, record);
    RecordedIsHeld(rows, record);
    StepKeepsInv(rows, record);
    StampedThenRevoked(first, g, t);
    var after := Step(Step(first, use), revoke);
    RecordedExactly(after, record);
    RecordedIsHeld(after, record);
  }

  lemma RunExtended(rows: seq<Grant>, before: seq<Op>, op: Op, nonce: Value)
    ensures Run(rows, before + [op]) == Step(Run(rows, before), op)
    ensures Uses(rows, before + [op], nonce)
         == if IsGrantedUse(Run(rows, before), op, nonce) then Uses(rows, before, nonce) + [op]
            else Uses(rows, before, nonce)
  {
    assert (before + [op])[..|before|] == before;
    UsesExtended(rows, before, op, nonce);
  }

  lemma JoinOneMore(a: seq<Op>, b: seq<Op>, op: Op)
    ensures (a + b) + [op] == a + (b + [op])
  {
  }

  ghost predicate Splits(rows: seq<Grant>, before: seq<Op>, after: seq<Op>, nonce: Value) {
    && Run(rows, before + after) == Run(Run(rows, before), after)
    && Uses(rows, before + after, nonce) == Uses(rows, before, nonce) + Uses(Run(rows, before), after, nonce)
  }

  lemma SplitsOneMore(rows: seq<Grant>, before: seq<Op>, after: seq<Op>, op: Op, nonce: Value)
    requires Splits(rows, before, after, nonce)
    ensures Splits(rows, before, after + [op], nonce)
  {
    var middle := Run(rows, before);
    RunExtended(rows, before + after, op, nonce);
    RunExtended(middle, after, op, nonce);
    JoinOneMore(before, after, op);
    JoinOneMore(Uses(rows, before, nonce), Uses(middle, after, nonce), op);
  }

  lemma SplitsAtEnd(rows: seq<Grant>, before: seq<Op>, nonce: Value)
    ensures Splits(rows, before, [], nonce)
  {
    assert before + [] == before;
  }

  lemma {:induction false} RunSplit(rows: seq<Grant>, before: seq<Op>, after: seq<Op>, nonce: Value)
    ensures Splits(rows, before, after, nonce)
  {
    if after == [] {
      SplitsAtEnd(rows, before, nonce);
    } else {
      var init, op := after[..|after| - 1], after[|after| - 1];
      RunSplit(rows, before, init, nonce);
      SplitsOneMore(rows, before, init, op, nonce);
      assert after == init + [op];
    }
  }

  lemma RunOfOne(rows: seq<Grant>, op: Op, nonce: Value)
    ensures Run(rows, [op]) == Step(rows, op)
    ensures Uses(rows, [op], nonce) == if IsGrantedUse(rows, op, nonce) then [op] else []
  {
    assert [op][..0] == [];
    RunExtended(rows, [], op, nonce);
    assert [] + [op] == [op];
  }

  lemma RunOfTwo(rows: seq<Grant>, first: Op, second: Op, nonce: Value)
    requires !IsGrantedUse(rows, first, nonce) && IsGrantedUse(Step(rows, first), second, nonce)
    ensures Run(rows, [first] + [second]) == Step(Step(rows, first), second)
    ensures Uses(rows, [first] + [second], nonce) == [second]
  {
    RunOfOne(rows, first, nonce);
    RunOfOne(Step(rows, first), second, nonce);
    RunSplit(rows, [first], [second], nonce);
  }

  lemma UsesOfThree(rows: seq<Grant>, a: seq<Op>, b: seq<Op>, c: seq<Op>, nonce: Value)
    ensures Uses(rows, a + (b + c), nonce)
         == Uses(rows, a, nonce)
            + (Uses(Run(rows, a), b, nonce) + Uses(Run(Run(rows, a), b), c, nonce))
  {
    RunSplit(Run(rows, a), b, c, nonce);
    RunSplit(rows, a, b + c, nonce);
  }

  /** Five operations of which exactly the second and the last are granted uses. */
  lemma UsesOfFive(rows: seq<Grant>, record: Op, use: Op, revoke: Op, used: seq<Grant>, after: seq<Grant>)
    requires record.Record? && use.Use? && revoke.Revoke?
    requires UseGranted(Step(rows, record), use) && used == Step(Step(rows, record), use)
    requires after == Step(used, revoke) && UseGranted(Step(after, record), use)
    ensures Uses(rows, ([record] + [use]) + ([revoke] + ([record] + [use])), use.nonce) == [use, use]
  {
    RunOfTwo(rows, record, use, use.nonce);
    RunOfOne(used, revoke, use.nonce);
    RunOfTwo(after, record, use, use.nonce);
    UsesOfThree(rows, [record] + [use], [revoke], [record] + [use], use.nonce);
    assert [use] + ([] + [use]) == [use, use];
  }

  /** In a run that records the grant, uses it, revokes it, records it and uses it, both uses are granted
      at one time. */
  ghost predicate UsedTwiceAt(rows: seq<Grant>, record: Op, t: int)
    requires record.Record? && ReadGrant(record.direction, record.counterparty, record.wire).Success?
  {
    var g := GrantOf(record);
    var use, revoke := Use(g.nonce, t, t), Revoke(g.counterparty, g.serviceId, g.direction);
    var uses := Uses(rows, ([record] + [use]) + ([revoke] + ([record] + [use])), g.nonce);
    |uses| == 2 && uses[0] == use && uses[1] == use
  }

  /** Whatever the grant: in the run above it is used twice at any time at which it may be used once. */
  lemma RunWithTwoUses(rows: seq<Grant>, record: Op, t: int)
    requires Inv(rows) && record.Record? && RecordAllowed(rows, record)
    requires WithinOutreachWindow(GrantOf(record), t)
    ensures UsedTwiceAt(rows, record, t)
  {
    var g := GrantOf(record);
    var use, revoke := Use(g.nonce, t, t), Revoke(g.counterparty, g.serviceId, g.direction);
    UsedAgainAtOnce(rows, record, t);
    var used := Step(Step(rows, record), use);
    UsesOfFive(rows, record, use, revoke, used, Step(used, revoke));
  }

  // ---- concretely ----

  function GrantRecord(issuer: Address, cadence: string, window: string, nonce: Value, issuedAt: int, sig: string): Op {
    var payload := Dict(map["service_id" := Str("service"), "cadence_iso" := Str(cadence),
                            "outreach_window_before" := Str(window), "valid_until" := Str(""), "nonce" := nonce]);
    Record(Received, issuer, Parsed(Envelope(GRANT, payload, issuer, Some(issuedAt), Null, Some(sig))), true)
  }

  lemma GrantReads(issuer: Address, cadence: string, window: string, nonce: Value, issuedAt: int, sig: string)
    ensures var op := GrantRecord(issuer, cadence, window, nonce, issuedAt, sig);
            ReadGrant(op.direction, op.counterparty, op.wire)
            == Success(Grant(Received, issuer, Str("service"), Str(cadence), Str(window), Str(""), nonce, issuedAt,
                             op.wire.envelope, None))
  {
  }

  /** Such a record is accepted by an empty store, and its grant has never been used: by `RunWithTwoUses`
      it is used twice at any time from its first due time on, which is a wait after its issue. */
  lemma GrantIsRecorded(issuer: Address, cadence: string, window: string, nonce: Value, issuedAt: int, sig: string)
    ensures var record := GrantRecord(issuer, cadence, window, nonce, issuedAt, sig);
            && RecordAllowed([], record)
            && GrantOf(record).nonce == nonce && Anchor(GrantOf(record)) == issuedAt
            && GrantOf(record).cadence == Str(cadence) && GrantOf(record).window == Str(window)
  {
    GrantReads(issuer, cadence, window, nonce, issuedAt, sig);
    RecordedExactly([], GrantRecord(issuer, cadence, window, nonce, issuedAt, sig));
  }

  // ---- the limit of a slot ----

  /** No grant is recorded in the slot of `g` during a run. */
  ghost predicate NoRecordInSlot(rows: seq<Grant>, ops: seq<Op>, g: Grant) {
    forall k :: 0 <= k < |ops| && ops[k].Record? && RecordAllowed(Run(rows, ops[..k]), ops[k]) ==>
      !InSlotOf(GrantOf(ops[k]), g)
  }

  ghost predicate IsSlotUse(rows: seq<Grant>, op: Op, g: Grant) {
    op.Use? && UseGranted(rows, op) && InSlotOf(RowOf(rows, op.nonce), g)
  }

  /** The granted uses in a run of whatever grant was then held in the slot of `g`. */
  ghost function SlotUses(rows: seq<Grant>, ops: seq<Op>, g: Grant): (r: seq<Op>)
    ensures AreUses(r)
  {
    if ops == [] then []
    else
      var init, op := ops[..|ops| - 1], ops[|ops| - 1];
      SlotUses(rows, init, g) + if IsSlotUse(Run(rows, init), op, g) then [op] else []
  }

  ghost predicate SlotEmpty(rows: seq<Grant>, g: Grant) {
    forall r <- rows :: !InSlotOf(r, g)
  }

  /** An empty slot stays empty until a grant is recorded in it. */
  lemma EmptyStaysEmpty(rows: seq<Grant>, op: Op, g: Grant)
    requires SlotEmpty(rows, g)
    requires op.Record? && RecordAllowed(rows, op) ==> !InSlotOf(GrantOf(op), g)
    ensures SlotEmpty(Step(rows, op), g) && !IsSlotUse(rows, op, g)
  {
    if op.Use? && UseGranted(rows, op) {
      assert RowOf(rows, op.nonce) in rows;
    }
  }

  /** The one grant held in a slot stays the one until it is revoked or another is recorded there. */
  lemma HeldOrEmptied(rows: seq<Grant>, op: Op, g: Grant)
    requires Inv(rows) && Has(rows, g.nonce) && InSlotOf(RowOf(rows, g.nonce), g)
    requires op.Record? && RecordAllowed(rows, op) ==> !InSlotOf(GrantOf(op), g)
    ensures IsSlotUse(rows, op, g) <==> IsGrantedUse(rows, op, g.nonce)
    ensures SlotEmpty(Step(rows, op), g) || Has(Step(rows, op), g.nonce)
    ensures !Has(Step(rows, op), g.nonce) ==> !IsSlotUse(rows, op, g)
  {
    var row := RowOf(rows, g.nonce);
    StepKeepsInv(rows, op);
    match op
    case Record(_, _, _, _) =>
      if RecordAllowed(rows, op) {
        assert row in Step(rows, op);
        HasInSeq(Step(rows, op), row);
      }
    case Revoke(counterparty, serviceId, direction) =>
      if SameSlot(row, direction, counterparty, serviceId) {
        assert SlotEmpty(Step(rows, op), g);
      } else {
        assert row in Step(rows, op);
        HasInSeq(Step(rows, op), row);
      }
    case Use(nonce, _, stampedAt) =>
      SlotIsOneGrant(rows, op, g);
      StampKeepsNonces(rows, nonce, stampedAt, g.nonce);
  }

  lemma SlotIsOneGrant(rows: seq<Grant>, op: Op, g: Grant)
    requires Inv(rows) && Has(rows, g.nonce) && InSlotOf(RowOf(rows, g.nonce), g) && op.Use?
    ensures IsSlotUse(rows, op, g) <==> IsGrantedUse(rows, op, g.nonce)
  {
    if IsSlotUse(rows, op, g) && op.nonce != g.nonce {
      var i, j := IndexOf(rows, g.nonce), IndexOf(rows, op.nonce);
      assert if i < j then Clash(rows[i], rows[j]) else Clash(rows[j], rows[i]);
    }
  }

  lemma StampKeepsNonces(rows: seq<Grant>, stamped: Value, now: int, nonce: Value)
    requires Has(rows, nonce)
    ensures Has(Stamped(rows, stamped, now), nonce)
  {
    var after := Stamped(rows, stamped, now);
    assert after[IndexOf(rows, nonce)].nonce == nonce;
  }

  lemma SlotUsesExtended(rows: seq<Grant>, before: seq<Op>, op: Op, g: Grant)
    ensures Run(rows, before + [op]) == Step(Run(rows, before), op)
    ensures SlotUses(rows, before + [op], g)
         == if IsSlotUse(Run(rows, before), op, g) then SlotUses(rows, before, g) + [op] else SlotUses(rows, before, g)
  {
    assert (before + [op])[..|before|] == before;
  }

  lemma HeldExtended(rows: seq<Grant>, before: seq<Op>, op: Op, nonce: Value)
    requires HeldThroughout(rows, before, nonce) && Has(Run(rows, before + [op]), nonce)
    ensures HeldThroughout(rows, before + [op], nonce)
  {
    var ops := before + [op];
    forall k | 0 <= k <= |ops| ensures Has(Run(rows, ops[..k]), nonce) {
      if k <= |before| {
        assert ops[..k] == before[..k];
      } else {
        assert ops[..k] == ops;
      }
    }
  }

  /** The slot's uses are those of the grant itself during the first `k` operations, after which it is
      empty. */
  ghost predicate UsesUpTo(rows: seq<Grant>, ops: seq<Op>, g: Grant, k: nat) {
    && k <= |ops| && HeldThroughout(rows, ops[..k], g.nonce)
    && SlotUses(rows, ops, g) == Uses(rows, ops[..k], g.nonce)
    && (k == |ops| || SlotEmpty(Run(rows, ops), g))
  }

  /** One more operation while the grant is held: it still is, or the slot is empty. */
  lemma OneMoreWhileHeld(rows: seq<Grant>, before: seq<Op>, op: Op, g: Grant) returns (k: nat)
    requires Inv(rows) && Has(rows, g.nonce) && InSlotOf(RowOf(rows, g.nonce), g)
    requires UsesUpTo(rows, before, g, |before|)
    requires op.Record? && RecordAllowed(Run(rows, before), op) ==> !InSlotOf(GrantOf(op), g)
    ensures UsesUpTo(rows, before + [op], g, k)
  {
    var ops := before + [op];
    assert before[..|before|] == before;
    GrantAfterRun(rows, before, g.nonce);
    RunKeepsInv(rows, before);
    HeldOrEmptied(Run(rows, before), op, g);
    SlotUsesExtended(rows, before, op, g);
    if Has(Run(rows, ops), g.nonce) {
      HeldExtended(rows, before, op, g.nonce);
      RunExtended(rows, before, op, g.nonce);
      k := |ops|;
      assert ops[..k] == ops;
    } else {
      k := |before|;
      assert ops[..k] == before;
    }
  }

  lemma OneMoreWhileEmpty(rows: seq<Grant>, before: seq<Op>, op: Op, g: Grant, k: nat)
    requires UsesUpTo(rows, before, g, k) && k < |before|
    requires op.Record? && RecordAllowed(Run(rows, before), op) ==> !InSlotOf(GrantOf(op), g)
    ensures UsesUpTo(rows, before + [op], g, k)
  {
    assert (before + [op])[..k] == before[..k];
    EmptyStaysEmpty(Run(rows, before), op, g);
    SlotUsesExtended(rows, before, op, g);
  }

  lemma NoRecordBefore(rows: seq<Grant>, ops: seq<Op>, g: Grant)
    requires ops != [] && NoRecordInSlot(rows, ops, g)
    ensures NoRecordInSlot(rows, ops[..|ops| - 1], g)
    ensures var op := ops[|ops| - 1];
            op.Record? && RecordAllowed(Run(rows, ops[..|ops| - 1]), op) ==> !InSlotOf(GrantOf(op), g)
  {
    var init := ops[..|ops| - 1];
    forall k | 0 <= k < |init| && init[k].Record? && RecordAllowed(Run(rows, init[..k]), init[k])
      ensures !InSlotOf(GrantOf(init[k]), g)
    {
      assert init[..k] == ops[..k] && init[k] == ops[k];
    }
  }

  lemma OneMoreUse(rows: seq<Grant>, ops: seq<Op>, g: Grant, k: nat) returns (k': nat)
    requires Inv(rows) && Has(rows, g.nonce) && InSlotOf(RowOf(rows, g.nonce), g)
    requires ops != [] && NoRecordInSlot(rows, ops, g) && UsesUpTo(rows, ops[..|ops| - 1], g, k)
    ensures UsesUpTo(rows, ops, g, k')
  {
    var init, op := ops[..|ops| - 1], ops[|ops| - 1];
    NoRecordBefore(rows, ops, g);
    assert ops == init + [op];
    if k < |init| {
      OneMoreWhileEmpty(rows, init, op, g, k);
      k' := k;
    } else {
      k' := OneMoreWhileHeld(rows, init, op, g);
    }
  }

  lemma NothingUsedYet(rows: seq<Grant>, g: Grant)
    requires Has(rows, g.nonce)
    ensures UsesUpTo(rows, [], g, 0)
  {
  }

  /** As long as no grant is recorded in the slot, its uses are those of the grant it starts with, up to
      the moment that one is revoked. */
  lemma {:induction false} SlotUsesAreGrantUses(rows: seq<Grant>, ops: seq<Op>, g: Grant) returns (k: nat)
    requires Inv(rows) && g in rows && NoRecordInSlot(rows, ops, g)
    ensures UsesUpTo(rows, ops, g, k)
  {
    HasInSeq(rows, g);
    if ops == [] {
      NothingUsedYet(rows, g);
      k := 0;
    } else {
      NoRecordBefore(rows, ops, g);
      k := SlotUsesAreGrantUses(rows, ops[..|ops| - 1], g);
      k := OneMoreUse(rows, ops, g, k);
    }
  }

  /** The rate limit of a slot, between one accepted record in it and the next: whatever is revoked,
      recorded elsewhere or used in the meantime, the granted uses of the slot are as far apart as the
      grant it starts with demands. */
  lemma SlotLimit(rows: seq<Grant>, ops: seq<Op>, g: Grant, lost: int)
    requires Inv(rows) && g in rows && NoRecordInSlot(rows, ops, g) && SlotUses(rows, ops, g) != []
    requires ClockNeverGoesBack(SlotUses(rows, ops, g)) && AtMostLost(SlotUses(rows, ops, g), lost)
    ensures Wait(g).Some? && Limited(SlotUses(rows, ops, g), Anchor(g), Wait(g).value, lost)
  {
    var k := SlotUsesAreGrantUses(rows, ops, g);
    HasInSeq(rows, g);
    RateLimit(rows, ops[..k], g.nonce, lost);
  }

  /** A grant just recorded has never been used: its slot's first use comes a full wait after its issue. */
  lemma RecordedSlotLimit(rows: seq<Grant>, record: Op, ops: seq<Op>, lost: int)
    requires Inv(rows) && record.Record? && RecordAllowed(rows, record)
    requires NoRecordInSlot(Step(rows, record), ops, GrantOf(record))
    requires var uses := SlotUses(Step(rows, record), ops, GrantOf(record));
             uses != [] && ClockNeverGoesBack(uses) && AtMostLost(uses, lost)
    ensures var g := GrantOf(record);
            && Wait(g).Some?
            && Limited(SlotUses(Step(rows, record), ops, g), g.issuedAt, Wait(g).value, lost)
  {
    StepKeepsInv(rows, record);
    assert GrantOf(record) in Step(rows, record);
    SlotLimit(Step(rows, record), ops, GrantOf(record), lost);
  }
}
