/** Freshness, signature and replay policy for envelopes (`aap/envelope_policy.py`). */
module EnvelopePolicy {
  import opened Values
  import opened Envelopes
  import opened Signatures

  const DEFAULT_MAX_AGE := 30 * 24 * 60 * 60
  const DEFAULT_FUTURE_SKEW := 5 * 60

  /** Limits in seconds; without a maximum age, old envelopes stay fresh for ever. */
  datatype Policy = Policy(maxAge: Option<int>, futureSkew: int, ttl: int)

  const DEFAULT_POLICY := Policy(Some(DEFAULT_MAX_AGE), DEFAULT_FUTURE_SKEW, DEFAULT_MAX_AGE)

  predicate IsFresh(iat: Option<int>, p: Policy, now: int) {
    && iat.Some?
    && iat.value <= now + p.futureSkew * SECOND
    && (p.maxAge.Some? ==> iat.value >= now - p.maxAge.value * SECOND)
  }

  function ReplayKey(e: Envelope): string
    requires e.sig.Some?
  {
    e.iss + ":" + e.sig.value
  }

  /** Replay key to the time it was stored, cut down to the second. */
  type Seen = map<string, int>

  function Pruned(seen: Seen, ttl: int, now: int): Seen {
    map k | k in seen && seen[k] > now - ttl * SECOND :: seen[k]
  }

  /** One call of `verify_envelope` with a cache. Freshness and the cache each go by a clock reading of
      their own, unless the caller passes one time for both. */
  datatype Attempt = Attempt(envelope: Envelope, key: Key, checkedAt: int, storedAt: int)

  /** Everything before the cache: an envelope that fails here leaves the cache alone. */
  predicate ReachesCache(p: Policy, a: Attempt) {
    Verifies(a.envelope, a.key) && IsFresh(a.envelope.iat, p, a.checkedAt)
  }

  predicate Passes(seen: Seen, p: Policy, a: Attempt) {
    ReachesCache(p, a) && ReplayKey(a.envelope) !in Pruned(seen, p.ttl, a.storedAt)
  }

  function AfterAttempt(seen: Seen, p: Policy, a: Attempt): Seen {
    if !ReachesCache(p, a) then seen
    else
      var kept := Pruned(seen, p.ttl, a.storedAt);
      var key := ReplayKey(a.envelope);
      if key in kept then kept else kept[key := TruncateToSecond(a.storedAt)]
  }

  function After(seen: Seen, p: Policy, attempts: seq<Attempt>): Seen {
    if attempts == [] then seen
    else AfterAttempt(After(seen, p, attempts[..|attempts| - 1]), p, attempts[|attempts| - 1])
  }

  // ---- the cache object ----

  class EnvelopeReplayCache {
    const ttl: int
    var seen: Seen

    constructor (ttl: int)
      ensures this.ttl == ttl && seen == map[]
    {
      this.ttl, seen := ttl, map[];
    }

    method Prune(now: int)
      modifies this
      ensures seen == Pruned(old(seen), ttl, now)
    {
      seen := map k | k in seen && seen[k] > now - ttl * SECOND :: seen[k];
    }

    method CheckAndStore(key: string, now: int) returns (unseen: bool)
      modifies this
      ensures unseen <==> key !in Pruned(old(seen), ttl, now)
      ensures seen == var kept := Pruned(old(seen), ttl, now);
                      if unseen then kept[key := TruncateToSecond(now)] else kept
    {
      Prune(now);
      if key in seen { return false; }
      seen := seen[key := TruncateToSecond(now)];
      return true;
    }
  }

  /** `now or datetime.now(timezone.utc)`. */
  function ReadClock(now: Option<int>, reading: int): int {
    if now.Some? then now.value else reading
  }

  function AttemptAt(e: Envelope, key: Key, now: Option<int>, first: int, second: int): Attempt {
    Attempt(e, key, ReadClock(now, first), ReadClock(now, second))
  }

  /** `verify_envelope`. Without a cache there is no replay check. What the clock shows when freshness
      is checked and when the cache is consulted are inputs; a given `now` replaces both. A verified
      envelope is signed, so its replay key exists. */
  method VerifyEnvelope(e: Envelope, key: Key, now: Option<int>, first: int, second: int,
                        maxAge: Option<int>, futureSkew: int, cache: EnvelopeReplayCache?)
    returns (ok: bool)
    modifies cache
    ensures cache == null ==>
      (ok <==> ReachesCache(Policy(maxAge, futureSkew, 0), AttemptAt(e, key, now, first, second)))
    ensures cache != null ==>
      var p, a := Policy(maxAge, futureSkew, cache.ttl), AttemptAt(e, key, now, first, second);
      && (ok <==> Passes(old(cache.seen), p, a))
      && cache.seen == AfterAttempt(old(cache.seen), p, a)
  {
    if !Verifies(e, key) { return false; }
    if e.iat.None? { return false; }
    var checkedAt := ReadClock(now, first);
    if e.iat.value > checkedAt + futureSkew * SECOND { return false; }
    if maxAge.Some? && e.iat.value < checkedAt - maxAge.value * SECOND { return false; }
    if cache == null { return true; }
    ok := cache.CheckAndStore(ReplayKey(e), ReadClock(now, second));
  }

  // ---- runs of the cache ----

  /** The cache's reading comes at most `lag` after the freshness reading, and calls follow one another.
      Without lag the caller passes one time for both. */
  ghost predicate Timed(attempts: seq<Attempt>, lag: nat) {
    && (forall i :: 0 <= i < |attempts| ==>
          attempts[i].checkedAt <= attempts[i].storedAt <= attempts[i].checkedAt + lag)
    && (forall i, j :: 0 <= i < j < |attempts| ==> attempts[i].storedAt <= attempts[j].checkedAt)
  }

  /** The same replay key and issue time; the same envelope in particular. */
  ghost predicate Alike(a: Attempt, b: Attempt) {
    && a.envelope.sig.Some? && b.envelope.sig.Some?
    && ReplayKey(a.envelope) == ReplayKey(b.envelope) && a.envelope.iat == b.envelope.iat
  }

  /** An entry survives, unchanged, until the clock has moved `ttl` past the second it was stored in. */
  lemma {:induction false} EntryRetained(seen: Seen, p: Policy, lag: nat, attempts: seq<Attempt>, i: nat, k: nat)
    requires i < k <= |attempts| && Timed(attempts, lag)
    requires Passes(After(seen, p, attempts[..i]), p, attempts[i])
    requires attempts[k - 1].storedAt < TruncateToSecond(attempts[i].storedAt) + p.ttl * SECOND
    ensures var key := ReplayKey(attempts[i].envelope);
            var later := After(seen, p, attempts[..k]);
            key in later && later[key] == TruncateToSecond(attempts[i].storedAt)
  {
    assert attempts[..k][..k - 1] == attempts[..k - 1];
    if k > i + 1 {
      assert attempts[k - 2].storedAt <= attempts[k - 1].checkedAt;
      EntryRetained(seen, p, lag, attempts, i, k - 1);
    }
  }

  /** An accepted envelope is not accepted again when the cache is last asked about it, at most `lag`
      after its last fresh moment, before its entry runs out. */
  lemma NotAcceptedAgain(seen: Seen, p: Policy, lag: nat, attempts: seq<Attempt>, i: nat, j: nat)
    requires i < j < |attempts| && Timed(attempts, lag) && Alike(attempts[i], attempts[j])
    requires Passes(After(seen, p, attempts[..i]), p, attempts[i])
    requires p.maxAge.Some?
    requires attempts[i].envelope.iat.value + p.maxAge.value * SECOND + lag
           < TruncateToSecond(attempts[i].storedAt) + p.ttl * SECOND
    ensures !Passes(After(seen, p, attempts[..j]), p, attempts[j])
  {
    if Passes(After(seen, p, attempts[..j]), p, attempts[j]) {
      assert attempts[j - 1].storedAt <= attempts[j].storedAt;
      EntryRetained(seen, p, lag, attempts, i, j);
      assert false;
    }
  }

  /** Whether an accepted attempt can be followed by another one of the same envelope that is accepted
      too: for ever if envelopes do not age, and otherwise when the cache can be asked, after a check
      while the envelope is still fresh, with its entry run out. */
  predicate CanPassAgain(p: Policy, lag: nat, a: Attempt)
    requires a.envelope.iat.Some?
  {
    p.maxAge.Some? ==>
      var last := a.envelope.iat.value + p.maxAge.value * SECOND;
      a.storedAt <= last && TruncateToSecond(a.storedAt) + p.ttl * SECOND <= last + lag
  }

  ghost predicate PassesAgain(seen: Seen, p: Policy, lag: nat, a: Attempt, b: Attempt)
  {
    b.envelope == a.envelope && Timed([a, b], lag) && Passes(AfterAttempt(seen, p, a), p, b)
  }

  lemma PassesAgainExactly(seen: Seen, p: Policy, lag: nat, a: Attempt)
    requires Passes(seen, p, a) && Timed([a], lag)
    ensures (exists b :: PassesAgain(seen, p, lag, a, b)) <==> CanPassAgain(p, lag, a)
  {
    var iat, stored := a.envelope.iat.value, TruncateToSecond(a.storedAt);
    if CanPassAgain(p, lag, a) {
      var b := match p.maxAge
               case Some(age) => Attempt(a.envelope, a.key, iat + age * SECOND, iat + age * SECOND + lag)
               case None =>
                 var late := if a.storedAt < stored + p.ttl * SECOND then stored + p.ttl * SECOND else a.storedAt;
                 Attempt(a.envelope, a.key, late, late);
      assert [a][0] == a;
      assert PassesAgain(seen, p, lag, a, b);
    }
    if b :| PassesAgain(seen, p, lag, a, b) {
      assert [a, b][0] == a && [a, b][1] == b;
      assert a.storedAt <= b.checkedAt <= b.storedAt <= b.checkedAt + lag;
      var kept := AfterAttempt(seen, p, a);
      assert kept[ReplayKey(a.envelope)] == stored;
    }
  }

  /** Either nothing can ever be fresh, or entries outlive the whole freshness window, the fraction of a
      second that a stored time loses, and the lag. */
  predicate NothingFresh(p: Policy) {
    p.maxAge.Some? && p.maxAge.value + p.futureSkew < 0
  }

  predicate OutlivesWindow(p: Policy, lag: nat) {
    && p.maxAge.Some?
    && p.ttl * SECOND > (p.maxAge.value + p.futureSkew) * SECOND + SECOND - 1 + lag
  }

  /** A cache that outlives the window accepts every envelope at most once, whatever it already holds. */
  lemma AcceptedAtMostOnce(seen: Seen, p: Policy, lag: nat, attempts: seq<Attempt>, i: nat, j: nat)
    requires i < j < |attempts| && Timed(attempts, lag) && Alike(attempts[i], attempts[j])
    requires NothingFresh(p) || OutlivesWindow(p, lag)
    ensures !(Passes(After(seen, p, attempts[..i]), p, attempts[i]) &&
              Passes(After(seen, p, attempts[..j]), p, attempts[j]))
  {
    if Passes(After(seen, p, attempts[..i]), p, attempts[i]) && !NothingFresh(p) {
      NotAcceptedAgain(seen, p, lag, attempts, i, j);
    }
  }

  /** A cache that lives only as long as the maximum age, the default, still does so for every
      envelope issued more than the lag before the second in which it is first accepted. */
  lemma PastIssueAcceptedAtMostOnce(seen: Seen, p: Policy, lag: nat, attempts: seq<Attempt>, i: nat, j: nat)
    requires i < j < |attempts| && Timed(attempts, lag) && Alike(attempts[i], attempts[j])
    requires p.maxAge.Some? && p.ttl >= p.maxAge.value
    requires attempts[i].envelope.iat.Some?
          && attempts[i].envelope.iat.value + lag < TruncateToSecond(attempts[i].storedAt)
    ensures !(Passes(After(seen, p, attempts[..i]), p, attempts[i]) &&
              Passes(After(seen, p, attempts[..j]), p, attempts[j]))
  {
    if Passes(After(seen, p, attempts[..i]), p, attempts[i]) {
      NotAcceptedAgain(seen, p, lag, attempts, i, j);
    }
  }

  // ---- the bound is exact ----

  ghost predicate AcceptedTwice(p: Policy, lag: nat, seen: Seen, attempts: seq<Attempt>, i: nat, j: nat) {
    && i < j < |attempts| && Timed(attempts, lag)
    && attempts[i].envelope == attempts[j].envelope
    && Passes(After(seen, p, attempts[..i]), p, attempts[i])
    && Passes(After(seen, p, attempts[..j]), p, attempts[j])
  }

  /** No run of a cache with this policy, from any contents, accepts an envelope twice. */
  ghost predicate NeverTwice(p: Policy, lag: nat) {
    forall seen, attempts, i: nat, j: nat :: !AcceptedTwice(p, lag, seen, attempts, i, j)
  }

  /** Two deliveries of one envelope: at the end of a second, as far in the future as allowed, and at
      the last moment it is fresh, with all the lag there may be (or once the entry has run out, if it
      is fresh for ever). */
  function Redelivered(p: Policy, lag: nat, text: string): seq<Attempt> {
    var first := SECOND - 1;
    var iat := first + p.futureSkew * SECOND;
    var e := Envelope("", Null, "", Some(iat), Null, Some(text));
    var key := (_, _) => true;
    match p.maxAge
    case Some(age) =>
      [Attempt(e, key, first, first), Attempt(e, key, iat + age * SECOND, iat + age * SECOND + lag)]
    case None =>
      var late := if p.ttl < 0 then first else first + p.ttl * SECOND;
      [Attempt(e, key, first, first), Attempt(e, key, late, late)]
  }

  lemma RedeliveredPassesTwice(p: Policy, lag: nat, text: string)
    requires !NothingFresh(p) && !OutlivesWindow(p, lag) && Spelled(text).Some?
    ensures AcceptedTwice(p, lag, map[], Redelivered(p, lag, text), 0, 1)
  {
    var r := Redelivered(p, lag, text);
    var a, b := r[0], r[1];
    assert r[..1][..0] == [] && r[..1] == [a];
    assert TruncateToSecond(a.storedAt) == 0;
    assert After(map[], p, r[..0]) == map[];
    var seen := After(map[], p, r[..1]);
    assert seen == AfterAttempt(map[], p, a);
    assert seen[ReplayKey(a.envelope)] == 0;
    assert ReplayKey(a.envelope) !in Pruned(seen, p.ttl, b.storedAt);
  }

  /** At-most-once acceptance holds for a policy and a lag exactly when entries outlive the freshness
      window and the lag (or no envelope is ever fresh at all). */
  lemma AtMostOnceExactly(p: Policy, lag: nat)
    ensures NeverTwice(p, lag) <==> NothingFresh(p) || OutlivesWindow(p, lag)
  {
    if NothingFresh(p) || OutlivesWindow(p, lag) {
      forall seen, attempts, i: nat, j: nat ensures !AcceptedTwice(p, lag, seen, attempts, i, j) {
        if AcceptedTwice(p, lag, seen, attempts, i, j) {
          AcceptedAtMostOnce(seen, p, lag, attempts, i, j);
        }
      }
    } else {
      RedeliveredPassesTwice(p, lag, SampleText());
    }
  }

  /** Where the caller passes the time, a second more than maximum age plus skew is just enough; where
      the code reads the clock, each microsecond between its two readings counts, and no ttl makes up
      for a delay of any length. */
  lemma LagCounts(age: int, skew: int, ttl: int)
    requires age + skew >= 0
    ensures NeverTwice(Policy(Some(age), skew, ttl), 0) <==> ttl >= age + skew + 1
    ensures !NeverTwice(Policy(Some(age), skew, age + skew + 1), 1)
    ensures exists lag: nat :: !NeverTwice(Policy(Some(age), skew, ttl), lag)
  {
    var p := Policy(Some(age), skew, ttl);
    AtMostOnceExactly(p, 0);
    AtMostOnceExactly(Policy(Some(age), skew, age + skew + 1), 1);
    var lag: nat := if ttl < 0 then 0 else ttl * SECOND;
    AtMostOnceExactly(p, lag);
    assert !NeverTwice(p, lag);
  }

  /** The default cache and the default freshness window do not meet the bound, lag or no lag. */
  lemma DefaultsCanAcceptTwice(lag: nat)
    ensures !NeverTwice(DEFAULT_POLICY, lag)
  {
    AtMostOnceExactly(DEFAULT_POLICY, lag);
  }
}
