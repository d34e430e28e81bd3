/** The envelope policy in plain numbers, and the replay cache in terms of the attempts before: no
    statement here mentions what the cache holds. Times are in microseconds. */
module EnvelopeHistory {
  import opened Values
  import opened Envelopes
  import opened EnvelopePolicy
  import Base64Url

  // ---- before the cache ----

  /** The signature text decodes to 64 bytes that the key accepts for everything else in the envelope, and
      the issue time is neither too far ahead of the clock nor too far behind. */
  lemma ReachesCacheExactly(p: Policy, a: Attempt)
    ensures ReachesCache(p, a)
       <==> && a.envelope.sig.Some?
            && Base64Url.DecodeB64Url(a.envelope.sig.value).Success?
            && var signature := Base64Url.DecodeB64Url(a.envelope.sig.value).value;
            && |signature| == 64 && a.key(a.envelope.(sig := None), signature)
            && a.envelope.iat.Some?
            && var iat := a.envelope.iat.value;
            && iat - a.checkedAt <= p.futureSkew * 1_000_000
            && (p.maxAge.Some? ==> a.checkedAt - iat <= p.maxAge.value * 1_000_000)
  {
  }

  // ---- what is remembered of an envelope ----

  lemma LastColon(iss: string, sig: string, iss': string, sig': string)
    requires ':' !in sig && ':' !in sig'
    requires iss + ":" + sig == iss' + ":" + sig'
    ensures iss == iss' && sig == sig'
  {
    var s := iss + ":" + sig;
    assert s[|iss|] == ':' && s[|iss'|] == ':';
    assert s[..|iss|] == iss && s[..|iss'|] == iss' && s[|iss| + 1..] == sig && s[|iss'| + 1..] == sig';
  }

  /** An envelope is remembered by its issuer and the text of its signature, as long as that has no colon;
      canonical text has none. */
  lemma ReplayKeyExactly(e: Envelope, f: Envelope)
    requires e.sig.Some? && f.sig.Some? && ':' !in e.sig.value && ':' !in f.sig.value
    ensures ReplayKey(e) == ReplayKey(f) <==> e.iss == f.iss && e.sig == f.sig
  {
    if ReplayKey(e) == ReplayKey(f) {
      LastColon(e.iss, e.sig.value, f.iss, f.sig.value);
    }
  }

  lemma CanonicalHasNoColon(text: string)
    requires Base64Url.Canonical(text)
    ensures ':' !in text
  {
    Base64Url.CanonicalExactly(text);
  }

  // ---- the cache by its history ----

  /** The `k`-th attempt of a run that starts with an empty cache is let through. */
  ghost predicate PassesAt(p: Policy, attempts: seq<Attempt>, k: nat)
    requires k < |attempts|
  {
    Passes(After(map[], p, attempts[..k]), p, attempts[k])
  }

  lemma PrefixOfPrefix(p: Policy, attempts: seq<Attempt>, i: nat, n: nat)
    requires i < n <= |attempts|
    ensures PassesAt(p, attempts[..n], i) <==> PassesAt(p, attempts, i)
  {
    assert attempts[..n][..i] == attempts[..i];
  }

  /** Everything remembered was put there by an attempt that was let through. */
  lemma {:induction false} EntryStems(p: Policy, attempts: seq<Attempt>, key: string) returns (i: nat)
    requires key in After(map[], p, attempts)
    ensures i < |attempts| && PassesAt(p, attempts, i) && ReplayKey(attempts[i].envelope) == key
    ensures After(map[], p, attempts)[key] == TruncateToSecond(attempts[i].storedAt)
  {
    var n := |attempts| - 1;
    var before := After(map[], p, attempts[..n]);
    var last := attempts[n];
    if PassesAt(p, attempts, n) && ReplayKey(last.envelope) == key {
      i := n;
    } else {
      assert key in before && After(map[], p, attempts)[key] == before[key];
      i := EntryStems(p, attempts[..n], key);
      PrefixOfPrefix(p, attempts, i, n);
    }
  }

  /** The attempt `i` was let through, and its entry, dated to the second, still counts at time `t`. */
  ghost predicate StillRemembered(p: Policy, attempts: seq<Attempt>, i: nat, t: int)
    requires i < |attempts|
  {
    && PassesAt(p, attempts, i)
    && attempts[i].storedAt - attempts[i].storedAt % 1_000_000 + p.ttl * 1_000_000 > t
  }

  /** No attempt before the `k`-th that was let through under its replay key is still remembered by then. */
  ghost predicate Forgotten(p: Policy, attempts: seq<Attempt>, k: nat)
    requires k < |attempts| && attempts[k].envelope.sig.Some?
  {
    forall i :: 0 <= i < k && StillRemembered(p, attempts, i, attempts[k].storedAt) ==>
      ReplayKey(attempts[i].envelope) != ReplayKey(attempts[k].envelope)
  }

  /** An attempt is let through exactly when it gets past signature and freshness and nothing that is still
      remembered has its replay key. */
  lemma PassesExactly(p: Policy, lag: nat, attempts: seq<Attempt>, k: nat)
    requires k < |attempts| && Timed(attempts, lag)
    ensures PassesAt(p, attempts, k) <==> ReachesCache(p, attempts[k]) && Forgotten(p, attempts, k)
  {
    var a := attempts[k];
    forall i | 0 <= i < k && PassesAt(p, attempts, k) && StillRemembered(p, attempts, i, a.storedAt)
      ensures ReplayKey(attempts[i].envelope) != ReplayKey(a.envelope)
    {
      FractionIsDropped(attempts[i].storedAt);
      assert attempts[k - 1].storedAt <= a.checkedAt;
      EntryRetained(map[], p, lag, attempts, i, k);
    }
    if ReachesCache(p, a) && !PassesAt(p, attempts, k) {
      var i := EntryStems(p, attempts[..k], ReplayKey(a.envelope));
      PrefixOfPrefix(p, attempts, i, k);
      FractionIsDropped(attempts[i].storedAt);
      assert StillRemembered(p, attempts, i, a.storedAt);
    }
  }

  /** The defaults are 30 days of age and of memory and five minutes of skew, which is not enough. */
  lemma DefaultsInSeconds(lag: nat)
    ensures DEFAULT_POLICY == Policy(Some(2_592_000), 300, 2_592_000)
    ensures !NeverTwice(Policy(Some(2_592_000), 300, 2_592_000), lag)
  {
    DefaultsCanAcceptTwice(lag);
  }
}
