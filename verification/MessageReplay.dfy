/** Replay of a signed message: the cache goes by the text of a signature (`envelope_replay_key`), the
    verification by the bytes that text decodes to. */
module MessageReplay {
  import opened Values
  import opened Envelopes
  import opened Signatures
  import opened EnvelopePolicy
  import Base64Url

  /** Which spellings of a signature are let through to verification at all. The code lets all. */
  type Guard = string -> bool

  ghost predicate Guarded(attempts: seq<Attempt>, guard: Guard) {
    forall i :: 0 <= i < |attempts| ==>
      attempts[i].envelope.sig.Some? ==> guard(attempts[i].envelope.sig.value)
  }

  ghost predicate MessageTwice(p: Policy, lag: nat, guard: Guard, seen: Seen, attempts: seq<Attempt>, i: nat, j: nat) {
    && i < j < |attempts| && Timed(attempts, lag) && Guarded(attempts, guard)
    && SameMessage(attempts[i].envelope, attempts[j].envelope)
    && Passes(After(seen, p, attempts[..i]), p, attempts[i])
    && Passes(After(seen, p, attempts[..j]), p, attempts[j])
  }

  /** No run accepts the same signed content under the same signature twice. */
  ghost predicate NeverTwicePerMessage(p: Policy, lag: nat, guard: Guard) {
    forall seen, attempts, i: nat, j: nat :: !MessageTwice(p, lag, guard, seen, attempts, i, j)
  }

  ghost predicate Admits(guard: Guard, text: string) {
    guard(text) && Spelled(text).Some?
  }

  /** Every signature has at most one spelling that is let through. */
  ghost predicate OneSpelling(guard: Guard) {
    forall s, t :: Admits(guard, s) && Admits(guard, t) && Spelled(s) == Spelled(t) ==> s == t
  }

  lemma SameKeySameText(iss: Address, s: string, t: string)
    requires iss + ":" + s == iss + ":" + t
    ensures s == t
  {
    assert s == (iss + ":" + s)[|iss| + 1..] && t == (iss + ":" + t)[|iss| + 1..];
  }

  /** Whatever a cache holds, it lets another spelling of a verified, fresh message pass exactly when it
      does not remember that very spelling. */
  lemma OtherSpellingPassesExactly(seen: Seen, p: Policy, a: Attempt, b: Attempt)
    requires ReachesCache(p, a) && SameMessage(a.envelope, b.envelope)
    requires b.key == a.key && b.checkedAt == a.checkedAt
    ensures b.envelope.sig.Some?
    ensures Passes(seen, p, b) <==> ReplayKey(b.envelope) !in Pruned(seen, p.ttl, b.storedAt)
  {
    SameMessageSameVerdict(a.envelope, b.envelope, a.key);
    assert Content(a.envelope).iat == Content(b.envelope).iat;
  }

  /** In particular the same message in two spellings, one right after the other, when the second is not
      remembered from before. */
  lemma OtherSpellingPasses(seen: Seen, p: Policy, a: Attempt, b: Attempt)
    requires SameMessage(a.envelope, b.envelope) && a.envelope.sig != b.envelope.sig
    requires Passes(seen, p, a) && b.key == a.key && b.checkedAt == a.checkedAt
    requires b.envelope.sig.Some? && ReplayKey(b.envelope) !in seen
    ensures Passes(AfterAttempt(seen, p, a), p, b)
  {
    OtherSpellingPassesExactly(AfterAttempt(seen, p, a), p, a, b);
    assert Content(a.envelope).iss == Content(b.envelope).iss;
    if ReplayKey(a.envelope) == ReplayKey(b.envelope) {
      SameKeySameText(a.envelope.iss, a.envelope.sig.value, b.envelope.sig.value);
    }
  }

  lemma {:induction false} LengthsAreBounded(keys: set<string>) returns (n: nat)
    ensures forall k <- keys :: |k| <= n
  {
    n := 0;
    if keys != {} {
      var k :| k in keys;
      n := LengthsAreBounded(keys - {k});
      assert forall x <- keys :: x == k || x in keys - {k};
      if n < |k| { n := |k|; }
    }
  }

  /** No cache contents and no ttl help: every verified, fresh message has a spelling that passes, with
      foreign characters in front of the signature, so many that no remembered key is as long. */
  lemma RespelledPasses(seen: Seen, p: Policy, a: Attempt) returns (junk: string)
    requires ReachesCache(p, a)
    ensures a.envelope.sig.Some? && SameMessage(a.envelope, Respelled(a.envelope, junk))
    ensures Passes(seen, p, a.(envelope := Respelled(a.envelope, junk)))
  {
    var n := LengthsAreBounded(seen.Keys);
    junk := seq(4 * (n + 1), _ => '!');
    var b := a.(envelope := Respelled(a.envelope, junk));
    RespelledIsSameMessage(a.envelope, junk);
    OtherSpellingPassesExactly(seen, p, a, b);
    assert |ReplayKey(b.envelope)| > n;
  }

  /** Attempts of one message at one instant, each in a spelling of its own. */
  ghost predicate AllPass(seen: Seen, p: Policy, a: Attempt, attempts: seq<Attempt>) {
    forall k :: 0 <= k < |attempts| ==>
      && SameMessage(a.envelope, attempts[k].envelope) && attempts[k].key == a.key
      && attempts[k].checkedAt == a.checkedAt && attempts[k].storedAt == a.storedAt
      && Passes(After(seen, p, attempts[..k]), p, attempts[k])
  }

  /** Nor does the number of earlier acceptances: one message can be accepted any number of times at the
      same instant. */
  lemma {:induction false} AnyNumberPass(seen: Seen, p: Policy, a: Attempt, n: nat) returns (attempts: seq<Attempt>)
    requires ReachesCache(p, a)
    ensures |attempts| == n && AllPass(seen, p, a, attempts)
  {
    attempts := [];
    if n > 0 {
      var before := AnyNumberPass(seen, p, a, n - 1);
      var junk := RespelledPasses(After(seen, p, before), p, a);
      attempts := before + [a.(envelope := Respelled(a.envelope, junk))];
      forall k | 0 <= k < n ensures attempts[..k] == before[..k] {
      }
      assert before[..n - 1] == before;
    }
  }

  /** Two spellings of one signature, on one envelope, at one instant. */
  function TwoSpellings(p: Policy, s: string, t: string): seq<Attempt> {
    var e := Envelope("", Null, "", Some(p.futureSkew * SECOND), Null, Some(s));
    var key := (_, _) => true;
    [Attempt(e, key, 0, 0), Attempt(e.(sig := Some(t)), key, 0, 0)]
  }

  lemma TwoSpellingsPass(p: Policy, lag: nat, guard: Guard, s: string, t: string)
    requires !NothingFresh(p) && Admits(guard, s) && Admits(guard, t) && Spelled(s) == Spelled(t) && s != t
    ensures MessageTwice(p, lag, guard, map[], TwoSpellings(p, s, t), 0, 1)
  {
    var r := TwoSpellings(p, s, t);
    assert r[..1] == [r[0]] && r[..1][..0] == [] && r[..0] == [];
    assert After(map[], p, r[..0]) == map[];
    assert Passes(map[], p, r[0]);
    OtherSpellingPasses(map[], p, r[0], r[1]);
    assert After(map[], p, r[..1]) == AfterAttempt(map[], p, r[0]);
  }

  lemma OneSpellingOneEnvelope(guard: Guard, e: Envelope, f: Envelope)
    requires OneSpelling(guard) && SameMessage(e, f) && guard(e.sig.value) && guard(f.sig.value)
    ensures e == f
  {
    assert Admits(guard, e.sig.value) && Admits(guard, f.sig.value);
    assert Content(e).(sig := e.sig) == e && Content(f).(sig := f.sig) == f;
  }

  lemma OncePerMessage(p: Policy, lag: nat, guard: Guard)
    requires OutlivesWindow(p, lag) && OneSpelling(guard)
    ensures NeverTwicePerMessage(p, lag, guard)
  {
    forall seen, attempts: seq<Attempt>, i: nat, j: nat ensures !MessageTwice(p, lag, guard, seen, attempts, i, j) {
      if MessageTwice(p, lag, guard, seen, attempts, i, j) {
        OneSpellingOneEnvelope(guard, attempts[i].envelope, attempts[j].envelope);
        AcceptedAtMostOnce(seen, p, lag, attempts, i, j);
      }
    }
  }

  lemma RedeliveredMessage(p: Policy, lag: nat, guard: Guard, text: string)
    requires !NothingFresh(p) && !OutlivesWindow(p, lag) && Admits(guard, text)
    ensures MessageTwice(p, lag, guard, map[], Redelivered(p, lag, text), 0, 1)
  {
    RedeliveredPassesTwice(p, lag, text);
  }

  /** At-most-once acceptance of signed messages holds exactly when the cache outlives the freshness
      window and only one spelling of each signature is let through (or nothing ever passes at all). */
  lemma OncePerMessageExactly(p: Policy, lag: nat, guard: Guard)
    ensures NeverTwicePerMessage(p, lag, guard)
       <==> || NothingFresh(p) || (forall text :: !Admits(guard, text))
            || (OutlivesWindow(p, lag) && OneSpelling(guard))
  {
    if NothingFresh(p) || (forall text :: !Admits(guard, text)) {
      forall seen, attempts: seq<Attempt>, i: nat, j: nat ensures !MessageTwice(p, lag, guard, seen, attempts, i, j) {
        if MessageTwice(p, lag, guard, seen, attempts, i, j) {
          assert Admits(guard, attempts[i].envelope.sig.value);
        }
      }
    } else if !OneSpelling(guard) {
      var s, t :| Admits(guard, s) && Admits(guard, t) && Spelled(s) == Spelled(t) && s != t;
      TwoSpellingsPass(p, lag, guard, s, t);
    } else if !OutlivesWindow(p, lag) {
      var text :| Admits(guard, text);
      RedeliveredMessage(p, lag, guard, text);
    } else {
      OncePerMessage(p, lag, guard);
    }
  }

  /** So no ttl helps as long as every spelling is let through, ... */
  lemma AnySpellingPassesTwice(p: Policy, lag: nat)
    requires !NothingFresh(p)
    ensures !NeverTwicePerMessage(p, lag, _ => true)
  {
    var e := Envelope("", Null, "", None, Null, Some(SampleText()));
    RespelledIsSameMessage(e, "!!!!");
    var text := Respelled(e, "!!!!").sig.value;
    assert |text| != |SampleText()|;
    TwoSpellingsPass(p, lag, _ => true, SampleText(), text);
  }

  /** ... while for canonical spellings the ttl bound for envelopes is the bound for messages. */
  lemma CanonicalOncePerMessageExactly(p: Policy, lag: nat)
    ensures NeverTwicePerMessage(p, lag, s => Base64Url.Canonical(s)) <==> NothingFresh(p) || OutlivesWindow(p, lag)
  {
    var guard: Guard := s => Base64Url.Canonical(s);
    forall s, t | Admits(guard, s) && Admits(guard, t) && Spelled(s) == Spelled(t) ensures s == t {
      Base64Url.CanonicalTextIsUnique(s, t);
    }
    assert Admits(guard, SampleText());
    OncePerMessageExactly(p, lag, guard);
  }
}
