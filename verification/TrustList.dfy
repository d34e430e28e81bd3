/** The trusted-verifier list of `aap/verifiers.py`: its cache over time, and the merge with local
    overrides. */
module TrustList {
  import opened Values
  import opened Envelopes

  const PAYLOAD_TYPE := "aap.trusted-verifiers/v1"
  const TRUST_ROOT := "aap-trust-root^agentaddress.org"

  // ---- verified bodies ----

  /** Text read from disk or network, with what signature, freshness and the list parser said of it. */
  datatype Reading = Reading(wire: Wire, verified: bool, wellFormed: bool)

  datatype Body = Body(payload: Value, envelope: Envelope)

  /** `_verified_body_from_envelope`. */
  function VerifiedBody(r: Reading): Option<Body> {
    if r.wire.Parsed? && r.wire.envelope.payloadType == PAYLOAD_TYPE && r.wire.envelope.iss == TRUST_ROOT
       && r.verified && r.wire.envelope.payload.Dict? && r.wellFormed
    then Some(Body(r.wire.envelope.payload, r.wire.envelope))
    else None
  }

  /** The body of a trusted list: text that verified, is a well-formed list, and is signed by the trust root. */
  ghost predicate IsTrusted(r: Reading, b: Body) {
    && r.verified && r.wellFormed && r.wire.Parsed?
    && r.wire.envelope.payloadType == "aap.trusted-verifiers/v1"
    && r.wire.envelope.iss == "aap-trust-root^agentaddress.org"
    && r.wire.envelope.payload.Dict?
    && b.payload == r.wire.envelope.payload && b.envelope == r.wire.envelope
  }

  lemma TrustedExactly(r: Reading, b: Body)
    ensures VerifiedBody(r) == Some(b) <==> IsTrusted(r, b)
  {
  }

  datatype DiskFile = DiskFile(fetchedAt: int, reading: Reading)

  /** One call: the time it started, the disk file if it could be read, and what a fetch would bring. */
  datatype Call = Call(now: int, disk: Option<DiskFile>, remote: Option<Reading>)

  datatype Stamped = Stamped(body: Body, at: int)

  function FromDisk(c: Call): Option<Stamped> {
    if c.disk.None? then None
    else match VerifiedBody(c.disk.value.reading)
      case Some(b) => Some(Stamped(b, c.disk.value.fetchedAt))
      case None => None
  }

  function FromRemote(c: Call): Option<Stamped> {
    if c.remote.None? then None
    else match VerifiedBody(c.remote.value)
      case Some(b) => Some(Stamped(b, c.now))
      case None => None
  }

  predicate Young(s: Option<Stamped>, ttl: int, now: int) {
    s.Some? && now - s.value.at < ttl
  }

  /** A fetch is tried only when neither memory nor disk is young enough. */
  predicate Fetches(memory: Option<Stamped>, ttl: int, c: Call) {
    !Young(memory, ttl, c.now) && !Young(FromDisk(c), ttl, c.now)
  }

  /** `_get_published_body`: what is answered. */
  function Answer(memory: Option<Stamped>, ttl: int, c: Call): Option<Stamped> {
    if Young(memory, ttl, c.now) then memory
    else if Young(FromDisk(c), ttl, c.now) then FromDisk(c)
    else if FromRemote(c).Some? then FromRemote(c)
    else FromDisk(c)
  }

  /** What is remembered afterwards: the answer, or the old contents when there was none. */
  function Remembered(memory: Option<Stamped>, ttl: int, c: Call): Option<Stamped> {
    if Answer(memory, ttl, c).Some? then Answer(memory, ttl, c) else memory
  }

  function Memory(ttl: int, calls: seq<Call>): Option<Stamped> {
    if calls == [] then None
    else Remembered(Memory(ttl, calls[..|calls| - 1]), ttl, calls[|calls| - 1])
  }

  class TrustListCache {
    const ttl: int
    var body: Option<Body>
    var at: int

    ghost function Contents(): Option<Stamped>
      reads this
    {
      if body.Some? then Some(Stamped(body.value, at)) else None
    }

    constructor (ttl: int)
      ensures this.ttl == ttl && Contents() == None
    {
      this.ttl, body, at := ttl, None, 0;
    }

    method GetPublishedBody(c: Call) returns (r: Option<Body>)
      modifies this
      ensures Contents() == Remembered(old(Contents()), ttl, c)
      ensures r == match Answer(old(Contents()), ttl, c) case Some(s) => Some(s.body) case None => None
    {
      if body.Some? && c.now - at < ttl { return body; }
      var disk := FromDisk(c);
      if disk.Some? && c.now - disk.value.at < ttl {
        body, at := Some(disk.value.body), disk.value.at;
        return body;
      }
      var fetched := FromRemote(c);
      if fetched.Some? {
        body, at := Some(fetched.value.body), c.now;
        return body;
      }
      if disk.Some? {
        body, at := Some(disk.value.body), disk.value.at;
        return body;
      }
      return None;
    }
  }

  // ---- runs of the cache ----

  ghost predicate ClockNeverGoesBack(calls: seq<Call>) {
    forall i, j :: 0 <= i <= j < |calls| ==> calls[i].now <= calls[j].now
  }

  /** A trusted list read in this call: from the disk file, with the time it notes, or fetched, with the
      time of the call. */
  ghost predicate ReadIn(c: Call, s: Stamped) {
    || (c.disk.Some? && IsTrusted(c.disk.value.reading, s.body) && s.at == c.disk.value.fetchedAt)
    || (c.remote.Some? && IsTrusted(c.remote.value, s.body) && s.at == c.now)
  }

  lemma ReadInExactly(c: Call, s: Stamped)
    ensures ReadIn(c, s) <==> FromDisk(c) == Some(s) || FromRemote(c) == Some(s)
  {
    if c.disk.Some? { TrustedExactly(c.disk.value.reading, s.body); }
    if c.remote.Some? { TrustedExactly(c.remote.value, s.body); }
  }

  ghost predicate CameFrom(calls: seq<Call>, s: Stamped) {
    exists c <- calls :: ReadIn(c, s)
  }

  /** Whatever is remembered was read, with its time, as a trusted list in some call. */
  lemma {:induction false} MemoryIsVerified(ttl: int, calls: seq<Call>)
    ensures Memory(ttl, calls).Some? ==> CameFrom(calls, Memory(ttl, calls).value)
  {
    if calls != [] {
      var init, c := calls[..|calls| - 1], calls[|calls| - 1];
      MemoryIsVerified(ttl, init);
      assert c in calls && forall x <- init :: x in calls;
      if Memory(ttl, calls).Some? { ReadInExactly(c, Memory(ttl, calls).value); }
    }
  }

  /** Whatever is answered was read, with its time, as a trusted list in this call or an earlier one; and it
      is younger than the ttl unless this very call tried a fetch that failed (or the ttl is not positive,
      so that nothing is young). */
  lemma AnswerIsVerifiedAndYoung(ttl: int, calls: seq<Call>, k: nat)
    requires k < |calls|
    ensures var memory := Memory(ttl, calls[..k]);
            var answer := Answer(memory, ttl, calls[k]);
            answer.Some? ==>
              && CameFrom(calls[..k + 1], answer.value)
              && (!Young(answer, ttl, calls[k].now) ==>
                    Fetches(memory, ttl, calls[k]) && (FromRemote(calls[k]).None? || ttl <= 0))
  {
    MemoryIsVerified(ttl, calls[..k]);
    if Answer(Memory(ttl, calls[..k]), ttl, calls[k]).Some? {
      ReadInExactly(calls[k], Answer(Memory(ttl, calls[..k]), ttl, calls[k]).value);
    }
    assert calls[k] in calls[..k + 1] && forall x <- calls[..k] :: x in calls[..k + 1];
  }

  /** Which list is answered, in order of preference: a young one from memory, a young one from disk, one
      fetched now, one from disk however old. */
  lemma AnswerExactly(memory: Option<Stamped>, ttl: int, c: Call, s: Stamped)
    ensures var young := memory.Some? && c.now - memory.value.at < ttl;
            var onDisk := c.disk.Some? && exists b :: IsTrusted(c.disk.value.reading, b);
            var youngOnDisk := onDisk && c.now - c.disk.value.fetchedAt < ttl;
            var fetched := c.remote.Some? && exists b :: IsTrusted(c.remote.value, b);
            Answer(memory, ttl, c) == Some(s)
            <==>
            if young then s == memory.value
            else if youngOnDisk || (onDisk && !fetched) then
              IsTrusted(c.disk.value.reading, s.body) && s.at == c.disk.value.fetchedAt
            else fetched && IsTrusted(c.remote.value, s.body) && s.at == c.now
  {
    if c.disk.Some? {
      forall b ensures VerifiedBody(c.disk.value.reading) == Some(b) <==> IsTrusted(c.disk.value.reading, b) {
        TrustedExactly(c.disk.value.reading, b);
      }
    }
    if c.remote.Some? {
      forall b ensures VerifiedBody(c.remote.value) == Some(b) <==> IsTrusted(c.remote.value, b) {
        TrustedExactly(c.remote.value, b);
      }
    }
  }

  ghost predicate FetchSucceeds(ttl: int, calls: seq<Call>, k: nat)
    requires k < |calls|
  {
    Fetches(Memory(ttl, calls[..k]), ttl, calls[k]) && FromRemote(calls[k]).Some?
  }

  lemma {:induction false} MemoryAfterFetch(ttl: int, calls: seq<Call>, i: nat, k: nat)
    requires i < k <= |calls| && ClockNeverGoesBack(calls) && FetchSucceeds(ttl, calls, i)
    ensures Memory(ttl, calls[..k]).Some?
    ensures Memory(ttl, calls[..k]).value.at == calls[i].now || calls[k - 1].now - calls[i].now >= ttl
  {
    assert calls[..k][..k - 1] == calls[..k - 1];
    if k > i + 1 {
      MemoryAfterFetch(ttl, calls, i, k - 1);
    }
  }

  /** Two successful fetches by one cache are at least the ttl apart. */
  lemma FetchesAreSpaced(ttl: int, calls: seq<Call>, i: nat, j: nat)
    requires i < j < |calls| && ClockNeverGoesBack(calls)
    requires FetchSucceeds(ttl, calls, i) && FetchSucceeds(ttl, calls, j)
    ensures calls[j].now - calls[i].now >= ttl
  {
    MemoryAfterFetch(ttl, calls, i, j);
  }

  // ---- local overrides ----

  datatype Entry = Entry(domain: string, details: Value)

  function Domains(es: seq<Entry>): (r: seq<string>)
    ensures |r| == |es| && forall i :: 0 <= i < |es| ==> r[i] == es[i].domain
  {
    seq(|es|, i requires 0 <= i < |es| => es[i].domain)
  }

  /** The last entry for a domain. */
  function LastFor(es: seq<Entry>, d: string): (r: Option<Entry>)
    ensures r.Some? <==> exists e <- es :: e.domain == d
    ensures r.Some? ==> r.value in es && r.value.domain == d
  {
    if es == [] then None
    else if es[|es| - 1].domain == d then Some(es[|es| - 1])
    else LastFor(es[..|es| - 1], d)
  }

  lemma {:induction false} LastForExactly(es: seq<Entry>, i: nat)
    requires i < |es| && forall j :: i < j < |es| ==> es[j].domain != es[i].domain
    ensures LastFor(es, es[i].domain) == Some(es[i])
  {
    if i < |es| - 1 {
      LastForExactly(es[..|es| - 1], i);
    }
  }

  /** The different names of a list, each where it occurs first. */
  function FirstSeen(ds: seq<string>): (r: seq<string>)
    ensures forall d :: d in r <==> d in ds
    ensures Distinct(r)
  {
    if ds == [] then []
    else
      var d, before := ds[|ds| - 1], FirstSeen(ds[..|ds| - 1]);
      assert ds == ds[..|ds| - 1] + [d];
      if d in before then before else before + [d]
  }

  /** Base entries that are not removed. */
  function Pruned(base: seq<Entry>, removed: set<string>): (r: seq<Entry>)
    ensures forall e :: e in r <==> e in base && e.domain !in removed
  {
    if base == [] then []
    else
      var before := Pruned(base[..|base| - 1], removed);
      var e := base[|base| - 1];
      assert base == base[..|base| - 1] + [e];
      if e.domain in removed then before else before + [e]
  }

  /** The override entries that parse; malformed ones are skipped. */
  function WellFormed(specs: seq<Option<Entry>>): (r: seq<Entry>)
    ensures forall e :: e in r <==> Some(e) in specs
  {
    if specs == [] then []
    else
      assert specs == specs[..|specs| - 1] + [specs[|specs| - 1]];
      WellFormed(specs[..|specs| - 1])
      + match specs[|specs| - 1] case Some(e) => [e] case None => []
  }

  /** A Python dict from domain to entry: keys in insertion order, a new value keeps its key's place. */
  datatype OrderedDict = OrderedDict(keys: seq<string>, values: map<string, Entry>)

  function Put(d: OrderedDict, e: Entry): OrderedDict {
    OrderedDict(if e.domain in d.keys then d.keys else d.keys + [e.domain], d.values[e.domain := e])
  }

  /** The dict holds these entries: first places, last values. */
  ghost predicate Represents(d: OrderedDict, es: seq<Entry>) {
    && d.keys == FirstSeen(Domains(es))
    && (forall k :: k in d.values <==> k in d.keys)
    && (forall k <- d.keys :: LastFor(es, k) == Some(d.values[k]))
  }

  lemma LastForAppend(es: seq<Entry>, e: Entry, k: string)
    ensures LastFor(es + [e], k) == if e.domain == k then Some(e) else LastFor(es, k)
  {
    assert (es + [e])[..|es|] == es;
  }

  lemma KeysAppend(es: seq<Entry>, e: Entry)
    ensures var before := FirstSeen(Domains(es));
            FirstSeen(Domains(es + [e])) == if e.domain in before then before else before + [e.domain]
  {
    assert Domains(es + [e]) == Domains(es) + [e.domain];
    FirstSeenAppend(Domains(es), e.domain);
  }

  lemma PutRepresents(d: OrderedDict, es: seq<Entry>, e: Entry)
    requires Represents(d, es)
    ensures Represents(Put(d, e), es + [e])
  {
    KeysAppend(es, e);
    var d' := Put(d, e);
    forall k | k in d'.keys ensures LastFor(es + [e], k) == Some(d'.values[k]) {
      LastForAppend(es, e, k);
    }
  }

  lemma PutLast(d: OrderedDict, es: seq<Entry>)
    requires es != [] && Represents(d, es[..|es| - 1])
    ensures Represents(Put(d, es[|es| - 1]), es)
  {
    assert es == es[..|es| - 1] + [es[|es| - 1]];
    PutRepresents(d, es[..|es| - 1], es[|es| - 1]);
  }

  /** `{e.domain: e for e in es}`. */
  function DictOf(es: seq<Entry>): (d: OrderedDict)
    ensures Represents(d, es)
  {
    if es == [] then OrderedDict([], map[])
    else
      var before := DictOf(es[..|es| - 1]);
      PutLast(before, es);
      Put(before, es[|es| - 1])
  }

  /** `list(d.values())`. */
  function InOrder(d: OrderedDict): (r: seq<Entry>)
    requires forall i :: 0 <= i < |d.keys| ==> d.keys[i] in d.values
    ensures |r| == |d.keys| && forall i :: 0 <= i < |r| ==> r[i] == d.values[d.keys[i]]
    decreases |d.keys|
  {
    if d.keys == [] then [] else [d.values[d.keys[0]]] + InOrder(d.(keys := d.keys[1..]))
  }

  /** One entry for each domain: the last one given, at the place of the first. */
  function Merged(es: seq<Entry>): (r: seq<Entry>)
    ensures Domains(r) == FirstSeen(Domains(es))
    ensures forall i :: 0 <= i < |r| ==> LastFor(es, r[i].domain) == Some(r[i])
  {
    MergedOf(FirstSeen(Domains(es)), es)
  }

  lemma DomainHasEntry(es: seq<Entry>, k: string)
    requires k in Domains(es)
    ensures LastFor(es, k).Some?
  {
    var i :| 0 <= i < |es| && Domains(es)[i] == k;
    assert es[i] in es && es[i].domain == k;
  }

  function MergedOf(keys: seq<string>, es: seq<Entry>): (r: seq<Entry>)
    requires forall k <- keys :: k in Domains(es)
    ensures Domains(r) == keys && forall i :: 0 <= i < |r| ==> LastFor(es, r[i].domain) == Some(r[i])
  {
    if keys == [] then []
    else
      assert keys[0] in keys;
      DomainHasEntry(es, keys[0]);
      [LastFor(es, keys[0]).value] + MergedOf(keys[1..], es)
  }

  /** The published list under local overrides. */
  function Overridden(base: seq<Entry>, removed: set<string>, specs: seq<Option<Entry>>): seq<Entry> {
    Merged(Pruned(base, removed) + WellFormed(specs))
  }

  lemma RepresentedInOrder(d: OrderedDict, es: seq<Entry>)
    requires Represents(d, es)
    ensures InOrder(d) == Merged(es)
  {
    var r, m := InOrder(d), Merged(es);
    assert |r| == |d.keys| == |Domains(m)| == |m|;
    forall i | 0 <= i < |r| ensures r[i] == m[i] {
      assert Domains(m)[i] == d.keys[i] && d.keys[i] in d.keys;
    }
  }

  /** One more override specification: a malformed one is skipped, any other is put into the dict. */
  lemma OverrideStep(d: OrderedDict, kept: seq<Entry>, specs: seq<Option<Entry>>, i: nat)
    requires i < |specs| && Represents(d, kept + WellFormed(specs[..i]))
    ensures Represents(match specs[i] case Some(e) => Put(d, e) case None => d, kept + WellFormed(specs[..i + 1]))
  {
    assert specs[..i + 1][..i] == specs[..i];
    var before := kept + WellFormed(specs[..i]);
    match specs[i] {
      case Some(e) =>
        PutRepresents(d, before, e);
        assert kept + WellFormed(specs[..i + 1]) == before + [e];
      case None =>
        assert kept + WellFormed(specs[..i + 1]) == before;
    }
  }

  /** `_apply_overrides`. */
  method ApplyOverrides(base: seq<Entry>, removed: set<string>, specs: seq<Option<Entry>>) returns (r: seq<Entry>)
    ensures r == Overridden(base, removed, specs)
  {
    var pruned := Pruned(base, removed);
    var byDomain := DictOf(pruned);
    assert pruned + WellFormed(specs[..0]) == pruned;
    for i := 0 to |specs|
      invariant Represents(byDomain, pruned + WellFormed(specs[..i]))
    {
      OverrideStep(byDomain, pruned, specs, i);
      if specs[i].None? { continue; }
      byDomain := Put(byDomain, specs[i].value);
    }
    assert specs[..|specs|] == specs;
    RepresentedInOrder(byDomain, pruned + WellFormed(specs));
    r := InOrder(byDomain);
  }

  // ---- what the merge means ----

  lemma {:induction false} LastForConcat(xs: seq<Entry>, ys: seq<Entry>, d: string)
    ensures LastFor(xs + ys, d) == if LastFor(ys, d).Some? then LastFor(ys, d) else LastFor(xs, d)
  {
    if ys == [] {
      assert xs + ys == xs;
    } else {
      assert (xs + ys)[..|xs + ys| - 1] == xs + ys[..|ys| - 1];
      LastForConcat(xs, ys[..|ys| - 1], d);
    }
  }

  lemma {:induction false} LastForPruned(base: seq<Entry>, removed: set<string>, d: string)
    ensures LastFor(Pruned(base, removed), d) == if d in removed then None else LastFor(base, d)
  {
    if base != [] {
      var init, e := base[..|base| - 1], base[|base| - 1];
      LastForPruned(init, removed, d);
      if e.domain !in removed {
        assert (Pruned(init, removed) + [e])[..|Pruned(init, removed)|] == Pruned(init, removed);
      }
    }
  }

  /** Merging neither invents nor changes an answer, and leaves one entry for each domain. */
  lemma MergedLookup(es: seq<Entry>, d: string)
    ensures LastFor(Merged(es), d) == LastFor(es, d)
    ensures Distinct(Domains(Merged(es)))
  {
    var m := Merged(es);
    if LastFor(es, d).Some? {
      var k :| 0 <= k < |es| && es[k] == LastFor(es, d).value;
      assert Domains(es)[k] == d && d in Domains(m);
      var i :| 0 <= i < |Domains(m)| && Domains(m)[i] == d;
      assert m[i] in m;
    }
    if LastFor(m, d).Some? {
      var i :| 0 <= i < |m| && m[i] == LastFor(m, d).value;
      assert LastFor(es, m[i].domain) == Some(m[i]);
    }
  }

  /** A domain maps to its last well-formed override; failing that to its last published entry unless
      removed; and to nothing otherwise. Every domain is listed once. */
  lemma OverrideLookup(base: seq<Entry>, removed: set<string>, specs: seq<Option<Entry>>, d: string)
    ensures LastFor(Overridden(base, removed, specs), d)
         == if LastFor(WellFormed(specs), d).Some? then LastFor(WellFormed(specs), d)
            else if d in removed then None
            else LastFor(base, d)
    ensures Distinct(Domains(Overridden(base, removed, specs)))
  {
    MergedLookup(Pruned(base, removed) + WellFormed(specs), d);
    LastForConcat(Pruned(base, removed), WellFormed(specs), d);
    LastForPruned(base, removed, d);
  }

  /** Applying the same overrides again maps no domain to anything else. */
  lemma OverrideTwice(base: seq<Entry>, removed: set<string>, specs: seq<Option<Entry>>, d: string)
    ensures LastFor(Overridden(Overridden(base, removed, specs), removed, specs), d)
         == LastFor(Overridden(base, removed, specs), d)
  {
    OverrideLookup(base, removed, specs, d);
    OverrideLookup(Overridden(base, removed, specs), removed, specs, d);
  }

  function NotAmong(ds: seq<string>, known: seq<string>): seq<string> {
    if ds == [] then []
    else
      var before := NotAmong(ds[..|ds| - 1], known);
      if ds[|ds| - 1] in known then before else before + [ds[|ds| - 1]]
  }

  lemma FirstSeenAppend(ds: seq<string>, d: string)
    ensures FirstSeen(ds + [d]) == if d in ds then FirstSeen(ds) else FirstSeen(ds) + [d]
  {
    assert (ds + [d])[..|ds|] == ds;
  }

  lemma NotAmongAppend(ds: seq<string>, d: string, known: seq<string>)
    ensures NotAmong(ds + [d], known) == if d in known then NotAmong(ds, known) else NotAmong(ds, known) + [d]
  {
    assert (ds + [d])[..|ds|] == ds;
  }

  lemma InJoin(xs: seq<string>, ys: seq<string>, y: string)
    ensures y in xs + ys <==> y in xs || y in ys
  {
  }

  lemma JoinOneMore(a: seq<string>, b: seq<string>, y: string)
    ensures (a + b) + [y] == a + (b + [y])
  {
  }

  lemma OneMoreSeen(xs: seq<string>, ys: seq<string>, y: string)
    requires FirstSeen(xs + ys) == FirstSeen(xs) + NotAmong(FirstSeen(ys), xs)
    ensures FirstSeen((xs + ys) + [y]) == FirstSeen(xs) + NotAmong(FirstSeen(ys + [y]), xs)
  {
    var a, b := FirstSeen(xs), NotAmong(FirstSeen(ys), xs);
    FirstSeenAppend(xs + ys, y);
    FirstSeenAppend(ys, y);
    InJoin(xs, ys, y);
    JoinOneMore(a, b, y);
    if y !in ys {
      NotAmongAppend(FirstSeen(ys), y, xs);
    }
  }

  lemma {:induction false} FirstSeenConcat(xs: seq<string>, ys: seq<string>)
    ensures FirstSeen(xs + ys) == FirstSeen(xs) + NotAmong(FirstSeen(ys), xs)
  {
    if ys == [] {
      assert xs + ys == xs;
    } else {
      var init, y := ys[..|ys| - 1], ys[|ys| - 1];
      calc {
        FirstSeen(xs + ys);
        { assert xs + ys == (xs + init) + [y]; }
        FirstSeen((xs + init) + [y]);
        { FirstSeenConcat(xs, init); OneMoreSeen(xs, init, y); }
        FirstSeen(xs) + NotAmong(FirstSeen(init + [y]), xs);
        { assert init + [y] == ys; }
        FirstSeen(xs) + NotAmong(FirstSeen(ys), xs);
      }
    }
  }

  lemma DomainsConcat(xs: seq<Entry>, ys: seq<Entry>)
    ensures Domains(xs + ys) == Domains(xs) + Domains(ys)
  {
  }

  /** Surviving published domains come first, in order of first occurrence; then the added domains
      that are new, likewise. */
  lemma OverrideOrder(base: seq<Entry>, removed: set<string>, specs: seq<Option<Entry>>)
    ensures var kept, added := Domains(Pruned(base, removed)), Domains(WellFormed(specs));
            Domains(Overridden(base, removed, specs)) == FirstSeen(kept) + NotAmong(FirstSeen(added), kept)
  {
    DomainsConcat(Pruned(base, removed), WellFormed(specs));
    FirstSeenConcat(Domains(Pruned(base, removed)), Domains(WellFormed(specs)));
  }
}
