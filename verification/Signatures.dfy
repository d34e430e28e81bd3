/** Envelope signatures (`Envelope.verify` in `aap/envelope.py`, `verify` in `aap/keys.py`): the text of
    the signature is decoded, everything else is what was signed. Ed25519 itself is opaque. */
module Signatures {
  import opened Values
  import opened Envelopes
  import Base64Url

  const SIGNATURE_LENGTH := 64

  /** What Ed25519 says under one public key of a signed content and the bytes of a signature. */
  type Key = (Envelope, seq<nat>) -> bool

  function Content(e: Envelope): Envelope {
    e.(sig := None)
  }

  /** The signature a text spells, if it spells one. */
  function Spelled(text: string): Option<seq<nat>> {
    match Base64Url.DecodeB64Url(text)
    case Success(b) => if |b| == SIGNATURE_LENGTH then Some(b) else None
    case Failure(_) => None
  }

  function SignatureOf(e: Envelope): Option<seq<nat>> {
    if e.sig.None? then None else Spelled(e.sig.value)
  }

  predicate Verifies(e: Envelope, key: Key) {
    SignatureOf(e).Some? && key(Content(e), SignatureOf(e).value)
  }

  /** The same content under the same signature, however that is spelled. */
  predicate SameMessage(e: Envelope, f: Envelope) {
    Content(e) == Content(f) && SignatureOf(e).Some? && SignatureOf(e) == SignatureOf(f)
  }

  /** A key cannot tell two spellings of a message apart. */
  lemma SameMessageSameVerdict(e: Envelope, f: Envelope, key: Key)
    requires SameMessage(e, f)
    ensures Verifies(e, key) <==> Verifies(f, key)
  {
  }

  /** Signature text with foreign characters put in front. */
  function Respelled(e: Envelope, junk: string): Envelope
    requires e.sig.Some?
  {
    e.(sig := Some(junk + e.sig.value))
  }

  lemma RespelledIsSameMessage(e: Envelope, junk: string)
    requires SignatureOf(e).Some? && Base64Url.Foreign(junk) && |junk| % 4 == 0
    ensures SameMessage(e, Respelled(e, junk))
  {
    var text := e.sig.value;
    Base64Url.ForeignTextIsSkipped("", junk, text);
    assert "" + junk + text == junk + text && "" + text == text;
  }

  /** Where signatures are spelled canonically, a message is one envelope. */
  lemma CanonicalMessageIsEnvelope(e: Envelope, f: Envelope)
    requires SameMessage(e, f) && Base64Url.Canonical(e.sig.value) && Base64Url.Canonical(f.sig.value)
    ensures e == f
  {
    assert Base64Url.DecodeB64Url(e.sig.value) == Success(SignatureOf(e).value);
    assert Base64Url.DecodeB64Url(f.sig.value) == Success(SignatureOf(f).value);
    Base64Url.CanonicalTextIsUnique(e.sig.value, f.sig.value);
  }

  /** Some signature, as `encode_b64url` spells it. */
  function SampleText(): (text: string)
    ensures Spelled(text).Some? && Base64Url.Canonical(text)
  {
    var b := seq(SIGNATURE_LENGTH, _ => 0);
    Base64Url.RoundTrip(b);
    Base64Url.CanonicalExactly(Base64Url.EncodeB64Url(b));
    Base64Url.EncodeB64Url(b)
  }
}
