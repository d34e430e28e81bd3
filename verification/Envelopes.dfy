/** The signed envelope (`aap/envelope.py`), and wire text that may or may not parse as one.

    Times are integer microseconds; `iat` is the parsed issue time, absent when it does not parse.
    `rest` stands for everything else that is signed: the text of the issue time, the conversation
    fields, the capability token and the attestations. */
module Envelopes {
  import opened Values

  type Address = string

  datatype Envelope = Envelope(
    payloadType: string,
    payload: Value,
    iss: Address,
    iat: Option<int>,
    rest: Value,
    sig: Option<string>)

  /** Envelope text as received: the parser is a function of the text, so its result stands for it. */
  datatype Wire = Malformed(text: string) | Parsed(envelope: Envelope)

  const SECOND: int := 1_000_000

  /** `strftime("%Y-%m-%dT%H:%M:%SZ")` read back: the fraction of a second is dropped. */
  function TruncateToSecond(t: int): (r: int)
    ensures r <= t < r + SECOND && r % SECOND == 0
  {
    t - t % SECOND
  }

  lemma FractionIsDropped(t: int)
    ensures TruncateToSecond(t) == t - t % 1_000_000
  {
  }
}
