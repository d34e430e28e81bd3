/** Payload fields as they are on the wire, for statements that go by nothing else. */
module WireFields {
  import opened Values
  import opened Envelopes

  /** The values that Python takes for false. */
  predicate IsEmpty(v: Value) {
    v in {Null, Num(0.0), Str(""), List([]), Dict(map[])}
  }

  lemma EmptyIsFalsy(v: Value)
    ensures Truthy(v) <==> !IsEmpty(v)
  {
  }

  /** An envelope of this type whose payload has these fields. */
  ghost predicate Carries(e: Envelope, payloadType: string, names: set<string>) {
    e.payloadType == payloadType && e.payload.Dict? && names <= e.payload.fields.Keys
  }

  /** A field of a text's payload; what is missing reads as `None`. */
  function Field(w: Wire, name: string): Value {
    if w.Parsed? && w.envelope.payload.Dict? && name in w.envelope.payload.fields then w.envelope.payload.fields[name]
    else Null
  }
}
