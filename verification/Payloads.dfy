/** The payload validators of `aap/payloads.py` that the stores below rely on. */
module Payloads {
  import opened Values

  const INVITATION := "aap.group-invitation/v1"
  const MEMBERSHIP_UPDATE := "aap.group-membership-update/v1"
  const LEAVE := "aap.group-leave/v1"
  const COMPLETE := "aap.group-complete/v1"

  const MIN_MEMBERS := 2
  const MAX_MEMBERS := 10

  /** What a membership list must be: 2 to 10 distinct non-empty strings. */
  ghost predicate IsMemberList(members: seq<Value>) {
    && MIN_MEMBERS <= |members| <= MAX_MEMBERS
    && (forall m <- members :: m.Str? && m.text != "")
    && Distinct(members)
  }

  function ValidateMembersList(v: Value): (r: Result<seq<Value>>)
    ensures r.Success? <==> v.List? && IsMemberList(v.items)
    ensures r.Success? ==> r.value == v.items
  {
    if !v.List? then Failure("must be a list of addresses")
    else if |v.items| < MIN_MEMBERS then Failure("must contain at least 2 addresses")
    else if |v.items| > MAX_MEMBERS then Failure("exceeds the 10-member cap")
    else if exists m <- v.items :: !(m.Str? && Truthy(m)) then Failure("entries must be non-empty strings")
    else
      CardinalityMeansDistinct(v.items);
      if |Elements(v.items)| != |v.items| then Failure("entries must be unique")
      else Success(v.items)
  }

  datatype GroupInvitation = GroupInvitation(
    conversationId: Value, purpose: Value, members: seq<Value>, convener: Value,
    nonce: Value, name: Value, goal: Value)

  datatype GroupMembershipUpdate = GroupMembershipUpdate(
    conversationId: Value, members: seq<Value>, convener: Value,
    added: set<Value>, removed: set<Value>, convenerChangedFrom: Value, nonce: Value)

  datatype GroupNotice = GroupNotice(conversationId: Value, nonce: Value)

  /** The value set of `list(v or [])`: a falsy value lists nothing, a string lists its characters,
      a dict its keys. A truthy number cannot be listed. Only the set is ever used by a caller. */
  function ListedValues(v: Value): Result<set<Value>> {
    if !Truthy(v) then Success({})
    else match v
      case List(xs) => Success(Elements(xs))
      case Str(s) => Success(set c | c in s :: Str([c]))
      case Dict(m) => Success(set k | k in m :: Str(k))
      case _ => Failure("not iterable")
  }

  predicate HasFields(v: Value, names: set<string>) {
    v.Dict? && names <= v.fields.Keys
  }

  function ParseInvitation(v: Value): (r: Result<GroupInvitation>)
    ensures r.Success? <==>
      && HasFields(v, {"conversation_id", "purpose", "members", "convener", "nonce"})
      && v.fields["members"].List? && IsMemberList(v.fields["members"].items)
      && v.fields["convener"] in v.fields["members"].items
    ensures r.Success? ==> IsMemberList(r.value.members) && r.value.convener in r.value.members
  {
    if !v.Dict? then Failure("payload is not a dict")
    else
      var d := v.fields;
      if "members" !in d then Failure("missing field: members")
      else match ValidateMembersList(d["members"])
        case Failure(e) => Failure(e)
        case Success(members) =>
          if "convener" !in d then Failure("missing field: convener")
          else if d["convener"] !in members then Failure("convener must be in members list")
          else if "conversation_id" !in d || "purpose" !in d || "nonce" !in d then Failure("missing field")
          else Success(GroupInvitation(
            d["conversation_id"], d["purpose"], members, d["convener"], d["nonce"],
            if "name" in d then d["name"] else Str(""),
            if "goal" in d then d["goal"] else Str("")))
  }

  function ParseMembershipUpdate(v: Value): (r: Result<GroupMembershipUpdate>)
    ensures r.Success? <==>
      && HasFields(v, {"conversation_id", "members", "convener", "nonce"})
      && v.fields["members"].List? && IsMemberList(v.fields["members"].items)
      && v.fields["convener"] in v.fields["members"].items
      && ListedValues(Get(v.fields, "added")).Success?
      && ListedValues(Get(v.fields, "removed")).Success?
    ensures r.Success? ==> IsMemberList(r.value.members) && r.value.convener in r.value.members
  {
    if !v.Dict? then Failure("payload is not a dict")
    else
      var d := v.fields;
      if "members" !in d then Failure("missing field: members")
      else match ValidateMembersList(d["members"])
        case Failure(e) => Failure(e)
        case Success(members) =>
          if "convener" !in d then Failure("missing field: convener")
          else if d["convener"] !in members then Failure("convener must be in members list")
          else if "conversation_id" !in d || "nonce" !in d then Failure("missing field")
          else
            var added := ListedValues(Get(d, "added"));
            var removed := ListedValues(Get(d, "removed"));
            if added.Failure? || removed.Failure? then Failure("added/removed not iterable")
            else Success(GroupMembershipUpdate(
              d["conversation_id"], members, d["convener"], added.value, removed.value,
              Get(d, "convener_changed_from"), d["nonce"]))
  }

  /** `GroupLeave.from_dict`; the free-text reason is not used by any store. */
  function ParseLeave(v: Value): Result<GroupNotice> {
    if HasFields(v, {"conversation_id", "nonce"})
    then Success(GroupNotice(v.fields["conversation_id"], v.fields["nonce"]))
    else Failure("missing field")
  }

  /** `GroupComplete.from_dict`, which also requires the outcome text. */
  function ParseComplete(v: Value): Result<GroupNotice> {
    if HasFields(v, {"conversation_id", "outcome", "nonce"})
    then Success(GroupNotice(v.fields["conversation_id"], v.fields["nonce"]))
    else Failure("missing field")
  }
}
