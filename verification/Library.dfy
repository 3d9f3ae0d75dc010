/**
 The library calls the modelled code makes, as parameters: every theorem holds whatever they do,
 except where it names the property it needs.
 */
module Library {
  import opened Basics

  /** A number keeps its text and, when it is a non-negative integer of 64 bits, its value. */
  datatype Json =
    | Null
    | Bool(value: bool)
    | Number(text: string, asU64: Option<nat>)
    | String(chars: string)
    | Array(elements: seq<Json>)
    | Object(fields: seq<(string, Json)>)
  {
    /** `Value::get` with a string key: the last field of that name in an object. */
    function Get(key: string): Option<Json> {
      if Object? then Lookup(fields, key) else None
    }

    function AsStr(): Option<string> {
      if String? then Some(chars) else None
    }

    function AsBool(): Option<bool> {
      if Bool? then Some(value) else None
    }

    function AsU64(): Option<nat> {
      if Number? then asU64 else None
    }
  }

  function Lookup(fields: seq<(string, Json)>, key: string): (r: Option<Json>)
    ensures r.Some? ==> (key, r.value) in fields
  {
    if fields == [] then None
    else if fields[|fields| - 1].0 == key then Some(fields[|fields| - 1].1)
    else Lookup(fields[..|fields| - 1], key)
  }

  /** `value.get(key)?.as_str()`. */
  function StringField(value: Json, key: string): Option<string> {
    var field :- value.Get(key);
    field.AsStr()
  }

  /** `ContractPolicyInputMemo`: the policy a caller may attach to a raw request. */
  datatype PolicyMemo = PolicyMemo(templateId: string, templateParams: Json, snapshot: Option<Snapshot>)

  datatype Snapshot = Snapshot(templateAllowlist: seq<string>, destinationAllowlist: seq<string>, rule: Option<Rule>)

  datatype Rule = Rule(assetType: string, assetId: string, maxPerTxNative: Option<Json>)

  /**
   `utf8`: `String::from_utf8`; `utf8Bytes`: `str::as_bytes`. `lowercase`: `str::to_lowercase`. `json`:
   `serde_json::from_slice`. `base64`: the standard alphabet. `policyMemo`: URL-safe base64, then the
   memo's JSON.
   */
  datatype Platform = Platform(
    utf8: bytes -> Option<string>,
    utf8Bytes: string -> bytes,
    lowercase: string -> string,
    json: bytes -> Option<Json>,
    base64: string -> Option<bytes>,
    policyMemo: string -> Option<PolicyMemo>,
    sha256: bytes -> bytes,
    keccak256: bytes -> bytes)
}
