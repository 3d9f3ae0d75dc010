/** The signer's search for a signature in whatever JSON the contract's stored result turns out to be. */
module SignatureJson {
  import opened Basics
  import opened Text
  import opened Library

  predicate SignatureLength(n: nat) {
    n == 64 || n == 65
  }

  /** A lower bound on the characters a value takes when written as JSON. */
  function Size(v: Json): nat
    decreases v, 0
  {
    match v
    case String(chars) => |chars| + 2
    case Array(elements) => 2 + ElementsSize(elements)
    case Object(fields) => 2 + FieldsSize(fields)
    case _ => 1
  }

  function ElementsSize(elements: seq<Json>): nat
    decreases elements, 1
  {
    if elements == [] then 0 else Size(elements[0]) + ElementsSize(elements[1..])
  }

  function FieldsSize(fields: seq<(string, Json)>): nat
    decreases fields, 1
  {
    if fields == [] then 0 else FieldSize(fields[0]) + FieldsSize(fields[1..])
  }

  function FieldSize(field: (string, Json)): nat
    decreases field, 1
  {
    |field.0| + 3 + Size(field.1)
  }

  /** What decoding and parsing must respect: base64 does not grow, and a value is no shorter than its text. */
  ghost predicate Shrinking(p: Platform) {
    (forall s: string :: p.base64(s).Some? ==> |p.base64(s).value| <= |s|) &&
    (forall b: bytes :: p.json(b).Some? ==> Size(p.json(b).value) <= |b|)
  }

  lemma {:induction false} FieldIsSmaller(fields: seq<(string, Json)>, field: (string, Json))
    requires field in fields
    ensures FieldSize(field) <= FieldsSize(fields)
  {
    if fields[0] != field {
      FieldIsSmaller(fields[1..], field);
    }
  }

  lemma GetIsSmaller(v: Json, key: string)
    ensures v.Get(key).Some? ==> Size(v.Get(key).value) < Size(v)
  {
    if v.Get(key).Some? {
      FieldIsSmaller(v.fields, (key, v.Get(key).value));
    }
  }

  /** `v.as_u64().map(|n| n as u8)` on every element: the low byte of each, if all are integers. */
  function LowBytes(elements: seq<Json>): (r: Option<bytes>)
    ensures r.Some? ==> |r.value| == |elements|
  {
    if elements == [] then Some([]) else
      var n :- elements[0].AsU64();
      var rest :- LowBytes(elements[1..]);
      Some([n % 256] + rest)
  }

  function IfSignature(data: Option<bytes>): (r: Option<bytes>)
    ensures r.Some? ==> SignatureLength(|r.value|)
  {
    if data.Some? && SignatureLength(|data.value|) then data else None
  }

  function OrElse(a: Option<bytes>, b: Option<bytes>): Option<bytes> {
    if a.Some? then a else b
  }

  function HexBytes(text: Option<string>): Option<bytes> {
    var t :- text;
    HexDecode(StripHexPrefix(t))
  }

  /** The `{ ok: true, payload }` form: the payload's own JSON if it holds a signature, else its bytes. */
  function FromPayload(p: Platform, v: Json): (r: Option<bytes>)
    requires Shrinking(p)
    ensures r.Some? ==> SignatureLength(|r.value|)
    decreases Size(v), 0
  {
    var ok := v.Get("ok");
    var text := StringField(v, "payload");
    if ok.None? || ok.value.AsBool() != Some(true) || text.None? then None else
      var data := p.base64(text.value);
      if data.None? then None else
        var inner := p.json(data.value);
        GetIsSmaller(v, "payload");
        OrElse(if inner.Some? then ExtractSignature(p, inner.value) else None, IfSignature(data))
  }

  /**
   `extract_signature`. It calls itself on a field and on JSON decoded out of a string, and still
   terminates on every value; what it returns is always 64 or 65 bytes long.
   */
  function ExtractSignature(p: Platform, v: Json): (r: Option<bytes>)
    requires Shrinking(p)
    ensures r.Some? ==> SignatureLength(|r.value|)
    decreases Size(v), 1
  {
    if v.Null? then None else
      var fromPayload := FromPayload(p, v);
      if fromPayload.Some? then fromPayload else
        var fromArray := if v.Array? then IfSignature(LowBytes(v.elements)) else None;
        if fromArray.Some? then fromArray
        else if v.Get("signature").Some? then
          GetIsSmaller(v, "signature");
          ExtractSignature(p, v.Get("signature").value)
        else OrElse(IfSignature(HexBytes(StringField(v, "signature_hex"))), FromText(p, v))
  }

  /** A bare string, as hexadecimal or else as base64. */
  function FromText(p: Platform, v: Json): (r: Option<bytes>)
    ensures r.Some? ==> SignatureLength(|r.value|)
  {
    var text :- v.AsStr();
    OrElse(IfSignature(HexDecode(StripHexPrefix(text))), IfSignature(p.base64(StripHexPrefix(text))))
  }

  /** How deep payloads may nest: a JSON value wrapped in `{ ok: true, payload: base64(..) }` n times. */
  ghost predicate Wraps(p: Platform, outer: Json, inner: Json, depth: nat)
    decreases depth
  {
    if depth == 0 then outer == inner else
      outer.Get("ok").Some? && outer.Get("ok").value == Bool(true) &&
      StringField(outer, "payload").Some? &&
      var data := p.base64(StringField(outer, "payload").value);
      data.Some? && p.json(data.value).Some? && Wraps(p, p.json(data.value).value, inner, depth - 1)
  }

  /** However deeply it is wrapped, a signature is found and is the one inside. */
  lemma {:induction false} WrappedSignatureFound(p: Platform, outer: Json, inner: Json, depth: nat)
    requires Shrinking(p) && Wraps(p, outer, inner, depth) && ExtractSignature(p, inner).Some?
    ensures ExtractSignature(p, outer) == ExtractSignature(p, inner)
    decreases depth
  {
    hide HexDecode, LowBytes, Lookup, Size;
    if depth > 0 {
      var data := p.base64(StringField(outer, "payload").value).value;
      WrappedSignatureFound(p, p.json(data).value, inner, depth - 1);
      assert FromPayload(p, outer) == ExtractSignature(p, inner);
    }
  }

  // The other forms a result may take, each read as the signature written in it.

  /** The bytes as a JSON array of numbers. */
  function NumberArray(data: bytes): (elements: seq<Json>)
    ensures |elements| == |data|
  {
    if data == [] then [] else [Number("", Some(data[0]))] + NumberArray(data[1..])
  }

  lemma {:induction false} NumbersRead(data: bytes)
    ensures LowBytes(NumberArray(data)) == Some(data)
  {
    if data != [] {
      NumbersRead(data[1..]);
      assert NumberArray(data)[1..] == NumberArray(data[1..]);
      assert data == [data[0]] + data[1..];
    }
  }

  lemma ArrayRead(p: Platform, signature: bytes)
    requires Shrinking(p) && SignatureLength(|signature|)
    ensures ExtractSignature(p, Array(NumberArray(signature))) == Some(signature)
  {
    hide LowBytes;
    NumbersRead(signature);
  }

  lemma HexRead(p: Platform, signature: bytes)
    requires Shrinking(p) && SignatureLength(|signature|)
    ensures ExtractSignature(p, String(HexText(signature))) == Some(signature)
    ensures ExtractSignature(p, String("0x" + HexText(signature))) == Some(signature)
    ensures ExtractSignature(p, Object([("signature_hex", String(HexText(signature)))])) == Some(signature)
  {
    hide HexDecode, HexText;
    HexRoundTrip(signature);
    HexTextPlain(signature);
    assert ("0x" + HexText(signature))[2..] == HexText(signature);
    var v := Object([("signature_hex", String(HexText(signature)))]);
    OneField("signature_hex", String(HexText(signature)), "payload");
    OneField("signature_hex", String(HexText(signature)), "signature");
    OneField("signature_hex", String(HexText(signature)), "ok");
    OneField("signature_hex", String(HexText(signature)), "signature_hex");
  }

  lemma OneField(name: string, value: Json, key: string)
    ensures Object([(name, value)]).Get(key) == if key == name then Some(value) else None
  {
    assert [(name, value)][..0] == [];
  }

  lemma FieldRead(p: Platform, inner: Json)
    requires Shrinking(p)
    ensures ExtractSignature(p, Object([("signature", inner)])) == ExtractSignature(p, inner)
  {
    hide HexDecode, LowBytes;
    OneField("signature", inner, "payload");
    OneField("signature", inner, "signature");
    OneField("signature", inner, "ok");
  }

  /** A payload that is no JSON with a signature is itself the signature, if it has the length of one. */
  lemma PayloadRead(p: Platform, text: string)
    requires Shrinking(p) && p.base64(text).Some?
    requires p.json(p.base64(text).value).Some? ==> ExtractSignature(p, p.json(p.base64(text).value).value).None?
    ensures SignatureLength(|p.base64(text).value|) ==>
              ExtractSignature(p, Object([("ok", Bool(true)), ("payload", String(text))])) == p.base64(text)
  {
    hide HexDecode, LowBytes;
    var fields := [("ok", Bool(true)), ("payload", String(text))];
    assert fields[..1] == [("ok", Bool(true))];
    OneField("ok", Bool(true), "ok");
  }
}
