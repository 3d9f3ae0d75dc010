/**
 The contract's RLP encoder, against the decoder of Appendix B of the Ethereum Yellow Paper.
 */
module Rlp {
  import opened Basics
  import opened ByteOrder

  /** `iter().position(|b| b != 0).unwrap_or(last)`. */
  function FirstNonZero(data: bytes): (i: nat)
    requires data != []
    ensures i < |data| && forall j :: 0 <= j < i ==> data[j] == 0
    ensures data[i] != 0 || i == |data| - 1
  {
    if data[0] != 0 || |data| == 1 then 0 else
      var i := FirstNonZero(data[1..]);
      assert forall j :: 1 <= j <= i ==> data[j] == data[1..][j - 1];
      i + 1
  }

  /** `minimal_be_bytes_usize`, and the tail the integer encoders keep. */
  function MinimalBytes(value: nat, width: nat): bytes
    requires width > 0
  {
    var be := BigEndian(value, width);
    be[FirstNonZero(be)..]
  }

  function LengthPrefix(len: nat, offset: byte): bytes
    requires offset == 0x80 || offset == 0xc0
  {
    if len < 56 then [offset + len] else
      var lenBytes := MinimalBytes(len, 8);
      [offset + 55 + |lenBytes|] + lenBytes
  }

  function EncodeBytes(data: bytes): bytes {
    if |data| == 1 && data[0] < 0x80 then data else LengthPrefix(|data|, 0x80) + data
  }

  function Concat(items: seq<bytes>): bytes {
    if items == [] then [] else items[0] + Concat(items[1..])
  }

  function EncodeList(items: seq<bytes>): bytes {
    LengthPrefix(|Concat(items)|, 0xc0) + Concat(items)
  }

  /** `rlp_encode_u64` and `rlp_encode_u128`, at widths 8 and 16. */
  function EncodeUint(value: nat, width: nat): bytes
    requires width > 0
  {
    EncodeBytes(IntegerBytes(value, width))
  }

  function IntegerBytes(value: nat, width: nat): bytes
    requires width > 0
  {
    if value == 0 then [] else MinimalBytes(value, width)
  }

  // What the encodings stand for.

  datatype Item = Str(data: bytes) | List(items: seq<Item>)

  function Encode(item: Item): bytes {
    match item
    case Str(data) => EncodeBytes(data)
    case List(items) => EncodeList(EncodeAll(items))
  }

  function EncodeAll(items: seq<Item>): (encoded: seq<bytes>)
    ensures |encoded| == |items|
    ensures forall i :: 0 <= i < |items| ==> encoded[i] == Encode(items[i])
  {
    if items == [] then [] else [Encode(items[0])] + EncodeAll(items[1..])
  }

  /** Every string and list payload has a length the machine can represent. */
  predicate Fits(item: Item) {
    match item
    case Str(data) => |data| < U64_LIMIT
    case List(items) => |Concat(EncodeAll(items))| < U64_LIMIT && FitsAll(items)
  }

  predicate FitsAll(items: seq<Item>) {
    items == [] || (Fits(items[0]) && FitsAll(items[1..]))
  }

  /** Splits off a payload whose length is written in the prefix: (payload, rest). */
  function TakePayload(input: bytes, offset: byte): (r: Option<(bytes, bytes)>)
    requires (offset == 0x80 || offset == 0xc0) && input != [] && offset <= input[0] <= offset + 63
    ensures r.Some? ==> |r.value.0| + |r.value.1| < |input|
  {
    var head := input[0] - offset;
    if head < 56 then
      if |input| < 1 + head then None else Some((input[1..1 + head], input[1 + head..]))
    else
      var k := head - 55;
      if |input| < 1 + k then None else
        var lenBytes := input[1..1 + k];
        var len := FromBigEndian(lenBytes);
        if lenBytes[0] == 0 || len < 56 || |input| < 1 + k + len then None
        else Some((input[1 + k..1 + k + len], input[1 + k + len..]))
  }

  /** Reads one item off the front: (item, rest). Only the shortest encoding of an item is an item. */
  function Decode(input: bytes): (r: Option<(Item, bytes)>)
    ensures r.Some? ==> |r.value.1| < |input|
    decreases |input|, 0
  {
    if input == [] then None
    else if input[0] < 0x80 then Some((Str([input[0]]), input[1..]))
    else if input[0] < 0xc0 then
      var (data, rest) :- TakePayload(input, 0x80);
      if |data| == 1 && data[0] < 0x80 then None else Some((Str(data), rest))
    else
      var (payload, rest) :- TakePayload(input, 0xc0);
      var items :- DecodeAll(payload);
      Some((List(items), rest))
  }

  function DecodeAll(payload: bytes): Option<seq<Item>>
    decreases |payload|, 1
  {
    if payload == [] then Some([]) else
      var (item, rest) :- Decode(payload);
      var items :- DecodeAll(rest);
      Some([item] + items)
  }

  // Integers.

  /** Minimal bytes denote the value and never start with a zero byte. */
  lemma MinimalBytesSpec(value: nat, width: nat)
    requires width > 0 && 0 < value < Pow(256, width)
    ensures var m := MinimalBytes(value, width); m != [] && |m| <= width && m[0] != 0 && FromBigEndian(m) == value
  {
    var be := BigEndian(value, width);
    BigEndianValue(value, width);
    FromBigEndianZeros(be, FirstNonZero(be));
    var m := MinimalBytes(value, width);
    assert |m| == 1 ==> m[..|m| - 1] == [];
  }

  // Strings and lists.

  /** A length prefix tells exactly where its payload ends. */
  lemma PrefixRoundTrip(payload: bytes, offset: byte, rest: bytes)
    requires offset == 0x80 || offset == 0xc0
    requires |payload| < U64_LIMIT
    ensures var input := LengthPrefix(|payload|, offset) + payload + rest;
            offset <= input[0] <= offset + 63 && TakePayload(input, offset) == Some((payload, rest))
  {
    hide FirstNonZero, MinimalBytes, FromBigEndian, Pow;
    var prefix := LengthPrefix(|payload|, offset);
    var input := prefix + payload + rest;
    if |payload| >= 56 {
      TwoToThe64();
      MinimalBytesSpec(|payload|, 8);
      assert input[1..|prefix|] == MinimalBytes(|payload|, 8);
    }
    assert input[|prefix|..|prefix| + |payload|] == payload;
    assert input[|prefix| + |payload|..] == rest;
  }

  /** Decoding reads back exactly the item that was encoded, whatever follows it. */
  lemma {:induction false} DecodeEncode(item: Item, rest: bytes)
    requires Fits(item)
    ensures Decode(Encode(item) + rest) == Some((item, rest))
    decreases item, 0
  {
    var input := Encode(item) + rest;
    match item
    case Str(data) =>
      if |data| == 1 && data[0] < 0x80 {
        assert input[1..] == rest && data == [input[0]];
      } else {
        PrefixRoundTrip(data, 0x80, rest);
        assert input == LengthPrefix(|data|, 0x80) + data + rest;
      }
    case List(items) =>
      var payload := Concat(EncodeAll(items));
      PrefixRoundTrip(payload, 0xc0, rest);
      DecodeEncodeAll(items);
      assert input == LengthPrefix(|payload|, 0xc0) + payload + rest;
  }

  lemma {:induction false} DecodeEncodeAll(items: seq<Item>)
    requires FitsAll(items)
    ensures DecodeAll(Concat(EncodeAll(items))) == Some(items)
    decreases items, 1
  {
    hide Encode, Decode;
    if items != [] {
      var rest := Concat(EncodeAll(items[1..]));
      assert EncodeAll(items)[1..] == EncodeAll(items[1..]);
      DecodeEncode(items[0], rest);
      DecodeEncodeAll(items[1..]);
      assert items == [items[0]] + items[1..];
    }
  }

  /** Encodings are prefix-free: no item's encoding begins another's, so concatenations split one way. */
  lemma EncodingsPrefixFree(a: Item, b: Item, x: bytes, y: bytes)
    requires Fits(a) && Fits(b)
    requires Encode(a) + x == Encode(b) + y
    ensures a == b && x == y
  {
    DecodeEncode(a, x);
    DecodeEncode(b, y);
  }

  /** Conversely, everything the decoder accepts is an encoding the contract would produce. */
  lemma PayloadIsPrefixed(input: bytes, offset: byte)
    requires (offset == 0x80 || offset == 0xc0) && input != [] && offset <= input[0] <= offset + 63
    requires TakePayload(input, offset).Some? && |input| < U64_LIMIT
    ensures var (payload, rest) := TakePayload(input, offset).value;
            input == LengthPrefix(|payload|, offset) + payload + rest
  {
    var (payload, rest) := TakePayload(input, offset).value;
    var head := input[0] - offset;
    if head < 56 {
      assert input == [offset + head] + payload + rest;
    } else {
      var lenBytes := input[1..1 + head - 55];
      TwoToThe64();
      MinimalBytesSpec(|payload|, 8);
      LeadingByteUnique(lenBytes, MinimalBytes(|payload|, 8));
      assert input == [input[0]] + lenBytes + payload + rest;
    }
  }

  lemma {:induction false} EncodeDecode(input: bytes)
    requires |input| < U64_LIMIT && Decode(input).Some?
    ensures var (item, rest) := Decode(input).value; input == Encode(item) + rest && Fits(item)
    decreases |input|, 0
  {
    var (item, rest) := Decode(input).value;
    if input[0] < 0x80 {
      assert input == [input[0]] + rest;
    } else if input[0] < 0xc0 {
      PayloadIsPrefixed(input, 0x80);
    } else {
      PayloadIsPrefixed(input, 0xc0);
      EncodeDecodeAll(TakePayload(input, 0xc0).value.0);
    }
  }

  lemma {:induction false} EncodeDecodeAll(payload: bytes)
    requires |payload| < U64_LIMIT && DecodeAll(payload).Some?
    ensures Concat(EncodeAll(DecodeAll(payload).value)) == payload && FitsAll(DecodeAll(payload).value)
    decreases |payload|, 1
  {
    if payload != [] {
      EncodeDecode(payload);
      var (item, rest) := Decode(payload).value;
      EncodeDecodeAll(rest);
      var items := DecodeAll(rest).value;
      assert ([item] + items)[1..] == items;
      assert EncodeAll([item] + items)[1..] == EncodeAll(items);
    }
  }
}
