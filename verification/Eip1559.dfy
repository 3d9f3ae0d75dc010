/** The EIP-1559 signing preimage the contract hashes, and what can be read back from it. */
module Eip1559 {
  import opened Basics
  import opened ByteOrder
  import opened Rlp

  datatype Transaction = Transaction(
    chainId: nat,
    nonce: nat,
    maxPriorityFee: nat,
    maxFee: nat,
    gasLimit: nat,
    to: bytes,
    value: nat,
    data: bytes)
  {
    /** The machine types of `build_evm_tx_hash`: u64, u128, a 20-byte address, a 32-bit length. */
    predicate Valid() {
      chainId < U64_LIMIT && nonce < U64_LIMIT && gasLimit < U64_LIMIT &&
      maxPriorityFee < U128_LIMIT && maxFee < U128_LIMIT && value < U128_LIMIT &&
      |to| == 20 && |data| < U32_LIMIT
    }
  }

  /** The bytes `build_evm_tx_hash` hands to keccak256. */
  function Envelope(tx: Transaction): bytes {
    [0x02] + EncodeList([
      EncodeUint(tx.chainId, 8),
      EncodeUint(tx.nonce, 8),
      EncodeUint(tx.maxPriorityFee, 16),
      EncodeUint(tx.maxFee, 16),
      EncodeUint(tx.gasLimit, 8),
      EncodeBytes(tx.to),
      EncodeUint(tx.value, 16),
      EncodeBytes(tx.data),
      EncodeList([])])
  }

  /** The transaction as an RLP item: nine fields, the last an empty access list. */
  function Fields(tx: Transaction): seq<Item> {
    [Str(IntegerBytes(tx.chainId, 8)), Str(IntegerBytes(tx.nonce, 8)),
     Str(IntegerBytes(tx.maxPriorityFee, 16)), Str(IntegerBytes(tx.maxFee, 16)),
     Str(IntegerBytes(tx.gasLimit, 8)), Str(tx.to), Str(IntegerBytes(tx.value, 16)),
     Str(tx.data), List([])]
  }

  function FromFields(f: seq<Item>): Option<Transaction> {
    if |f| == 9 && (forall i :: 0 <= i < 8 ==> f[i].Str?) && f[8] == List([]) then
      Some(Transaction(FromBigEndian(f[0].data), FromBigEndian(f[1].data), FromBigEndian(f[2].data),
                       FromBigEndian(f[3].data), FromBigEndian(f[4].data), f[5].data,
                       FromBigEndian(f[6].data), f[7].data))
    else None
  }

  /** Reads a type-2 envelope back into the transaction it commits to. */
  function ReadEnvelope(envelope: bytes): Option<Transaction> {
    if envelope == [] || envelope[0] != 0x02 then None else
      var (item, rest) :- Decode(envelope[1..]);
      if rest != [] || item.Str? then None else FromFields(item.items)
  }

  lemma IntegerRoundTrip(value: nat, width: nat)
    requires width == 8 || width == 16
    requires value < Pow(256, width)
    ensures FromBigEndian(IntegerBytes(value, width)) == value && |IntegerBytes(value, width)| <= width
  {
    if value > 0 {
      MinimalBytesSpec(value, width);
    }
  }

  lemma {:induction false} ConcatSplit(a: seq<bytes>, b: seq<bytes>)
    ensures Concat(a + b) == Concat(a) + Concat(b)
  {
    if a == [] {
      assert a + b == b;
    } else {
      assert (a + b)[1..] == a[1..] + b;
      ConcatSplit(a[1..], b);
    }
  }

  lemma {:induction false} FitsElementwise(items: seq<Item>)
    requires forall i :: 0 <= i < |items| ==> Fits(items[i])
    ensures FitsAll(items)
  {
    if items != [] {
      FitsElementwise(items[1..]);
    }
  }

  lemma {:induction false} ConcatBound(items: seq<bytes>, bound: nat)
    requires forall i :: 0 <= i < |items| ==> |items[i]| <= bound
    ensures |Concat(items)| <= |items| * bound
  {
    if items != [] {
      ConcatBound(items[1..], bound);
      MulDistrib(|items| - 1, 1, bound);
    }
  }

  lemma EncodedFields(tx: Transaction)
    ensures Envelope(tx) == [0x02] + Encode(List(Fields(tx)))
  {
    hide EncodeBytes, EncodeList, IntegerBytes, Concat;
    var f := Fields(tx);
    var encoded := [EncodeUint(tx.chainId, 8), EncodeUint(tx.nonce, 8), EncodeUint(tx.maxPriorityFee, 16),
                    EncodeUint(tx.maxFee, 16), EncodeUint(tx.gasLimit, 8), EncodeBytes(tx.to),
                    EncodeUint(tx.value, 16), EncodeBytes(tx.data), EncodeList([])];
    assert EncodeAll([]) == [];
    assert EncodeAll(f) == encoded;
  }

  predicate ShortField(item: Item) {
    item == List([]) || (item.Str? && |item.data| < U32_LIMIT)
  }

  /** The integers of a valid transaction survive their minimal encoding, in at most 16 bytes each. */
  lemma IntegersRoundTrip(tx: Transaction)
    requires tx.Valid()
    ensures forall i :: 0 <= i < 9 ==> ShortField(Fields(tx)[i])
    ensures FromBigEndian(IntegerBytes(tx.chainId, 8)) == tx.chainId
    ensures FromBigEndian(IntegerBytes(tx.nonce, 8)) == tx.nonce
    ensures FromBigEndian(IntegerBytes(tx.maxPriorityFee, 16)) == tx.maxPriorityFee
    ensures FromBigEndian(IntegerBytes(tx.maxFee, 16)) == tx.maxFee
    ensures FromBigEndian(IntegerBytes(tx.gasLimit, 8)) == tx.gasLimit
    ensures FromBigEndian(IntegerBytes(tx.value, 16)) == tx.value
  {
    hide IntegerBytes, FromBigEndian, Pow;
    TwoToThe64();
    IntegerRoundTrip(tx.chainId, 8);
    IntegerRoundTrip(tx.nonce, 8);
    IntegerRoundTrip(tx.maxPriorityFee, 16);
    IntegerRoundTrip(tx.maxFee, 16);
    IntegerRoundTrip(tx.gasLimit, 8);
    IntegerRoundTrip(tx.value, 16);
  }

  lemma FieldsFit(tx: Transaction)
    requires tx.Valid()
    ensures Fits(List(Fields(tx)))
  {
    hide IntegerBytes, FromBigEndian, Concat, FitsAll;
    IntegersRoundTrip(tx);
    var f := Fields(tx);
    forall i | 0 <= i < |f| ensures Fits(f[i]) && |EncodeAll(f)[i]| <= U32_LIMIT + 20 {
      FieldSize(f[i]);
    }
    FitsElementwise(f);
    ConcatBound(EncodeAll(f), U32_LIMIT + 20);
  }

  lemma FieldSize(item: Item)
    requires ShortField(item)
    ensures Fits(item) && |Encode(item)| <= U32_LIMIT + 20
  {
    if item.Str? && |item.data| >= 56 {
      TwoToThe64();
      MinimalBytesSpec(|item.data|, 8);
    }
  }

  lemma FieldsReadBack(tx: Transaction)
    requires tx.Valid()
    ensures FromFields(Fields(tx)) == Some(tx)
  {
    hide IntegerBytes, FromBigEndian;
    IntegersRoundTrip(tx);
  }

  /** Every field can be read back from the preimage, and nothing else is in it. */
  lemma ReadBack(tx: Transaction)
    requires tx.Valid()
    ensures ReadEnvelope(Envelope(tx)) == Some(tx)
  {
    hide Encode, Decode, Envelope, Fields, FromFields;
    EncodedFields(tx);
    FieldsFit(tx);
    FieldsReadBack(tx);
    var item := List(Fields(tx));
    DecodeEncode(item, []);
    assert Envelope(tx)[1..] == Encode(item) + [];
  }

  /** Two transactions with one preimage agree in every field. */
  lemma EnvelopeInjective(a: Transaction, b: Transaction)
    requires a.Valid() && b.Valid() && Envelope(a) == Envelope(b)
    ensures a == b
  {
    ReadBack(a);
    ReadBack(b);
  }
}
