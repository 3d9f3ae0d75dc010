/** The EIP-712 digest of an EIP-3009 transfer authorization, and what it commits to. */
module Eip3009 {
  import opened Basics
  import opened Text
  import opened ByteOrder
  import opened Library

  datatype Authorization = Authorization(
    domainName: string,
    domainVersion: string,
    chainId: nat,
    token: bytes,
    from: bytes,
    to: bytes,
    value: nat,
    validAfter: nat,
    validBefore: nat,
    nonce: bytes)
  {
    predicate Valid() {
      chainId < U64_LIMIT && value < U128_LIMIT && validAfter < U64_LIMIT && validBefore < U64_LIMIT &&
      |token| == 20 && |from| == 20 && |to| == 20 && |nonce| == 32
    }
  }

  const DOMAIN_TYPE := "EIP712Domain(string name,string version,uint256 chainId,address verifyingContract)"
  const TRANSFER_TYPE := "TransferWithAuthorization(address from,address to,uint256 value,uint256 validAfter,uint256 validBefore,bytes32 nonce)"

  function Zeroes(n: nat): (out: bytes)
    ensures |out| == n
  {
    seq(n, i => 0)
  }

  /** `abi_encode_address`. */
  function AddressWord(address: bytes): bytes {
    Zeroes(12) + address
  }

  /** `abi_encode_u256` of a 128-bit value. */
  function UintWord(n: nat): (word: bytes)
    ensures |word| == 32
  {
    Zeroes(16) + BigEndian(n, 16)
  }

  function DomainBytes(p: Platform, a: Authorization): bytes {
    p.keccak256(p.utf8Bytes(DOMAIN_TYPE)) +
    (p.keccak256(p.utf8Bytes(a.domainName)) +
     (p.keccak256(p.utf8Bytes(a.domainVersion)) + (UintWord(a.chainId) + AddressWord(a.token))))
  }

  function StructBytes(p: Platform, a: Authorization): bytes {
    p.keccak256(p.utf8Bytes(TRANSFER_TYPE)) +
    (AddressWord(a.from) + (AddressWord(a.to) + (UintWord(a.value) + (UintWord(a.validAfter) + (UintWord(a.validBefore) + a.nonce)))))
  }

  /** The bytes `build_eip3009_transfer_auth_hash` hands to the last keccak256. */
  function DigestInput(p: Platform, a: Authorization): bytes {
    [0x19, 0x01] + (p.keccak256(DomainBytes(p, a)) + p.keccak256(StructBytes(p, a)))
  }

  // The memo.

  const EIP3009 := "x402-eip3009:"

  /** `json_u64`. */
  function JsonU64(v: Json): Option<nat> {
    if v.AsU64().Some? then Checked(v.AsU64().value, U64_LIMIT) else
      var text :- v.AsStr();
      ParseUnsigned(text, U64_LIMIT)
  }

  /** `parse_eip3009_memo` and the three addresses: the authorization for a chain, recipient and amount. */
  function FromMemo(p: Platform, memo: string, chainId: nat, to: string, amount: nat): Option<Authorization>
    requires StartsWith(memo, EIP3009)
  {
    var v :- p.json(p.utf8Bytes(memo[|EIP3009|..]));
    var fromText :- StringField(v, "from");
    var tokenText :- StringField(v, "token");
    var afterField :- v.Get("validAfter");
    var validAfter :- JsonU64(afterField);
    var beforeField :- v.Get("validBefore");
    var validBefore :- JsonU64(beforeField);
    var nonceText :- StringField(v, "nonce");
    var nonce :- HexDecode(StripHexPrefix(nonceText));
    if |nonce| != 32 then None else
      var payTo :- EvmAddress(to);
      var token :- EvmAddress(tokenText);
      var from :- EvmAddress(fromText);
      Some(Authorization(StringField(v, "domainName").UnwrapOr("USD Coin"), StringField(v, "domainVersion").UnwrapOr("2"),
                         chainId, token, from, payTo, amount, validAfter, validBefore, nonce))
  }

  /** A field holds an unsigned number of 64 bits, as a number or in a string. */
  predicate SaysU64(v: Json, key: string, n: nat) {
    n < U64_LIMIT &&
    match v.Get(key)
    case Some(Number(_, value)) => value == Some(n)
    case Some(String(text)) => ParseUnsigned(text, U64_LIMIT) == Some(n)
    case _ => false
  }

  /** The memo's JSON names the authorization's token, sender, window and nonce, and its domain or the defaults. */
  ghost predicate MemoSays(v: Json, a: Authorization) {
    (exists text :: v.Get("from") == Some(String(text)) && EvmAddress(text) == Some(a.from)) &&
    (exists text :: v.Get("token") == Some(String(text)) && EvmAddress(text) == Some(a.token)) &&
    (exists text :: v.Get("nonce") == Some(String(text)) && HexDecode(StripHexPrefix(text)) == Some(a.nonce)) && |a.nonce| == 32 &&
    SaysU64(v, "validAfter", a.validAfter) && SaysU64(v, "validBefore", a.validBefore) &&
    a.domainName == (match v.Get("domainName") case Some(String(name)) => name case _ => "USD Coin") &&
    a.domainVersion == (match v.Get("domainVersion") case Some(String(version)) => version case _ => "2")
  }

  lemma U64Iff(v: Json, key: string, n: nat)
    ensures v.Get(key).Some? && JsonU64(v.Get(key).value) == Some(n) <==> SaysU64(v, key, n)
  {
    hide Lookup, ParseUnsigned;
    if v.Get(key).Some? {
      UnsignedBelow(v.Get(key).value);
    }
  }

  /** A memo gives an authorization exactly when its JSON says it, for the given chain, recipient and amount. */
  lemma FromMemoExact(p: Platform, memo: string, chainId: nat, to: string, amount: nat, a: Authorization)
    requires StartsWith(memo, EIP3009)
    ensures FromMemo(p, memo, chainId, to, amount) == Some(a) <==>
            a.chainId == chainId && a.value == amount && EvmAddress(to) == Some(a.to) &&
            p.json(p.utf8Bytes(memo[|EIP3009|..])).Some? && MemoSays(p.json(p.utf8Bytes(memo[|EIP3009|..])).value, a)
  {
    hide HexDecode, StripHexPrefix, EvmAddress, ParseUnsigned, Lookup, JsonU64, SaysU64;
    if p.json(p.utf8Bytes(memo[|EIP3009|..])).Some? {
      var v := p.json(p.utf8Bytes(memo[|EIP3009|..])).value;
      U64Iff(v, "validAfter", a.validAfter);
      U64Iff(v, "validBefore", a.validBefore);
    }
  }

  lemma FromMemoValid(p: Platform, memo: string, chainId: nat, to: string, amount: nat)
    requires StartsWith(memo, EIP3009) && chainId < U64_LIMIT && amount < U128_LIMIT && FromMemo(p, memo, chainId, to, amount).Some?
    ensures FromMemo(p, memo, chainId, to, amount).value.Valid()
  {
    hide HexDecode, StripHexPrefix, EvmAddress, ParseUnsigned;
    var v := p.json(p.utf8Bytes(memo[|EIP3009|..])).value;
    UnsignedBelow(v.Get("validAfter").value);
    UnsignedBelow(v.Get("validBefore").value);
  }

  lemma UnsignedBelow(v: Json)
    ensures JsonU64(v).Some? ==> JsonU64(v).value < U64_LIMIT
  {
  }

  // What the digest commits to.

  ghost predicate Hashes32(p: Platform) {
    forall b: bytes :: |p.keccak256(b)| == 32
  }

  lemma UintWordInjective(m: nat, n: nat)
    requires m < U128_LIMIT && n < U128_LIMIT && UintWord(m) == UintWord(n)
    ensures m == n
  {
    hide BigEndian;
    TwoToThe64();
    assert UintWord(m)[16..] == BigEndian(m, 16) && UintWord(n)[16..] == BigEndian(n, 16);
    BigEndianValue(m, 16);
    BigEndianValue(n, 16);
  }

  lemma AddressWordInjective(a: bytes, b: bytes)
    requires AddressWord(a) == AddressWord(b)
    ensures a == b
  {
    assert AddressWord(a)[12..] == a && AddressWord(b)[12..] == b;
  }

  /** Equal first parts of equal length leave equal rests. */
  lemma CutEqual(a: bytes, x: bytes, b: bytes, y: bytes)
    requires |a| == |b| && a + x == b + y
    ensures a == b && x == y
  {
    assert a == (a + x)[..|a|] && b == (b + y)[..|b|];
    assert x == (a + x)[|a|..] && y == (b + y)[|b|..];
  }

  lemma UintWordValue(n: nat)
    requires n < U128_LIMIT
    ensures FromBigEndian(UintWord(n)) == n
  {
    hide BigEndian, FromBigEndian;
    TwoToThe64();
    FromBigEndianZeros(UintWord(n), 16);
    assert UintWord(n)[16..] == BigEndian(n, 16);
    BigEndianValue(n, 16);
  }

  /** The seven words of the struct, in the order of its type. */
  lemma StructLayout(p: Platform, a: Authorization)
    requires Hashes32(p) && a.Valid()
    ensures var b := StructBytes(p, a);
            |b| == 7 * 32 &&
            b[..32] == p.keccak256(p.utf8Bytes(
              "TransferWithAuthorization(address from,address to,uint256 value,uint256 validAfter,uint256 validBefore,bytes32 nonce)")) &&
            b[32..64] == Zeroes(12) + a.from && b[64..96] == Zeroes(12) + a.to &&
            FromBigEndian(b[96..128]) == a.value && FromBigEndian(b[128..160]) == a.validAfter &&
            FromBigEndian(b[160..192]) == a.validBefore && b[192..] == a.nonce
  {
    hide UintWord, FromBigEndian;
    UintWordValue(a.value);
    UintWordValue(a.validAfter);
    UintWordValue(a.validBefore);
    var b := StructBytes(p, a);
    assert b[96..128] == UintWord(a.value) && b[128..160] == UintWord(a.validAfter) && b[160..192] == UintWord(a.validBefore);
    assert b[..32] == p.keccak256(p.utf8Bytes(TRANSFER_TYPE));
  }

  /** The five words of the domain. */
  lemma DomainLayout(p: Platform, a: Authorization)
    requires Hashes32(p) && a.Valid()
    ensures var b := DomainBytes(p, a);
            |b| == 5 * 32 &&
            b[..32] == p.keccak256(p.utf8Bytes("EIP712Domain(string name,string version,uint256 chainId,address verifyingContract)")) &&
            b[32..64] == p.keccak256(p.utf8Bytes(a.domainName)) && b[64..96] == p.keccak256(p.utf8Bytes(a.domainVersion)) &&
            FromBigEndian(b[96..128]) == a.chainId && b[128..] == Zeroes(12) + a.token
  {
    hide UintWord, FromBigEndian;
    UintWordValue(a.chainId);
    var b := DomainBytes(p, a);
    assert b[96..128] == UintWord(a.chainId);
    assert b[..32] == p.keccak256(p.utf8Bytes(DOMAIN_TYPE));
  }

  lemma DomainInjective(p: Platform, a: Authorization, b: Authorization)
    requires Hashes32(p) && a.Valid() && b.Valid() && DomainBytes(p, a) == DomainBytes(p, b)
    ensures a.chainId == b.chainId && a.token == b.token
    ensures p.keccak256(p.utf8Bytes(a.domainName)) == p.keccak256(p.utf8Bytes(b.domainName))
    ensures p.keccak256(p.utf8Bytes(a.domainVersion)) == p.keccak256(p.utf8Bytes(b.domainVersion))
  {
    hide UintWord, AddressWord;
    var t := p.keccak256(p.utf8Bytes(DOMAIN_TYPE));
    var na, nb := p.keccak256(p.utf8Bytes(a.domainName)), p.keccak256(p.utf8Bytes(b.domainName));
    var va, vb := p.keccak256(p.utf8Bytes(a.domainVersion)), p.keccak256(p.utf8Bytes(b.domainVersion));
    var wa, wb := UintWord(a.chainId) + AddressWord(a.token), UintWord(b.chainId) + AddressWord(b.token);
    CutEqual(t, na + (va + wa), t, nb + (vb + wb));
    CutEqual(na, va + wa, nb, vb + wb);
    CutEqual(va, wa, vb, wb);
    CutEqual(UintWord(a.chainId), AddressWord(a.token), UintWord(b.chainId), AddressWord(b.token));
    UintWordInjective(a.chainId, b.chainId);
    AddressWordInjective(a.token, b.token);
  }

  lemma StructInjective(p: Platform, a: Authorization, b: Authorization)
    requires Hashes32(p) && a.Valid() && b.Valid() && StructBytes(p, a) == StructBytes(p, b)
    ensures a.from == b.from && a.to == b.to && a.value == b.value && a.nonce == b.nonce
    ensures a.validAfter == b.validAfter && a.validBefore == b.validBefore
  {
    hide UintWord, AddressWord;
    AddressWidths(a);
    AddressWidths(b);
    var t := p.keccak256(p.utf8Bytes(TRANSFER_TYPE));
    var a5, b5 := UintWord(a.validBefore) + a.nonce, UintWord(b.validBefore) + b.nonce;
    var a4, b4 := UintWord(a.validAfter) + a5, UintWord(b.validAfter) + b5;
    var a3, b3 := UintWord(a.value) + a4, UintWord(b.value) + b4;
    var a2, b2 := AddressWord(a.to) + a3, AddressWord(b.to) + b3;
    CutEqual(t, AddressWord(a.from) + a2, t, AddressWord(b.from) + b2);
    CutEqual(AddressWord(a.from), a2, AddressWord(b.from), b2);
    CutEqual(AddressWord(a.to), a3, AddressWord(b.to), b3);
    CutEqual(UintWord(a.value), a4, UintWord(b.value), b4);
    CutEqual(UintWord(a.validAfter), a5, UintWord(b.validAfter), b5);
    CutEqual(UintWord(a.validBefore), a.nonce, UintWord(b.validBefore), b.nonce);
    AddressWordInjective(a.from, b.from);
    AddressWordInjective(a.to, b.to);
    UintWordInjective(a.value, b.value);
    UintWordInjective(a.validAfter, b.validAfter);
    UintWordInjective(a.validBefore, b.validBefore);
  }

  lemma AddressWidths(a: Authorization)
    requires a.Valid()
    ensures |AddressWord(a.from)| == |AddressWord(a.to)| == 32
  {
  }

  /**
   Two authorizations with one digest preimage agree in chain, token, sender, recipient, value,
   validity window and nonce, unless their inner preimages collide under the hash.
   */
  lemma AuthorizationInjective(p: Platform, a: Authorization, b: Authorization)
    requires Hashes32(p) && a.Valid() && b.Valid() && DigestInput(p, a) == DigestInput(p, b)
    requires p.keccak256(DomainBytes(p, a)) == p.keccak256(DomainBytes(p, b)) ==> DomainBytes(p, a) == DomainBytes(p, b)
    requires p.keccak256(StructBytes(p, a)) == p.keccak256(StructBytes(p, b)) ==> StructBytes(p, a) == StructBytes(p, b)
    ensures a.(domainName := b.domainName, domainVersion := b.domainVersion) == b
    ensures p.keccak256(p.utf8Bytes(a.domainName)) == p.keccak256(p.utf8Bytes(b.domainName))
    ensures p.keccak256(p.utf8Bytes(a.domainVersion)) == p.keccak256(p.utf8Bytes(b.domainVersion))
  {
    hide DomainBytes, StructBytes;
    var da, db := p.keccak256(DomainBytes(p, a)), p.keccak256(DomainBytes(p, b));
    var sa, sb := p.keccak256(StructBytes(p, a)), p.keccak256(StructBytes(p, b));
    CutEqual([0x19, 0x01], da + sa, [0x19, 0x01], db + sb);
    CutEqual(da, sa, db, sb);
    DomainInjective(p, a, b);
    StructInjective(p, a, b);
  }
}
