/**
 The contract's payload readers. Each function reads from the front of what is left and returns the
 value with the remaining bytes; the class advances a position over the payload, as the contract does.
 */
module ByteReader {
  import opened Basics
  import opened ByteOrder

  const EOF := "unexpected eof"

  function ReadU8(input: bytes): Result<(byte, bytes)> {
    if input == [] then Err(EOF) else Ok((input[0], input[1..]))
  }

  function ReadBytes(input: bytes, len: nat): Result<(bytes, bytes)> {
    if |input| < len then Err(EOF) else Ok((input[..len], input[len..]))
  }

  /** `read_u32_le` and `read_u64_le`, at widths 4 and 8. */
  function ReadUint(input: bytes, width: nat): Result<(nat, bytes)> {
    if |input| < width then Err(EOF) else Ok((FromLittleEndian(input[..width]), input[width..]))
  }

  function ReadU128(input: bytes): Result<(nat, bytes)> {
    var (lo, mid) :- ReadUint(input, 8);
    var (hi, rest) :- ReadUint(mid, 8);
    Ok((lo + U64_LIMIT * hi, rest))
  }

  /**
   `read_shortvec` on 32-bit wasm: seven bits a byte, low bits first, at most five bytes. Shifting the
   fifth group left by 28 drops what does not fit in 32 bits.
   */
  function ReadShortvecFrom(input: bytes, shift: nat, sofar: nat): Result<(nat, bytes)>
    decreases |input|
  {
    var (b, rest) :- ReadU8(input);
    var value := sofar + ((b % 128) * Pow(2, shift)) % U32_LIMIT;
    if b < 128 then Ok((value, rest))
    else if shift + 7 > 28 then Err("shortvec overflow")
    else ReadShortvecFrom(rest, shift + 7, value)
  }

  function ReadShortvec(input: bytes): Result<(nat, bytes)> {
    ReadShortvecFrom(input, 0, 0)
  }

  // What each reader accepts.

  lemma ReadU8Exact(input: bytes, value: byte, rest: bytes)
    ensures ReadU8(input) == Ok((value, rest)) <==> input == [value] + rest
  {
    assert input != [] ==> input == [input[0]] + input[1..];
  }

  lemma ReadBytesExact(input: bytes, len: nat, data: bytes, rest: bytes)
    ensures ReadBytes(input, len) == Ok((data, rest)) <==> |data| == len && input == data + rest
  {
    assert len <= |input| ==> input == input[..len] + input[len..];
    if |data| == len && input == data + rest {
      assert input[..len] == data && input[len..] == rest;
    }
  }

  lemma ReadUintExact(input: bytes, width: nat, value: nat, rest: bytes)
    ensures ReadUint(input, width) == Ok((value, rest)) <==>
            value < Pow(256, width) && input == LittleEndian(value, width) + rest
  {
    if width <= |input| {
      assert input == input[..width] + input[width..];
      FromLittleEndianBound(input[..width]);
      FromLittleEndianRoundTrip(input[..width]);
    }
    if value < Pow(256, width) && input == LittleEndian(value, width) + rest {
      LittleEndianRoundTrip(value, width);
      assert input[..width] == LittleEndian(value, width) && input[width..] == rest;
    }
  }

  lemma ReadU128Exact(input: bytes, value: nat, rest: bytes)
    ensures ReadU128(input) == Ok((value, rest)) <==>
            value < U128_LIMIT && input == LittleEndian(value, 16) + rest
  {
    hide Pow, FromLittleEndian, LittleEndian;
    TwoToThe64();
    ReadUintExact(input, 16, value, rest);
    if 16 <= |input| {
      var lo, hi := input[..8], input[8..16];
      FromLittleEndianSplit(lo, hi);
      assert lo + hi == input[..16];
      assert input[8..][..8] == hi && input[8..][8..] == input[16..];
      assert ReadU128(input) == Ok((FromLittleEndian(lo) + U64_LIMIT * FromLittleEndian(hi), input[16..]));
      assert ReadU128(input) == ReadUint(input, 16);
    }
  }

  // Compact lengths.

  /** Any number of continuation bytes, then one byte below 128. */
  predicate Continued(sp: bytes) {
    sp != [] && sp[|sp| - 1] < 128 && forall i :: 0 <= i < |sp| - 1 ==> sp[i] >= 128
  }

  lemma ContinuedCons(b: byte, sp: bytes)
    requires b >= 128 && Continued(sp)
    ensures Continued([b] + sp) && Groups([b] + sp) == b % 128 + 128 * Groups(sp)
  {
    assert ([b] + sp)[1..] == sp;
  }

  /** The base-128 number such bytes denote, low group first. */
  function Groups(sp: bytes): nat {
    if sp == [] then 0 else sp[0] % 128 + 128 * Groups(sp[1..])
  }

  /** A spelling of a compact length: at most five bytes, and only 32 bits of them count. */
  predicate Spells(sp: bytes, value: nat) {
    Continued(sp) && |sp| <= 5 && value == Groups(sp) % U32_LIMIT
  }

  lemma ShiftPowers()
    ensures Pow(2, 7) == 128 && Pow(2, 21) == 0x20_0000 && Pow(2, 28) == 0x1000_0000
  {
  }

  /** Adding one group, with the 32-bit shift, stays exact modulo 2^32. */
  lemma AddGroup(group: nat, shift: nat, sofar: nat)
    requires group < 128 && shift % 7 == 0 && shift <= 28 && sofar < Pow(2, shift)
    ensures sofar + (group * Pow(2, shift)) % U32_LIMIT == (sofar + group * Pow(2, shift)) % U32_LIMIT
    ensures shift < 28 ==> sofar + group * Pow(2, shift) < Pow(2, shift + 7)
    ensures shift < 28 ==> sofar + (group * Pow(2, shift)) % U32_LIMIT == sofar + group * Pow(2, shift)
  {
    hide Pow;
    ShiftPowers();
    PowAdd(2, shift, 7);
    var p := Pow(2, shift);
    if shift < 28 {
      PowMonotone(2, shift, 21);
      MulDistrib(128 - group, group, p);
      MulPositive(128 - group, p);
    }
  }

  lemma ShiftGroups(group: nat, tail: nat, p: nat)
    ensures (group + 128 * tail) * p == group * p + tail * (p * 128)
  {
    MulDistrib(group, 128 * tail, p);
    MulAssoc(tail, 128, p);
  }

  /** Reading a spelling from a given group on adds what the remaining groups weigh. */
  lemma {:induction false} ReadSpelling(sp: bytes, rest: bytes, shift: nat, sofar: nat)
    requires Continued(sp)
    requires shift % 7 == 0 && shift + 7 * |sp| <= 35 && sofar < Pow(2, shift)
    ensures ReadShortvecFrom(sp + rest, shift, sofar) == Ok(((sofar + Groups(sp) * Pow(2, shift)) % U32_LIMIT, rest))
  {
    hide Pow;
    var input, group, p := sp + rest, sp[0] % 128, Pow(2, shift);
    assert input[0] == sp[0] && input[1..] == sp[1..] + rest;
    AddGroup(group, shift, sofar);
    if |sp| == 1 {
      assert sp[1..] == [] && Groups([]) == 0;
    } else {
      ShiftGroups(group, Groups(sp[1..]), p);
      PowAdd(2, shift, 7);
      ShiftPowers();
      ReadSpelling(sp[1..], rest, shift + 7, sofar + group * p);
    }
  }

  /** Whatever the reader consumes is a spelling of the value it returns. */
  lemma {:induction false} ReadIsSpelling(input: bytes, shift: nat, sofar: nat) returns (sp: bytes)
    requires shift % 7 == 0 && shift <= 28 && ReadShortvecFrom(input, shift, sofar).Ok?
    ensures Continued(sp)
    ensures shift + 7 * |sp| <= 35 && input == sp + ReadShortvecFrom(input, shift, sofar).value.1
    decreases |input|
  {
    var b := input[0];
    if b < 128 {
      sp := [b];
    } else {
      var more := ReadIsSpelling(input[1..], shift + 7, sofar + ((b % 128) * Pow(2, shift)) % U32_LIMIT);
      sp := [b] + more;
    }
  }

  /** A compact length is read exactly when the input starts with one of its spellings. */
  lemma ReadShortvecExact(input: bytes, value: nat, rest: bytes)
    ensures ReadShortvec(input) == Ok((value, rest)) <==> exists sp: bytes :: Spells(sp, value) && input == sp + rest
  {
    if ReadShortvec(input) == Ok((value, rest)) {
      var sp := ReadIsSpelling(input, 0, 0);
      ReadSpelling(sp, rest, 0, 0);
      assert Spells(sp, value) && input == sp + rest;
    }
    forall sp: bytes | Spells(sp, value) && input == sp + rest
      ensures ReadShortvec(input) == Ok((value, rest))
    {
      ReadSpelling(sp, rest, 0, 0);
    }
  }

  /** The encoder that wallets and the contract's tests use: the shortest spelling. */
  function EncodeShortvec(value: nat): bytes {
    if value < 128 then [value] else [128 + value % 128] + EncodeShortvec(value / 128)
  }

  lemma {:induction false} EncodeShortvecGroups(value: nat, groups: nat)
    requires groups > 0 && value < Pow(128, groups)
    ensures var sp := EncodeShortvec(value);
            Continued(sp) && |sp| <= groups && Groups(sp) == value
  {
    hide Continued;
    if value >= 128 {
      assert Pow(128, groups) == 128 * Pow(128, groups - 1);
      assert Pow(128, 0) == 1;
      EncodeShortvecGroups(value / 128, groups - 1);
      ContinuedCons(128 + value % 128, EncodeShortvec(value / 128));
    } else {
      LastGroup(value);
    }
  }

  lemma LastGroup(value: byte)
    requires value < 128
    ensures Continued([value]) && Groups([value]) == value
  {
    assert [value][1..] == [] && Groups([]) == 0;
  }

  /** Encoding then reading is the identity on all 32-bit lengths. */
  lemma ShortvecRoundTrip(value: nat, rest: bytes)
    requires value < U32_LIMIT
    ensures ReadShortvec(EncodeShortvec(value) + rest) == Ok((value, rest))
  {
    assert Pow(128, 5) == 0x8_0000_0000;
    EncodeShortvecGroups(value, 5);
    assert Spells(EncodeShortvec(value), value);
    ReadShortvecExact(EncodeShortvec(value) + rest, value, rest);
  }

  // The reader as the contract runs it.

  class Reader {
    const data: bytes
    var pos: nat

    ghost predicate Valid()
      reads this
    {
      pos <= |data|
    }

    ghost function Rest(): bytes
      reads this
      requires Valid()
    {
      data[pos..]
    }

    constructor (data: bytes)
      ensures Valid() && this.data == data && Rest() == data && pos == 0
    {
      this.data := data;
      pos := 0;
    }

    /** A read that returned `r` did what the function specifies: on success the rest is left. */
    ghost predicate Did<T>(spec: Result<(T, bytes)>, r: Result<T>)
      reads this
    {
      Valid() &&
      match spec
      case Ok((value, rest)) => r == Ok(value) && Rest() == rest
      case Err(error) => r == Err(error)
    }

    method U8() returns (r: Result<byte>)
      requires Valid()
      modifies this
      ensures Did(ReadU8(old(Rest())), r)
    {
      if pos >= |data| {
        return Err(EOF);
      }
      var value := data[pos];
      pos := pos + 1;
      return Ok(value);
    }

    method Bytes(len: nat) returns (r: Result<bytes>)
      requires Valid()
      modifies this
      ensures Did(ReadBytes(old(Rest()), len), r)
    {
      if |data| - pos < len {
        return Err(EOF);
      }
      var start := pos;
      pos := pos + len;
      assert data[start..][..len] == data[start..pos];
      return Ok(data[start..pos]);
    }

    method Uint(width: nat) returns (r: Result<nat>)
      requires Valid()
      modifies this
      ensures Did(ReadUint(old(Rest()), width), r)
    {
      if pos + width > |data| {
        return Err(EOF);
      }
      var value := FromLittleEndian(data[pos..pos + width]);
      assert data[pos..][..width] == data[pos..pos + width];
      pos := pos + width;
      return Ok(value);
    }

    method U128() returns (r: Result<nat>)
      requires Valid()
      modifies this
      ensures Did(ReadU128(old(Rest())), r)
    {
      var lo :- Uint(8);
      var hi :- Uint(8);
      return Ok(lo + U64_LIMIT * hi);
    }

    method Shortvec() returns (r: Result<nat>)
      requires Valid()
      modifies this
      ensures Did(ReadShortvec(old(Rest())), r)
    {
      var result: nat, shift: nat := 0, 0;
      while true
        invariant Valid()
        invariant ReadShortvecFrom(Rest(), shift, result) == ReadShortvec(old(Rest()))
        decreases |data| - pos
      {
        var b :- U8();
        result := result + ((b % 128) * Pow(2, shift)) % U32_LIMIT;
        if b < 128 {
          return Ok(result);
        }
        shift := shift + 7;
        if shift > 28 {
          return Err("shortvec overflow");
        }
      }
    }
  }
}
