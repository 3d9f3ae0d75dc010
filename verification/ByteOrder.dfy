/** Fixed-width integers as byte strings, most or least significant byte first. */
module ByteOrder {
  import opened Basics

  /** `to_be_bytes` of an unsigned integer of the given width; wider values are truncated. */
  function BigEndian(value: nat, width: nat): (out: bytes)
    ensures |out| == width
  {
    if width == 0 then [] else BigEndian(value / 256, width - 1) + [value % 256]
  }

  function FromBigEndian(data: bytes): nat {
    if data == [] then 0 else 256 * FromBigEndian(data[..|data| - 1]) + data[|data| - 1]
  }

  lemma {:induction false} FromBigEndianZeros(data: bytes, n: nat)
    requires n <= |data| && forall j :: 0 <= j < n ==> data[j] == 0
    ensures FromBigEndian(data[n..]) == FromBigEndian(data)
  {
    if n < |data| {
      FromBigEndianZeros(data[..|data| - 1], n);
      assert data[n..][..|data| - n - 1] == data[..|data| - 1][n..];
    } else if n > 0 {
      FromBigEndianZeros(data[..|data| - 1], n - 1);
      assert data[..|data| - 1][n - 1..] == [] && data[n..] == [];
    }
  }

  lemma {:induction false} BigEndianValue(value: nat, width: nat)
    requires value < Pow(256, width)
    ensures FromBigEndian(BigEndian(value, width)) == value
  {
    if width > 0 {
      BigEndianValue(value / 256, width - 1);
      assert BigEndian(value, width)[..width - 1] == BigEndian(value / 256, width - 1);
    }
  }

  lemma {:induction false} FromBigEndianBound(data: bytes)
    ensures FromBigEndian(data) < Pow(256, |data|)
    ensures data != [] && data[0] != 0 ==> FromBigEndian(data) > 0
  {
    if |data| == 1 {
      assert data[..0] == [];
    } else if data != [] {
      FromBigEndianBound(data[..|data| - 1]);
    }
  }

  /** A byte string without a leading zero is determined by the number it denotes. */
  lemma {:induction false} LeadingByteUnique(a: bytes, b: bytes)
    requires FromBigEndian(a) == FromBigEndian(b)
    requires (a != [] ==> a[0] != 0) && (b != [] ==> b[0] != 0)
    ensures a == b
  {
    FromBigEndianBound(a);
    FromBigEndianBound(b);
    if a != [] && b != [] {
      var x, y := a[..|a| - 1], b[..|b| - 1];
      assert a[|a| - 1] == b[|b| - 1] && FromBigEndian(x) == FromBigEndian(y);
      LeadingByteUnique(x, y);
      assert a == x + [a[|a| - 1]] && b == y + [b[|b| - 1]];
    }
  }

  lemma TwoToThe64()
    ensures Pow(256, 8) == U64_LIMIT && Pow(256, 16) == U128_LIMIT
  {
  }

  // Least significant byte first, as Borsh and Solana write integers.

  /** `to_le_bytes`. */
  function LittleEndian(value: nat, width: nat): (out: bytes)
    ensures |out| == width
  {
    if width == 0 then [] else [value % 256] + LittleEndian(value / 256, width - 1)
  }

  /** `from_le_bytes`. */
  function FromLittleEndian(data: bytes): nat {
    if data == [] then 0 else data[0] + 256 * FromLittleEndian(data[1..])
  }

  lemma {:induction false} LittleEndianRoundTrip(value: nat, width: nat)
    requires value < Pow(256, width)
    ensures FromLittleEndian(LittleEndian(value, width)) == value
  {
    if width > 0 {
      LittleEndianRoundTrip(value / 256, width - 1);
      assert LittleEndian(value, width)[1..] == LittleEndian(value / 256, width - 1);
    }
  }

  lemma {:induction false} FromLittleEndianBound(data: bytes)
    ensures FromLittleEndian(data) < Pow(256, |data|)
  {
    if data != [] {
      FromLittleEndianBound(data[1..]);
    }
  }

  lemma {:induction false} FromLittleEndianRoundTrip(data: bytes)
    ensures LittleEndian(FromLittleEndian(data), |data|) == data
  {
    if data != [] {
      FromLittleEndianRoundTrip(data[1..]);
      var v := FromLittleEndian(data);
      assert v % 256 == data[0] && v / 256 == FromLittleEndian(data[1..]);
      assert data == [data[0]] + data[1..];
    }
  }

  /** A wide little-endian integer is its low half plus its shifted high half. */
  lemma {:induction false} FromLittleEndianSplit(lo: bytes, hi: bytes)
    ensures FromLittleEndian(lo + hi) == FromLittleEndian(lo) + Pow(256, |lo|) * FromLittleEndian(hi)
  {
    if lo == [] {
      assert lo + hi == hi;
    } else {
      assert (lo + hi)[1..] == lo[1..] + hi;
      FromLittleEndianSplit(lo[1..], hi);
      MulAssoc(256, Pow(256, |lo| - 1), FromLittleEndian(hi));
    }
  }
}
