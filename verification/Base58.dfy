/** Base58 text of byte strings (`bs58::encode`): public keys and Solana addresses. */
module Base58 {
  import opened Basics
  import opened ByteOrder

  type digit58 = d: int | 0 <= d < 58

  /** The Bitcoin alphabet: digits and letters without 0, I, O and l. */
  function Symbol(d: digit58): char {
    if d < 9 then (d + '1' as int) as char
    else if d < 17 then (d - 9 + 'A' as int) as char
    else if d < 22 then (d - 17 + 'J' as int) as char
    else if d < 33 then (d - 22 + 'P' as int) as char
    else if d < 44 then (d - 33 + 'a' as int) as char
    else (d - 44 + 'm' as int) as char
  }

  /** The 58 digits and letters that are left without 0, I, O and l. */
  predicate InAlphabet(c: char) {
    ('0' <= c <= '9' || 'A' <= c <= 'Z' || 'a' <= c <= 'z') && c != '0' && c != 'I' && c != 'O' && c != 'l'
  }

  /** The digits are those letters in the order of their codes, and so all of them. */
  lemma SymbolsInOrder(d: digit58, e: digit58)
    ensures InAlphabet(Symbol(d))
    ensures d < e ==> Symbol(d) < Symbol(e)
  {
  }

  function Digits(n: nat): seq<digit58> {
    if n == 0 then [] else Digits(n / 58) + [n % 58]
  }

  function FromDigits(digits: seq<digit58>): nat {
    if digits == [] then 0 else 58 * FromDigits(digits[..|digits| - 1]) + digits[|digits| - 1]
  }

  function Symbols(digits: seq<digit58>): (text: string)
    ensures |text| == |digits|
    ensures forall i :: 0 <= i < |digits| ==> text[i] == Symbol(digits[i])
  {
    seq(|digits|, i requires 0 <= i < |digits| => Symbol(digits[i]))
  }

  function LeadingZeros(data: bytes): (n: nat)
    ensures n <= |data| && forall i :: 0 <= i < n ==> data[i] == 0
    ensures n < |data| ==> data[n] != 0
  {
    if data == [] || data[0] != 0 then 0 else
      var n := LeadingZeros(data[1..]);
      assert forall i :: 1 <= i <= n ==> data[i] == data[1..][i - 1];
      n + 1
  }

  function Ones(n: nat): (text: string)
    ensures |text| == n && forall i :: 0 <= i < n ==> text[i] == '1'
  {
    seq(n, i => '1')
  }

  /** One '1' for each leading zero byte, then the number in base 58. */
  function Encode(data: bytes): string {
    Ones(LeadingZeros(data)) + Symbols(Digits(FromBigEndian(data)))
  }

  lemma {:induction false} DigitsValue(n: nat)
    ensures FromDigits(Digits(n)) == n
    ensures n > 0 ==> Digits(n) != [] && Digits(n)[0] != 0
  {
    if n > 0 {
      DigitsValue(n / 58);
      assert Digits(n)[..|Digits(n)| - 1] == Digits(n / 58);
    }
  }

  lemma SymbolsInjective(a: seq<digit58>, b: seq<digit58>)
    requires Symbols(a) == Symbols(b)
    ensures a == b
  {
    assert |a| == |Symbols(a)| == |b|;
    forall i | 0 <= i < |a| ensures a[i] == b[i] {
      assert Symbols(a)[i] == Symbol(a[i]) && Symbols(b)[i] == Symbol(b[i]);
    }
  }

  /** The bytes after the leading zeros carry the number. */
  lemma Significant(data: bytes) returns (m: bytes)
    ensures data == data[..LeadingZeros(data)] + m
    ensures FromBigEndian(m) == FromBigEndian(data) && (m != [] ==> m[0] != 0)
    ensures (m == []) <==> FromBigEndian(data) == 0
  {
    m := data[LeadingZeros(data)..];
    FromBigEndianZeros(data, LeadingZeros(data));
    FromBigEndianBound(m);
  }

  /** The text starts with exactly one '1' for each leading zero byte. */
  lemma LeadingOnes(data: bytes)
    ensures var s, z := Encode(data), LeadingZeros(data);
            z <= |s| && (forall i :: 0 <= i < z ==> s[i] == '1') && (z < |s| ==> s[z] != '1') &&
            s[z..] == Symbols(Digits(FromBigEndian(data)))
  {
    hide FromBigEndian;
    DigitsValue(FromBigEndian(data));
  }

  /** Distinct byte strings have distinct Base58 texts. */
  lemma EncodeInjective(a: bytes, b: bytes)
    requires Encode(a) == Encode(b)
    ensures a == b
  {
    hide Encode, Digits, Symbols, FromBigEndian;
    LeadingOnes(a);
    LeadingOnes(b);
    assert LeadingZeros(a) == LeadingZeros(b);
    SymbolsInjective(Digits(FromBigEndian(a)), Digits(FromBigEndian(b)));
    DigitsValue(FromBigEndian(a));
    DigitsValue(FromBigEndian(b));
    var ma := Significant(a);
    var mb := Significant(b);
    LeadingByteUnique(ma, mb);
    assert a[..LeadingZeros(a)] == b[..LeadingZeros(b)];
  }

  /** 32 zero bytes, the Solana system program, are 32 ones; no other key is. */
  lemma SystemProgramId(key: bytes)
    requires |key| == 32
    ensures Encode(key) == "11111111111111111111111111111111" <==> key == seq(32, i => 0)
  {
    var zeros: bytes := seq(32, i => 0);
    var m := Significant(zeros);
    assert LeadingZeros(zeros) == 32;
    assert Encode(zeros) == Ones(32) == "11111111111111111111111111111111";
    if Encode(key) == Encode(zeros) {
      EncodeInjective(key, zeros);
    }
  }
}
