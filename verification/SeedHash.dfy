/** The 32-bit rolling hash by which the wallet recognises a seed phrase it already stores. */
module SeedHash {
  import opened Basics

  /** JavaScript strings are sequences of UTF-16 code units. */
  type CodeUnit = c: int | 0 <= c < 0x1_0000
  type Phrase = seq<CodeUnit>

  const TWO_32: int := 0x1_0000_0000
  const TWO_31: int := 0x8000_0000

  /** ToInt32, section 7.1.6 of ECMA-262: the signed value congruent modulo 2^32. */
  function ToInt32(x: int): (y: int)
    ensures -TWO_31 <= y < TWO_31 && (x - y) % TWO_32 == 0
  {
    var m := x % TWO_32;
    if m >= TWO_31 then m - TWO_32 else m
  }

  /** `x << n` on numbers. */
  function ShiftLeft(x: int, n: nat): int {
    ToInt32(ToInt32(x) * Pow(2, n))
  }

  /** The base-31 polynomial of the code units. */
  function Polynomial(s: Phrase): nat {
    if s == [] then 0 else 31 * Polynomial(s[..|s| - 1]) + s[|s| - 1]
  }

  /** The hash a phrase is stored under. */
  function Hash(s: Phrase): int {
    ToInt32(Polynomial(s))
  }

  /** ToInt32 depends only on the residue. */
  lemma ToInt32Congruent(x: int, y: int, k: int)
    requires x == y + k * TWO_32
    ensures ToInt32(x) == ToInt32(y)
  {
    var q, m := y / TWO_32, y % TWO_32;
    assert x == (q + k) * TWO_32 + m;
  }

  lemma ToInt32Offset(x: int) returns (k: int)
    ensures x == ToInt32(x) + k * TWO_32
  {
    k := (x - ToInt32(x)) / TWO_32;
  }

  /** One turn of the loop, shift and subtraction included, is one step of the polynomial modulo 2^32. */
  lemma HashStep(poly: nat, hash: int, c: CodeUnit)
    requires hash == ToInt32(poly)
    ensures ToInt32(ShiftLeft(hash, 5) - hash + c) == ToInt32(31 * poly + c)
  {
    hide ToInt32;
    assert Pow(2, 5) == 32;
    var i := ToInt32Offset(hash);
    var k := ToInt32Offset(poly);
    var j := ToInt32Offset(ToInt32(hash) * 32);
    ToInt32Congruent(31 * poly + c, ShiftLeft(hash, 5) - hash + c, 31 * k + j + 32 * i);
  }

  /** `hashSeedPhrase`, before the result is turned into text. */
  method HashSeedPhrase(seedPhrase: Phrase) returns (hash: int)
    ensures hash == Hash(seedPhrase)
  {
    hash := 0;
    for i := 0 to |seedPhrase|
      invariant hash == Hash(seedPhrase[..i])
    {
      var c := seedPhrase[i];
      assert seedPhrase[..i + 1][..i] == seedPhrase[..i];
      HashStep(Polynomial(seedPhrase[..i]), hash, c);
      hash := ShiftLeft(hash, 5) - hash + c;
      hash := ToInt32(hash);
    }
    assert seedPhrase[..|seedPhrase|] == seedPhrase;
  }

  /** The hash does not identify a phrase: "Aa" and "BB" collide, alone or before any common text. */
  lemma HashCollides()
    ensures Hash([65, 97]) == Hash([66, 66])
  {
    assert [65, 97][..1] == [65] && [66, 66][..1] == [66] && [65][..0] == [] && [66][..0] == [];
    assert Polynomial([65]) == 65 && Polynomial([66]) == 66;
  }

  lemma {:induction false} CommonEndingCollides(a: Phrase, b: Phrase, ending: Phrase)
    requires Polynomial(a) == Polynomial(b)
    ensures Hash(a + ending) == Hash(b + ending) && Polynomial(a + ending) == Polynomial(b + ending)
  {
    hide ToInt32;
    if ending == [] {
      assert a + [] == a && b + [] == b;
    } else {
      var front := ending[..|ending| - 1];
      assert (a + ending)[..|a + ending| - 1] == a + front && (b + ending)[..|b + ending| - 1] == b + front;
      CommonEndingCollides(a, b, front);
    }
  }

  /** A set of integers in a range is no larger than the range. */
  lemma {:induction false} RangeBound(values: set<int>, lo: int, hi: int)
    requires lo <= hi && forall v :: v in values ==> lo <= v < hi
    ensures |values| <= hi - lo
    decreases hi - lo
  {
    if lo == hi {
      assert values == {};
    } else {
      RangeBound(values - {hi - 1}, lo, hi - 1);
      assert |values| <= |values - {hi - 1}| + 1;
    }
  }

  /** Phrases without a common hash have as many hashes as there are phrases. */
  lemma {:induction false} DistinctHashes(phrases: set<Phrase>)
    requires forall a, b :: a in phrases && b in phrases && Hash(a) == Hash(b) ==> a == b
    ensures |set a | a in phrases :: Hash(a)| == |phrases|
  {
    hide Hash;
    if phrases != {} {
      var a :| a in phrases;
      var rest := phrases - {a};
      DistinctHashes(rest);
      assert (set b | b in phrases :: Hash(b)) == (set b | b in rest :: Hash(b)) + {Hash(a)};
      assert Hash(a) !in (set b | b in rest :: Hash(b));
    }
  }

  /** Among any more than 2^32 phrases, whatever they are, two share a hash and so would share a slot. */
  lemma SomePhrasesCollide(phrases: set<Phrase>)
    requires |phrases| > TWO_32
    ensures exists a, b :: a in phrases && b in phrases && a != b && Hash(a) == Hash(b)
  {
    hide Polynomial;
    if forall a, b :: a in phrases && b in phrases && Hash(a) == Hash(b) ==> a == b {
      DistinctHashes(phrases);
      RangeBound(set a | a in phrases :: Hash(a), -TWO_31, TWO_31);
    }
  }
}
