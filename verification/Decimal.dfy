/**
 Decimal amounts as text. The contract keeps its spending counters as strings such as "1.25" and
 reads them back at a chain's own precision, so every spending limit depends on these conversions.
 */
module Decimal {
  import opened Basics
  import opened Text

  /** A decimal numeral as a human writes it: a whole part and perhaps a fraction. */
  datatype Numeral = Whole(whole: string) | Pointed(whole: string, frac: string) {
    predicate Valid() {
      whole != "" && AllDigits(whole) && (Pointed? ==> AllDigits(frac))
    }

    function Text(): string {
      if Whole? then whole else whole + "." + frac
    }

    function Places(): nat {
      if Whole? then 0 else |frac|
    }

    /** The numeral scaled by `10^decimals`, exactly. */
    function Units(decimals: nat): nat
      requires Valid() && Places() <= decimals
    {
      Value(whole) * Pow(10, decimals) +
      (if Whole? then 0 else Value(frac) * Pow(10, decimals - |frac|))
    }
  }

  function PadRight(s: string, width: nat): (padded: string)
    ensures s <= padded
    ensures AllDigits(s) ==> AllDigits(padded)
  {
    if |s| < width then s + Zeros(width - |s|) else s
  }

  function PadLeft(s: string, width: nat): (padded: string)
    ensures AllDigits(s) ==> AllDigits(padded)
  {
    if |s| < width then Zeros(width - |s|) + s else s
  }

  function StripZeros(s: string): (t: string)
    ensures t <= s
    ensures AllDigits(s) ==> AllDigits(t)
  {
    if s != "" && s[|s| - 1] == '0' then StripZeros(s[..|s| - 1]) else s
  }

  /** `parse_decimal_amount_to_units`. */
  function ParseAmount(text: string, decimals: nat): Option<nat> {
    var trimmed := Trim(text);
    if trimmed == "" then None else
      var parts := Split(trimmed, '.');
      var whole := parts[0];
      if |parts| > 2 || !AllDigits(whole) then None else
        var scale :- Checked(Pow(10, decimals), U128_LIMIT);
        var w :- ParseUnsigned(whole, U128_LIMIT);
        var units :- Checked(w * scale, U128_LIMIT);
        if |parts| == 1 then Some(units) else
          var frac := parts[1];
          if |frac| > decimals || !AllDigits(frac) then None
          else if decimals == 0 then Some(units)
          else
            var f :- ParseUnsigned(PadRight(frac, decimals), U128_LIMIT);
            Checked(units + f, U128_LIMIT)
  }

  /** `lamports_to_sol_amount_string` and `yocto_to_near_amount_string`, at their scale. */
  function PrintAmount(units: nat, decimals: nat): string {
    PowPositive(10, decimals);
    var scale := Pow(10, decimals);
    var whole, frac := units / scale, units % scale;
    if frac == 0 then NatText(whole)
    else NatText(whole) + "." + StripZeros(PadLeft(NatText(frac), decimals))
  }

  // The same conversions as the contract runs them, padding and stripping digit by digit.

  method ParseDecimalAmountToUnits(value: string, decimals: nat) returns (result: Option<nat>)
    ensures result == ParseAmount(value, decimals)
  {
    hide Trim, Split, Pow, ParseUnsigned, AllDigits;
    var trimmed := Trim(value);
    if trimmed == "" {
      return None;
    }
    var parts := Split(trimmed, '.');
    var whole := parts[0];
    if |parts| > 2 || !AllDigits(whole) {
      return None;
    }
    var scale :- Checked(Pow(10, decimals), U128_LIMIT);
    var w :- ParseUnsigned(whole, U128_LIMIT);
    var units :- Checked(w * scale, U128_LIMIT);
    if |parts| == 2 {
      var frac := parts[1];
      if |frac| > decimals || !AllDigits(frac) {
        return None;
      }
      if decimals > 0 {
        var padded := frac;
        while |padded| < decimals
          invariant |frac| <= |padded| <= decimals
          invariant padded == frac + Zeros(|padded| - |frac|)
        {
          assert Zeros(|padded| + 1 - |frac|) == Zeros(|padded| - |frac|) + ['0'];
          padded := padded + ['0'];
        }
        assert padded == PadRight(frac, decimals);
        var f :- ParseUnsigned(padded, U128_LIMIT);
        units :- Checked(units + f, U128_LIMIT);
      }
    }
    return Some(units);
  }

  method DropTrailingZeros(text: string) returns (stripped: string)
    ensures stripped == StripZeros(text)
  {
    stripped := text;
    while stripped != "" && stripped[|stripped| - 1] == '0'
      invariant StripZeros(stripped) == StripZeros(text)
      decreases |stripped|
    {
      stripped := stripped[..|stripped| - 1];
    }
  }

  method AmountString(units: nat, decimals: nat) returns (text: string)
    ensures text == PrintAmount(units, decimals)
  {
    hide Pow, NatText, StripZeros, PadLeft;
    PowPositive(10, decimals);
    var scale := Pow(10, decimals);
    var whole, frac := units / scale, units % scale;
    if frac == 0 {
      return NatText(whole);
    }
    var fracString := DropTrailingZeros(PadLeft(NatText(frac), decimals));
    return NatText(whole) + "." + fracString;
  }

  // What the parser accepts.

  lemma NumeralSplit(n: Numeral)
    requires n.Valid()
    ensures Split(n.Text(), '.') == if n.Whole? then [n.whole] else [n.whole, n.frac]
    ensures Trimmed(n.Text()) && n.Text() != ""
  {
    if n.Whole? {
      SplitOne(n.whole, '.');
    } else {
      assert n.Text() == n.whole + ['.'] + n.frac;
      SplitTwo(n.whole, n.frac, '.');
    }
  }

  lemma DigitsParse(s: string)
    requires s != "" && AllDigits(s)
    ensures ParseUnsigned(s, U128_LIMIT) == Checked(Value(s), U128_LIMIT)
  {
    assert s[0] != '+';
  }

  lemma PadRightValue(s: string, width: nat)
    requires AllDigits(s) && |s| <= width
    ensures |PadRight(s, width)| == width
    ensures Value(PadRight(s, width)) == Value(s) * Pow(10, width - |s|)
  {
    hide Value, Pow;
    var zeros := Zeros(width - |s|);
    ValueConcat(s, zeros);
    ValueZeros(width - |s|);
    assert s + zeros == PadRight(s, width);
  }

  /** The fraction as the parser reads it once padded. */
  lemma ParseFraction(frac: string, decimals: nat)
    requires AllDigits(frac) && |frac| <= decimals && 0 < decimals && Pow(10, decimals) < U128_LIMIT
    ensures ParseUnsigned(PadRight(frac, decimals), U128_LIMIT) == Some(Value(frac) * Pow(10, decimals - |frac|))
  {
    var padded := PadRight(frac, decimals);
    PadRightValue(frac, decimals);
    ValueBound(padded);
    DigitsParse(padded);
  }

  lemma ParseWhole(text: string, whole: string, decimals: nat)
    requires Whole(whole).Valid() && Trim(text) == whole
    ensures ParseAmount(text, decimals) ==
            if Pow(10, decimals) < U128_LIMIT then Checked(Value(whole) * Pow(10, decimals), U128_LIMIT) else None
  {
    hide ParseUnsigned, PadRight, Pow, Split, Trim, Value;
    NumeralSplit(Whole(whole));
    DigitsParse(whole);
    ScaleLarge(Value(whole), decimals);
  }

  lemma ParsePointed(text: string, n: Numeral, decimals: nat)
    requires n.Pointed? && n.Valid() && Trim(text) == n.Text()
    ensures ParseAmount(text, decimals) ==
            if |n.frac| <= decimals && Pow(10, decimals) < U128_LIMIT
            then Checked(Value(n.whole) * Pow(10, decimals) + Value(n.frac) * Pow(10, decimals - |n.frac|), U128_LIMIT) else None
  {
    NoFraction();
    hide ParseUnsigned, PadRight, Pow, Split, Trim, Value;
    NumeralSplit(n);
    DigitsParse(n.whole);
    if |n.frac| <= decimals && Pow(10, decimals) < U128_LIMIT {
      ScaleLarge(Value(n.whole), decimals);
      if decimals > 0 {
        ParseFraction(n.frac, decimals);
      } else {
        assert n.frac == "";
      }
    }
  }

  lemma NoFraction()
    ensures Value("") == 0
  {
  }

  /** The exact meaning of the parser on a well-formed numeral, spaces around it included. */
  lemma ParseNumeral(text: string, n: Numeral, decimals: nat)
    requires n.Valid() && Trim(text) == n.Text()
    ensures ParseAmount(text, decimals) ==
            if n.Places() <= decimals && Pow(10, decimals) < U128_LIMIT
            then Checked(n.Units(decimals), U128_LIMIT) else None
  {
    hide ParseAmount, Pow, Trim, Value, AllDigits;
    if n.Whole? {
      ParseWhole(text, n.whole, decimals);
    } else {
      ParsePointed(text, n, decimals);
    }
  }

  lemma TenToThe18()
    ensures Pow(10, 18) == 1_000_000_000_000_000_000
  {
    assert Pow(10, 9) == 1_000_000_000;
    PowAdd(10, 9, 9);
  }

  lemma ScaleLarge(w: nat, decimals: nat)
    ensures w <= w * Pow(10, decimals)
  {
    PowPositive(10, decimals);
    assert w * (Pow(10, decimals) - 1) >= 0;
  }

  /** Whatever the parser accepts is a well-formed numeral. */
  lemma ParsedIsNumeral(text: string, decimals: nat) returns (n: Numeral)
    requires ParseAmount(text, decimals).Some?
    ensures n.Valid() && Trim(text) == n.Text()
  {
    var parts := Split(Trim(text), '.');
    SplitInverse(Trim(text), '.');
    n := if |parts| == 1 then Whole(parts[0]) else Pointed(parts[0], parts[1]);
  }

  /**
   A value is returned exactly when the text is a well-formed numeral, its fraction has no more
   digits than the precision, and its exact scaled value (and the scale) fits in 128 bits.
   */
  lemma ParseAmountExact(text: string, decimals: nat, units: nat)
    ensures ParseAmount(text, decimals) == Some(units) <==>
            exists n: Numeral :: n.Valid() && Trim(text) == n.Text() && n.Places() <= decimals &&
              Pow(10, decimals) < U128_LIMIT && n.Units(decimals) == units < U128_LIMIT
  {
    if ParseAmount(text, decimals) == Some(units) {
      var n := ParsedIsNumeral(text, decimals);
      ParseNumeral(text, n, decimals);
    }
    forall n: Numeral | n.Valid() && Trim(text) == n.Text()
      ensures ParseAmount(text, decimals) ==
              if n.Places() <= decimals && Pow(10, decimals) < U128_LIMIT
              then Checked(n.Units(decimals), U128_LIMIT) else None
    {
      ParseNumeral(text, n, decimals);
    }
  }

  // Printing, then parsing.

  lemma {:induction false} StripZerosSpec(s: string)
    requires AllDigits(s)
    ensures StripZeros(s) != "" ==> StripZeros(s)[|StripZeros(s)| - 1] != '0'
    ensures Value(s) == Value(StripZeros(s)) * Pow(10, |s| - |StripZeros(s)|)
  {
    if s != "" && s[|s| - 1] == '0' {
      var front := s[..|s| - 1];
      StripZerosSpec(front);
      var v, p := Value(StripZeros(s)), Pow(10, |front| - |StripZeros(s)|);
      MulAssoc(10, v, p);
      MulAssoc(v, 10, p);
      assert |s| - |StripZeros(s)| == |front| - |StripZeros(s)| + 1;
    }
  }

  lemma PadLeftValue(s: string, width: nat)
    requires AllDigits(s) && |s| <= width
    ensures |PadLeft(s, width)| == width && Value(PadLeft(s, width)) == Value(s)
  {
    hide Value, Pow;
    var zeros := Zeros(width - |s|);
    ValueConcat(zeros, s);
    ValueZeros(width - |s|);
    assert zeros + s == PadLeft(s, width);
  }

  /** The fraction `PrintAmount` writes for a non-zero remainder. */
  lemma PrintedFraction(frac: nat, decimals: nat)
    requires 0 < frac < Pow(10, decimals)
    ensures var f := StripZeros(PadLeft(NatText(frac), decimals));
            f != "" && AllDigits(f) && f[|f| - 1] != '0' && |f| <= decimals &&
            Value(f) * Pow(10, decimals - |f|) == frac
  {
    NatTextValue(frac);
    NatTextLength(frac, decimals);
    var padded := PadLeft(NatText(frac), decimals);
    PadLeftValue(NatText(frac), decimals);
    StripZerosSpec(padded);
    assert Value("") == 0;
  }

  /** The numeral `PrintAmount` writes: exact, and with the fewest possible fraction digits. */
  lemma PrintedNumeral(units: nat, decimals: nat) returns (n: Numeral)
    ensures n.Valid() && n.Text() == PrintAmount(units, decimals)
    ensures n.Places() <= decimals && n.Units(decimals) == units
    ensures n.Pointed? ==> n.frac != "" && n.frac[|n.frac| - 1] != '0'
  {
    hide NatText, StripZeros, PadLeft, Value, Pow;
    PowPositive(10, decimals);
    var scale := Pow(10, decimals);
    DivModIdentity(units, scale);
    NatTextValue(units / scale);
    if units % scale == 0 {
      n := Whole(NatText(units / scale));
    } else {
      PrintedFraction(units % scale, decimals);
      n := Pointed(NatText(units / scale), StripZeros(PadLeft(NatText(units % scale), decimals)));
    }
  }

  /** Printing then parsing at the same precision is the identity. */
  lemma PrintParse(units: nat, decimals: nat)
    requires units < U128_LIMIT && Pow(10, decimals) < U128_LIMIT
    ensures ParseAmount(PrintAmount(units, decimals), decimals) == Some(units)
  {
    var n := ParsePrinted(units, decimals, decimals);
  }

  lemma UnitsRescale(n: Numeral, decimals: nat, extra: nat)
    requires n.Valid() && n.Places() <= decimals
    ensures n.Units(decimals + extra) == n.Units(decimals) * Pow(10, extra)
  {
    var e := Pow(10, extra);
    PowAdd(10, decimals, extra);
    MulAssoc(Value(n.whole), Pow(10, decimals), e);
    if n.Pointed? {
      PowAdd(10, decimals - |n.frac|, extra);
      MulAssoc(Value(n.frac), Pow(10, decimals - |n.frac|), e);
      MulDistrib(Value(n.whole) * Pow(10, decimals), Value(n.frac) * Pow(10, decimals - |n.frac|), e);
    }
  }

  /** A multiple of `p * q` by `q` alone is a multiple of `p` beforehand, and conversely. */
  lemma MultipleOfProduct(u: nat, p: nat, q: nat)
    requires p > 0 && q > 0
    ensures p * q > 0 && (u * q) % (p * q) == (u % p) * q
  {
    MulPositive(p, q);
    DivModIdentity(u, p);
    MulDistrib((u / p) * p, u % p, q);
    MulAssoc(u / p, p, q);
    MulDistrib(p - u % p, u % p, q);
    MulPositive(p - u % p, q);
    DivModUnique(u / p, (u % p) * q, p * q);
  }

  /** A fraction ending in a non-zero digit needs all its places: it is no multiple of a coarser unit. */
  lemma CoarserUnit(n: Numeral, coarse: nat, extra: nat)
    requires n.Valid() && n.Places() <= coarse + extra
    requires n.Pointed? ==> n.frac != "" && n.frac[|n.frac| - 1] != '0'
    ensures Pow(10, extra) > 0
    ensures n.Units(coarse + extra) % Pow(10, extra) == 0 <==> n.Places() <= coarse
  {
    PowPositive(10, extra);
    if n.Places() <= coarse {
      UnitsRescale(n, coarse, extra);
      DivModUnique(n.Units(coarse), 0, Pow(10, extra));
    } else {
      var k := |n.frac| - coarse;
      var u, p, q := n.Units(|n.frac|), Pow(10, k), Pow(10, extra - k);
      UnitsRescale(n, |n.frac|, extra - k);
      PowAdd(10, k, extra - k);
      PowPositive(10, extra - k);
      LastDigitKept(n, k);
      MultipleOfProduct(u, p, q);
      MulPositive(u % p, q);
    }
  }

  lemma TenDivides(u: nat, t: nat)
    requires t > 0 && u % (10 * t) == 0
    ensures u % 10 == 0
  {
    DivModIdentity(u, 10 * t);
    var m := u / (10 * t);
    assert u == m * (10 * t);
    assert m * (10 * t) == (m * t) * 10;
    DivModUnique(m * t, 0, 10);
  }

  lemma LastDigit(n: Numeral)
    requires n.Valid() && n.Pointed? && n.frac != ""
    ensures n.Units(|n.frac|) % 10 == DigitValue(n.frac[|n.frac| - 1])
  {
    var w, p, f, d := Value(n.whole), Pow(10, |n.frac| - 1), Value(n.frac[..|n.frac| - 1]), DigitValue(n.frac[|n.frac| - 1]);
    assert Pow(10, |n.frac| - |n.frac|) == 1;
    MulAssoc(w, 10, p);
    MulAssoc(10, w, p);
    DivModUnique(w * p + f, d, 10);
  }

  lemma LastDigitKept(n: Numeral, k: nat)
    requires n.Valid() && n.Pointed? && 0 < k <= |n.frac| && n.frac[|n.frac| - 1] != '0'
    ensures Pow(10, k) > 0 && n.Units(|n.frac|) % Pow(10, k) != 0
  {
    PowPositive(10, k - 1);
    var u, d := n.Units(|n.frac|), DigitValue(n.frac[|n.frac| - 1]);
    LastDigit(n);
    if u % Pow(10, k) == 0 {
      TenDivides(u, Pow(10, k - 1));
    }
  }

  lemma ParsePrinted(units: nat, decimals: nat, at: nat) returns (n: Numeral)
    requires Pow(10, at) < U128_LIMIT
    ensures n.Valid() && n.Places() <= decimals && n.Units(decimals) == units
    ensures n.Pointed? ==> n.frac != "" && n.frac[|n.frac| - 1] != '0'
    ensures ParseAmount(PrintAmount(units, decimals), at) ==
            if n.Places() <= at then Checked(n.Units(at), U128_LIMIT) else None
  {
    hide PrintAmount, ParseAmount, Numeral.Units;
    n := PrintedNumeral(units, decimals);
    NumeralSplit(n);
    TrimIsTrimmed(n.Text());
    ParseNumeral(n.Text(), n, at);
  }

  /**
   Reading at one precision what was printed at a finer one. The value survives exactly when it is
   a whole number of the coarser units; otherwise the text does not parse at all.
   */
  lemma PrintParseCoarser(units: nat, coarse: nat, extra: nat)
    requires Pow(10, coarse) < U128_LIMIT && units < U128_LIMIT
    ensures Pow(10, extra) > 0
    ensures ParseAmount(PrintAmount(units, coarse + extra), coarse) ==
            if units % Pow(10, extra) == 0 then Some(units / Pow(10, extra)) else None
  {
    hide PrintAmount, ParseAmount, Numeral.Units;
    PowPositive(10, extra);
    var n := ParsePrinted(units, coarse + extra, coarse);
    CoarserUnit(n, coarse, extra);
    if n.Places() <= coarse {
      var u := n.Units(coarse);
      assert units == u * Pow(10, extra) by {
        UnitsRescale(n, coarse, extra);
      }
      ExactQuotient(units, u, extra);
    }
  }

  lemma ExactQuotient(units: nat, u: nat, extra: nat)
    requires units == u * Pow(10, extra)
    ensures u <= units && Pow(10, extra) > 0 && units / Pow(10, extra) == u
  {
    ScaleLarge(u, extra);
    PowPositive(10, extra);
    DivModUnique(u, 0, Pow(10, extra));
  }

  /** Reading at a finer precision what was printed at a coarser one only overflow can spoil. */
  lemma PrintParseFiner(units: nat, coarse: nat, extra: nat)
    requires Pow(10, coarse + extra) < U128_LIMIT
    ensures Checked(units * Pow(10, extra), U128_LIMIT) ==
            ParseAmount(PrintAmount(units, coarse), coarse + extra)
  {
    hide PrintAmount, ParseAmount, Numeral.Units;
    var n := ParsePrinted(units, coarse, coarse + extra);
    UnitsRescale(n, coarse, extra);
  }
}
