/**
 The three amounts the contract meters: lamports (9 places, 64 bits), yoctoNEAR (24 places,
 128 bits) and raw NEP-141 units (whole numbers, 128 bits).
 */
module Amounts {
  import opened Basics
  import opened Text
  import opened Decimal

  datatype Meter = Lamports | Yocto | TokenUnits

  function Limit(meter: Meter): nat {
    if meter.Lamports? then U64_LIMIT else U128_LIMIT
  }

  function ParseLamports(text: string): Option<nat> {
    var units :- ParseAmount(text, 9);
    Checked(units, U64_LIMIT)
  }

  function ParseYocto(text: string): Option<nat> {
    ParseAmount(text, 24)
  }

  /** `parse_token_amount_units`: whole numbers only, no leading zeros. */
  function ParseTokenUnits(text: string): Option<nat> {
    var trimmed := Trim(text);
    if trimmed == "" then None
    else if '.' in trimmed then None
    else if !AllDigits(trimmed) then None
    else if |trimmed| > 1 && StartsWith(trimmed, "0") then None
    else ParseUnsigned(trimmed, U128_LIMIT)
  }

  function Parse(meter: Meter, text: string): Option<nat> {
    match meter
    case Lamports => ParseLamports(text)
    case Yocto => ParseYocto(text)
    case TokenUnits => ParseTokenUnits(text)
  }

  /** `optional_string_amount_to_*`: a cap or counter that is missing, blank or unreadable is absent. */
  function OptionalAmount(meter: Meter, value: Option<string>): Option<nat> {
    var text :- value;
    if Trim(text) == "" then None else Parse(meter, Trim(text))
  }

  function Print(meter: Meter, amount: nat): string {
    match meter
    case Lamports => PrintAmount(amount, 9)
    case Yocto => PrintAmount(amount, 24)
    case TokenUnits => NatText(amount)
  }

  lemma Scales()
    ensures Pow(10, 9) == 1_000_000_000
    ensures Pow(10, 15) == 1_000_000_000_000_000
    ensures Pow(10, 24) == 1_000_000_000_000_000_000_000_000
  {
  }

  /** A token amount is read exactly when the trimmed text is the number's canonical numeral. */
  lemma TokenUnitsExact(text: string, n: nat)
    ensures ParseTokenUnits(text) == Some(n) <==> n < U128_LIMIT && Trim(text) == NatText(n)
  {
    var trimmed := Trim(text);
    NatTextCanonical(n);
    NatTextValue(n);
    if trimmed == NatText(n) {
      assert '.' !in trimmed;
      DigitsParse(trimmed);
    }
    if ParseTokenUnits(text).Some? {
      DigitsParse(trimmed);
      CanonicalIsNatText(trimmed);
    }
  }

  lemma PrintedText(meter: Meter, amount: nat)
    ensures Trimmed(Print(meter, amount)) && Print(meter, amount) != ""
    ensures Trim(Print(meter, amount)) == Print(meter, amount)
  {
    if !meter.TokenUnits? {
      var n := PrintedNumeral(amount, if meter.Lamports? then 9 else 24);
      NumeralSplit(n);
    }
    TrimIsTrimmed(Print(meter, amount));
  }

  /** A counter written by an enforcer is read back unchanged by the same enforcer. */
  lemma CounterRoundTrip(meter: Meter, amount: nat)
    requires amount < Limit(meter)
    ensures OptionalAmount(meter, Some(Print(meter, amount))) == Some(amount)
  {
    Scales();
    PrintedText(meter, amount);
    match meter
    case Lamports => PrintParse(amount, 9);
    case Yocto => PrintParse(amount, 24);
    case TokenUnits => TokenUnitsExact(Print(meter, amount), amount);
  }

  /** Yocto per lamport-sized unit: 24 places against 9. */
  const YOCTO_PER_LAMPORT: nat := 1_000_000_000_000_000

  /** A NEAR counter read by the Solana enforcer: exact, or absent when it has a finer fraction. */
  lemma LamportsFromYocto(yocto: nat)
    requires yocto < U128_LIMIT
    ensures OptionalAmount(Lamports, Some(Print(Yocto, yocto))) ==
            if yocto % YOCTO_PER_LAMPORT == 0 then Checked(yocto / YOCTO_PER_LAMPORT, U64_LIMIT) else None
  {
    Scales();
    PrintedText(Yocto, yocto);
    PrintParseCoarser(yocto, 9, 15);
  }

  /** A Solana counter read by the NEAR enforcer is always exact. */
  lemma YoctoFromLamports(lamports: nat)
    requires lamports < U64_LIMIT
    ensures OptionalAmount(Yocto, Some(Print(Lamports, lamports))) == Some(lamports * YOCTO_PER_LAMPORT)
  {
    Scales();
    PrintedText(Lamports, lamports);
    PrintParseFiner(lamports, 9, 15);
  }

  /** The zero both enforcers write when a new period starts reads as zero everywhere. */
  lemma ZeroCounter(meter: Meter)
    ensures OptionalAmount(meter, Some("0")) == Some(0)
  {
    Scales();
    assert NatText(0) == "0";
    assert Print(meter, 0) == "0";
    CounterRoundTrip(meter, 0);
  }

  /** The text writes this amount in this unit: the value is exact, not rounded. */
  ghost predicate Writes(meter: Meter, text: string, amount: nat) {
    match meter
    case Lamports => amount < U64_LIMIT &&
      exists n: Numeral :: n.Valid() && Trim(text) == n.Text() && n.Places() <= 9 && n.Units(9) == amount
    case Yocto => amount < U128_LIMIT &&
      exists n: Numeral :: n.Valid() && Trim(text) == n.Text() && n.Places() <= 24 && n.Units(24) == amount
    case TokenUnits => amount < U128_LIMIT && Trim(text) == NatText(amount)
  }

  lemma ParseWrites(meter: Meter, text: string, amount: nat)
    ensures Parse(meter, text) == Some(amount) <==> Writes(meter, text, amount)
  {
    hide ParseAmount, ParseTokenUnits, Trim, Numeral.Text, Numeral.Units, Numeral.Places, Numeral.Valid;
    Scales();
    ParseAmountExact(text, 9, amount);
    ParseAmountExact(text, 24, amount);
    TokenUnitsExact(text, amount);
  }

  /** A cap or counter field reads as an amount exactly when it is there and writes it. */
  lemma OptionalAmountReads(meter: Meter, value: Option<string>, amount: nat)
    ensures OptionalAmount(meter, value) == Some(amount) <==> value.Some? && Writes(meter, value.value, amount)
  {
    hide ParseAmount, ParseTokenUnits, Trim, Numeral.Units, Numeral.Places, AllDigits, NatText;
    if value.Some? {
      TrimIsTrimmed(value.value);
      ParseWrites(meter, Trim(value.value), amount);
      NatTextCanonical(amount);
    }
  }
}
