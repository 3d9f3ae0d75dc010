/** The external signer's Solana sign-and-broadcast loop, and its reading of EVM amounts. */
module SignPipeline {
  import opened Basics
  import opened Text
  import opened Decimal

  /** How broadcasting the signed transaction ended; one error text may match both classifications. */
  datatype Broadcast = Accepted(txHash: string) | Rejected(blockhashExpired: bool, badSignature: bool)

  /** One attempt: it fails before the MPC request is out, or after it without a signature, or broadcasts. */
  datatype Attempt = NotRequested | NotSigned | Sent(nearHash: string, result: Broadcast)

  datatype Outcome = Hashes(txHash: string, nearHash: string) | Failure

  const MAX_BLOCKHASH_RETRIES: nat := 2

  /** The loop's two reasons to go round again, in the order it tests them. */
  predicate RetriesBlockhash(a: Attempt, attempt: nat) {
    a.Sent? && a.result.Rejected? && a.result.blockhashExpired && attempt < MAX_BLOCKHASH_RETRIES
  }

  predicate RetriesPath(a: Attempt, attempt: nat, fallbackPending: bool) {
    a.Sent? && a.result.Rejected? && !RetriesBlockhash(a, attempt) && a.result.badSignature && fallbackPending
  }

  /** The attempt after which the path is given up for "0", if any: the first signature failure not retried otherwise. */
  function SwitchAfter(outcomes: nat -> Attempt, given: string, from: nat): (k: nat)
    requires from <= 3
    ensures from <= k <= 3
    ensures forall i :: from <= i < k ==> !RetriesPath(outcomes(i), i, given != "0")
    ensures k < 3 ==> RetriesPath(outcomes(k), k, given != "0")
    decreases 3 - from
  {
    if from == 3 || RetriesPath(outcomes(from), from, given != "0") then from else SwitchAfter(outcomes, given, from + 1)
  }

  /** The derivation path of each attempt. */
  function PathAt(outcomes: nat -> Attempt, given: string, attempt: nat): string {
    if attempt <= SwitchAfter(outcomes, given, 0) then given else "0"
  }

  // When the loop goes round again, said of the outcomes alone.

  predicate Expired(a: Attempt) {
    a.Sent? && a.result.Rejected? && a.result.blockhashExpired
  }

  predicate BadSignature(a: Attempt) {
    a.Sent? && a.result.Rejected? && a.result.badSignature
  }

  /** The path is not "0", and no earlier attempt gave it up: none had a bad signature that was not retried as expired. */
  predicate FallbackPending(outcomes: nat -> Attempt, given: string, attempt: nat) {
    given != "0" && forall j: nat :: j < attempt && BadSignature(outcomes(j)) ==> Expired(outcomes(j)) && j < 2
  }

  /** An expired blockhash on the first two attempts, or a bad signature while the fallback is pending. */
  predicate GoesOn(outcomes: nat -> Attempt, given: string, attempt: nat) {
    (Expired(outcomes(attempt)) && attempt < 2) ||
    (BadSignature(outcomes(attempt)) && FallbackPending(outcomes, given, attempt))
  }

  /**
   `sign_and_broadcast_solana`. It ends with the first attempt after which it does not go on, or with the
   third, and gives that attempt's hashes if it was accepted, and otherwise fails. The attempts that
   reached the MPC network are listed with their paths: the given one until a signature-verification
   failure switches to "0", once.
   */
  method SignAndBroadcastSolana(outcomes: nat -> Attempt, given: string)
    returns (r: Outcome, attempts: nat, requests: seq<string>)
    ensures 1 <= attempts <= 3
    ensures forall i: nat :: i < attempts - 1 ==> GoesOn(outcomes, given, i)
    ensures attempts < 3 ==> !GoesOn(outcomes, given, attempts - 1)
    ensures var last := outcomes(attempts - 1);
            r == if last.Sent? && last.result.Accepted? then Hashes(last.result.txHash, last.nearHash) else Failure
    ensures |requests| == if outcomes(attempts - 1).NotRequested? then attempts - 1 else attempts
    ensures forall i :: 0 <= i < |requests| ==>
              requests[i] == PathAt(outcomes, given, i) == if FallbackPending(outcomes, given, i) then given else "0"
  {
    var path := given;
    var fallbackPending := path != "0";
    attempts, requests := 0, [];
    for attempt := 0 to MAX_BLOCKHASH_RETRIES + 1
      invariant attempts == attempt == |requests|
      invariant forall i :: 0 <= i < attempt ==>
                  requests[i] == PathAt(outcomes, given, i) == if FallbackPending(outcomes, given, i) then given else "0"
      invariant path == PathAt(outcomes, given, attempt)
      invariant fallbackPending <==> given != "0" && attempt <= SwitchAfter(outcomes, given, 0)
      invariant fallbackPending <==> FallbackPending(outcomes, given, attempt)
      invariant forall i: nat :: i < attempt ==> GoesOn(outcomes, given, i)
      invariant attempt > 0 ==> outcomes(attempt - 1).Sent? && outcomes(attempt - 1).result.Rejected?
    {
      attempts := attempts + 1;
      var a := outcomes(attempt);
      if a.NotRequested? {
        return Failure, attempts, requests;
      }
      requests := requests + [path];
      if a.NotSigned? {
        return Failure, attempts, requests;
      }
      if a.result.Accepted? {
        return Hashes(a.result.txHash, a.nearHash), attempts, requests;
      }
      if a.result.blockhashExpired && attempt < MAX_BLOCKHASH_RETRIES {
        continue;
      }
      if a.result.badSignature && fallbackPending {
        path := "0";
        fallbackPending := false;
        continue;
      }
      return Failure, attempts, requests;
    }
    return Failure, attempts, requests;
  }

  /** The path changes at most once, only away from a path other than "0", and only right after a bad signature. */
  lemma OneSwitch(outcomes: nat -> Attempt, given: string, i: nat, j: nat)
    requires i < j <= 3 && PathAt(outcomes, given, i) != PathAt(outcomes, given, j)
    ensures given != "0" && PathAt(outcomes, given, i) == given && PathAt(outcomes, given, j) == "0"
    ensures var k := SwitchAfter(outcomes, given, 0);
            i <= k < j && RetriesPath(outcomes(k), k, true) && outcomes(k).result.badSignature &&
            forall a: nat :: a <= 3 ==> PathAt(outcomes, given, a) == if a <= k then given else "0"
  {
  }

  // EVM amounts.

  /** The bytes of a character in UTF-8. */
  function Utf8Length(c: char): (n: nat)
    ensures 1 <= n <= 4
  {
    if c as int < 0x80 then 1 else if c as int < 0x800 then 2 else if c as int < 0x1_0000 then 3 else 4
  }

  /** A slice of the first `count` bytes; it panics inside a character. */
  function FirstBytes(s: string, count: nat): Option<string> {
    if count == 0 then Some("")
    else if s == "" || Utf8Length(s[0]) > count then None
    else
      var rest :- FirstBytes(s[1..], count - Utf8Length(s[0]));
      Some([s[0]] + rest)
  }

  const WEI: nat := 1_000_000_000_000_000_000

  /** `parse_eth_to_wei`; None is a panic. The final sum wraps at 128 bits, as release builds do. */
  function EthToWei(amount: string): Option<nat> {
    var trimmed := Trim(amount);
    if trimmed == "" || trimmed == "0" then Some(0) else
      var parts := Split(trimmed, '.');
      var whole: nat := ParseUnsigned(parts[0], U128_LIMIT).UnwrapOr(0);
      var fracText := if |parts| > 1 then parts[1] else "";
      var digits :- FirstBytes(PadRight(fracText, 18), 18);
      var frac: nat := ParseUnsigned(digits, U128_LIMIT).UnwrapOr(0);
      Some((whole * WEI + frac) % U128_LIMIT)
  }

  lemma {:induction false} FirstBytesOfDigits(s: string)
    requires AllDigits(s)
    ensures FirstBytes(s, |s|) == Some(s)
  {
    if s != "" {
      assert IsDigit(s[0]);
      FirstBytesOfDigits(s[1..]);
      assert s == [s[0]] + s[1..];
    }
  }

  lemma {:induction false} FirstBytesPrefix(s: string, rest: string)
    requires AllDigits(s)
    ensures FirstBytes(s + rest, |s|) == Some(s)
  {
    if s != "" {
      assert IsDigit(s[0]);
      assert (s + rest)[1..] == s[1..] + rest;
      FirstBytesPrefix(s[1..], rest);
      assert s == [s[0]] + s[1..];
    }
  }

  /** The fraction of a numeral with at most 18 places, as the signer reads it. */
  lemma FractionInWei(frac: string)
    requires AllDigits(frac) && |frac| <= 18
    ensures FirstBytes(PadRight(frac, 18), 18) == Some(PadRight(frac, 18))
    ensures ParseUnsigned(PadRight(frac, 18), U128_LIMIT) == Some(Value(frac) * Pow(10, 18 - |frac|))
  {
    TenToThe18();
    hide FirstBytes, ParseUnsigned, Pow;
    PadRightValue(frac, 18);
    FirstBytesOfDigits(PadRight(frac, 18));
    ParseFraction(frac, 18);
  }

  /** The signer reads a numeral with at most 18 places exactly, if it fits. */
  lemma SignerReadsNumeral(amount: string, n: Numeral)
    requires n.Valid() && n.Places() <= 18 && Trim(amount) == n.Text() && n.Units(18) < U128_LIMIT
    ensures EthToWei(amount) == Some(n.Units(18))
  {
    TenToThe18();
    hide Trim, Split, ParseUnsigned, FirstBytes, Pow, PadRight, Value, IsDigit;
    NumeralSplit(n);
    DigitsParse(n.whole);
    ScaleLarge(Value(n.whole), 18);
    FractionInWei(if n.Whole? then "" else n.frac);
    if n.Text() == "0" {
      ZeroAmount(n);
    }
    EmptyValue();
  }

  lemma EmptyValue()
    ensures Value("") == 0
  {
  }

  /** Wherever the contract's 18-place parser gives a value, the signer reads the same one. */
  lemma SignerAgreesWithContract(amount: string)
    requires ParseAmount(amount, 18).Some?
    ensures EthToWei(amount) == ParseAmount(amount, 18)
  {
    var n := ParsedIsNumeral(amount, 18);
    ParseNumeral(amount, n, 18);
    SignerReadsNumeral(amount, n);
  }

  /** The two give the same answer exactly when the contract reads a value, or neither does. */
  lemma SignerAgreesIff(amount: string)
    ensures EthToWei(amount) == ParseAmount(amount, 18) <==> ParseAmount(amount, 18).Some? || EthToWei(amount).None?
  {
    hide EthToWei, ParseAmount;
    if ParseAmount(amount, 18).Some? {
      SignerAgreesWithContract(amount);
    }
  }

  /** Texts the contract refuses and the signer reads: nothing, a word, a sign, and a second point. */
  lemma SignerReadsMore()
    ensures ParseAmount("", 18) == None && EthToWei("") == Some(0)
    ensures ParseAmount("abc", 18) == None && EthToWei("abc") == Some(0)
    ensures ParseAmount("+1", 18) == None && EthToWei("+1") == Some(WEI)
    ensures ParseAmount("1.2.3", 18) == None && EthToWei("1.2.3") == Some(1_200_000_000_000_000_000)
  {
    hide Trim, Split, ParseUnsigned, FirstBytes, Pow, PadRight;
    forall s | s in {"", "abc", "+1", "1.2.3"} ensures Trim(s) == s {
      TrimIsTrimmed(s);
    }
    SplitOne("abc", '.');
    SplitOne("+1", '.');
    WordsRead();
    ThreePieces();
    FractionInWei("");
    FractionInWei("2");
    TenToThe18();
  }

  lemma WordsRead()
    ensures ParseUnsigned("abc", U128_LIMIT) == None
    ensures ParseUnsigned("+1", U128_LIMIT) == Some(1) && ParseUnsigned("1", U128_LIMIT) == Some(1)
    ensures Value("") == 0 && Value("2") * Pow(10, 17) == 200_000_000_000_000_000
    ensures !AllDigits("abc") && !AllDigits("+1")
  {
    assert Value("1") == 1 && Value("2") == 2 by {
      assert "1"[..0] == "" && "2"[..0] == "";
    }
    DigitsParse("1");
    assert "+1"[1..] == "1";
    assert !IsDigit("abc"[0]) && !IsDigit("+1"[0]);
    TenToThe18();
    assert Pow(10, 18) == 10 * Pow(10, 17);
  }

  lemma ThreePieces()
    ensures Split("1.2.3", '.') == ["1", "2", "3"]
  {
    hide Split, IndexOf;
    SplitTwo("2", "3", '.');
    SplitFirst("1", "2.3", '.');
    assert "2.3" == "2" + ['.'] + "3" && "1.2.3" == "1" + ['.'] + "2.3";
  }

  lemma ZeroAmount(n: Numeral)
    requires n.Valid() && n.Text() == "0"
    ensures n.Units(18) == 0
  {
    assert n.whole[0] == '0';
    assert |n.Text()| == 1;
    assert n == Whole("0");
    assert Value("0") == 0 by {
      assert "0"[..0] == "";
    }
  }

  /** Beyond that domain they differ: surplus fraction digits, which the contract refuses, are cut off. */
  lemma SurplusDigitsCut(amount: string, n: Numeral)
    requires n.Valid() && n.Places() > 18 && Trim(amount) == n.Text() && Value(n.whole) < U128_LIMIT
    ensures ParseAmount(amount, 18) == None
    ensures EthToWei(amount) == Some((Value(n.whole) * WEI + Value(n.frac[..18])) % U128_LIMIT)
  {
    TenToThe18();
    hide ParseAmount, Trim, Split, ParseUnsigned, FirstBytes, Pow, Value;
    ParseNumeral(amount, n, 18);
    NumeralSplit(n);
    DigitsParse(n.whole);
    var digits := n.frac[..18];
    assert PadRight(n.frac, 18) == n.frac == digits + n.frac[18..];
    FirstBytesPrefix(digits, n.frac[18..]);
    ValueBound(digits);
    DigitsParse(digits);
    assert n.Text()[|n.whole|] == '.';
  }
}
