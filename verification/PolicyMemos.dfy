/** Exactly which policy memos pass: those that describe the payload they come with. */
module PolicyMemos {
  import opened Basics
  import opened Text
  import opened Decimal
  import opened Library
  import opened Amounts
  import opened ApiKeyPolicy
  import opened ContractState
  import opened RawSigning
  import SolanaPayload
  import NearPayload

  /** The memo's payload is what stands between its prefix and the first bar, if it has the prefix. */
  lemma MemoPayloadIs(memo: string, payload: string)
    ensures PolicyMemoPayload(memo) == Some(payload) <==>
            '|' !in payload && (memo == "policy:" + payload || exists rest :: memo == "policy:" + payload + "|" + rest)
  {
    hide PolicyMemoPayload;
    if '|' !in payload && (memo == "policy:" + payload || exists rest :: memo == "policy:" + payload + "|" + rest) {
      var rest := if memo == "policy:" + payload then "" else var rest :| memo == "policy:" + payload + "|" + rest; rest;
      PayloadReadOff(memo, payload, rest);
    }
    if PolicyMemoPayload(memo) == Some(payload) {
      PayloadStands(memo, payload);
    }
  }

  lemma PayloadReadOff(memo: string, payload: string, rest: string)
    requires '|' !in payload && (memo == "policy:" + payload || memo == "policy:" + payload + "|" + rest)
    ensures PolicyMemoPayload(memo) == Some(payload)
  {
    hide Split, IndexOf;
    if memo == "policy:" + payload {
      assert memo[|POLICY_MEMO_PREFIX|..] == payload;
      SplitOne(payload, '|');
    } else {
      assert memo[|POLICY_MEMO_PREFIX|..] == payload + ['|'] + rest;
      SplitFirst(payload, rest, '|');
    }
  }

  lemma PayloadStands(memo: string, payload: string)
    requires PolicyMemoPayload(memo) == Some(payload)
    ensures '|' !in payload && (memo == "policy:" + payload || exists rest :: memo == "policy:" + payload + "|" + rest)
  {
    hide Split, IndexOf;
    var text := memo[|POLICY_MEMO_PREFIX|..];
    assert memo == "policy:" + text;
    if '|' in text {
      var i := IndexOf(text, '|');
      assert text == text[..i] + ['|'] + text[i + 1..];
      SplitFirst(text[..i], text[i + 1..], '|');
      assert memo == "policy:" + payload + "|" + text[i + 1..];
    } else {
      SplitOne(text, '|');
    }
  }

  /** A cap in the memo's rule, as a string, as a number of token units, or as the text of a number. */
  ghost predicate CapIs(meter: Meter, value: Option<Json>, cap: nat) {
    match value
    case Some(String(text)) => Writes(meter, text, cap)
    case Some(Number(text, units)) => if meter.TokenUnits? && units.Some? then units == Some(cap) else Writes(meter, text, cap)
    case _ => false
  }

  lemma CapIff(meter: Meter, value: Option<Json>, cap: nat)
    ensures MemoCap(meter, value) == Some(cap) <==> CapIs(meter, value, cap)
  {
    hide Parse, Writes;
    if value.Some? && value.value.String? {
      ParseWrites(meter, value.value.chars, cap);
    } else if value.Some? && value.value.Number? {
      ParseWrites(meter, value.value.text, cap);
    }
  }

  ghost predicate UpToCap(meter: Meter, value: Option<Json>, amount: nat) {
    forall cap: nat | CapIs(meter, value, cap) :: amount <= cap
  }

  lemma UpToCapIff(meter: Meter, value: Option<Json>, amount: nat)
    ensures WithinCap(amount, MemoCap(meter, value)) <==> UpToCap(meter, value, amount)
  {
    hide MemoCap, CapIs;
    forall cap: nat ensures MemoCap(meter, value) == Some(cap) <==> CapIs(meter, value, cap) {
      CapIff(meter, value, cap);
    }
    assert MemoCap(meter, value).Some? ==> CapIs(meter, value, MemoCap(meter, value).value);
  }

  /** The template and the destination are on the snapshot's lists, where those are not empty. */
  predicate InSnapshot(memo: PolicyMemo, destination: string) {
    match memo.snapshot
    case None => true
    case Some(s) =>
      (s.templateAllowlist == [] || memo.templateId in s.templateAllowlist) &&
      (s.destinationAllowlist == [] || destination in s.destinationAllowlist)
  }

  /** A rule for a native asset caps the amount; one for another asset does not apply. */
  ghost predicate NativeRuleAdmits(p: Platform, meter: Meter, memo: PolicyMemo, amount: nat) {
    match memo.snapshot
    case Some(Snapshot(_, _, Some(rule))) =>
      p.lowercase(Trim(rule.assetType)) == "native" ==> UpToCap(meter, rule.maxPerTxNative, amount)
    case _ => true
  }

  /** A rule must be for this token, and caps the amount. */
  ghost predicate TokenRuleAdmits(p: Platform, memo: PolicyMemo, ftContract: string, amount: nat) {
    match memo.snapshot
    case Some(Snapshot(_, _, Some(rule))) =>
      p.lowercase(Trim(rule.assetType)) == "token" && Trim(rule.assetId) != "" &&
      EqIgnoreAsciiCase(Trim(rule.assetId), ftContract) && UpToCap(TokenUnits, rule.maxPerTxNative, amount)
    case _ => true
  }

  lemma RulesIff(p: Platform, meter: Meter, memo: PolicyMemo, destination: string, ftContract: string, amount: nat)
    ensures SnapshotAllows(memo, destination) <==> InSnapshot(memo, destination)
    ensures NativeRuleAllows(p, meter, memo, amount) <==> NativeRuleAdmits(p, meter, memo, amount)
    ensures TokenRuleAllows(p, memo, ftContract, amount) <==> TokenRuleAdmits(p, memo, ftContract, amount)
  {
    hide MemoCap, UpToCap, Trim, EqIgnoreAsciiCase;
    if memo.snapshot.Some? && memo.snapshot.value.rule.Some? {
      UpToCapIff(meter, memo.snapshot.value.rule.value.maxPerTxNative, amount);
      UpToCapIff(TokenUnits, memo.snapshot.value.rule.value.maxPerTxNative, amount);
    }
  }

  /** The field is this string. */
  predicate Named(params: Json, key: string, value: string) {
    params.Get(key) == Some(String(value))
  }

  /** The first field is this string; or it is no string at all, and the other field is. */
  ghost predicate EitherNamed(params: Json, key: string, otherKey: string, value: string) {
    Named(params, key, value) || (Named(params, otherKey, value) && !exists text :: Named(params, key, text))
  }

  lemma FieldsNamed(params: Json, key: string, otherKey: string, value: string)
    ensures StringField(params, key) == Some(value) <==> Named(params, key, value)
    ensures FirstField(params, key, otherKey) == Some(value) <==> EitherNamed(params, key, otherKey, value)
  {
    hide Json.Get;
    if exists text :: Named(params, key, text) {
      assert StringField(params, key).Some?;
    } else if params.Get(key).Some? && params.Get(key).value.String? {
      assert Named(params, key, params.Get(key).value.chars);
    }
  }

  /** What the memo's parameters say of the sender, the destination and the token is what the check reads there. */
  lemma ParamsNamed(params: Json)
    ensures forall text :: StringField(params, "fromPublicKey") == Some(text) <==> Named(params, "fromPublicKey", text)
    ensures forall text :: StringField(params, "destination") == Some(text) <==> Named(params, "destination", text)
    ensures forall from :: FirstField(params, "fromPublicKey", "fromAddress") == Some(from) <==>
                           EitherNamed(params, "fromPublicKey", "fromAddress", from)
    ensures forall token :: FirstField(params, "tokenContract", "tokenAddress") == Some(token) <==>
                            EitherNamed(params, "tokenContract", "tokenAddress", token)
  {
    hide StringField, FirstField, Named, EitherNamed;
    forall text
      ensures StringField(params, "fromPublicKey") == Some(text) <==> Named(params, "fromPublicKey", text)
      ensures StringField(params, "destination") == Some(text) <==> Named(params, "destination", text)
      ensures FirstField(params, "fromPublicKey", "fromAddress") == Some(text) <==>
              EitherNamed(params, "fromPublicKey", "fromAddress", text)
      ensures FirstField(params, "tokenContract", "tokenAddress") == Some(text) <==>
              EitherNamed(params, "tokenContract", "tokenAddress", text)
    {
      FieldsNamed(params, "fromPublicKey", "fromAddress", text);
      FieldsNamed(params, "destination", "", text);
      FieldsNamed(params, "tokenContract", "tokenAddress", text);
    }
  }

  /** The memo names this sender, destination and amount, and its own snapshot of the policy allows them. */
  ghost predicate DescribesNative(p: Platform, meter: Meter, memo: PolicyMemo, destination: string, amount: nat) {
    Named(memo.templateParams, "destination", destination) &&
    (exists text :: Named(memo.templateParams, "amount", text) && Writes(meter, text, amount)) &&
    InSnapshot(memo, destination) && NativeRuleAdmits(p, meter, memo, amount)
  }

  ghost predicate DescribesSolana(p: Platform, memo: PolicyMemo, t: SolanaPayload.SolanaTransfer) {
    Named(memo.templateParams, "fromPublicKey", t.fromPublicKey) &&
    DescribesNative(p, Lamports, memo, t.destination, t.lamports)
  }

  ghost predicate NamesSender(p: Platform, memo: PolicyMemo, sender: string) {
    exists from :: EitherNamed(memo.templateParams, "fromPublicKey", "fromAddress", from) && p.lowercase(from) == sender
  }

  ghost predicate DescribesNear(p: Platform, memo: PolicyMemo, t: NearPayload.NativeTransfer) {
    NamesSender(p, memo, t.fromImplicit) && DescribesNative(p, Yocto, memo, t.destination, t.yocto)
  }

  ghost predicate DescribesFt(p: Platform, memo: PolicyMemo, t: NearPayload.FtTransfer) {
    NamesSender(p, memo, t.fromImplicit) &&
    Named(memo.templateParams, "destination", t.destination) &&
    (exists token :: EitherNamed(memo.templateParams, "tokenContract", "tokenAddress", token) &&
       EqIgnoreAsciiCase(t.ftContract, Trim(token))) &&
    (exists text :: Named(memo.templateParams, "amount", text) && Writes(TokenUnits, text, t.amount)) &&
    InSnapshot(memo, t.destination) && TokenRuleAdmits(p, memo, t.ftContract, t.amount)
  }

  lemma AmountWritten(meter: Meter, params: Json, amount: nat)
    ensures AmountMatches(meter, params, amount) <==>
            exists text :: Named(params, "amount", text) && Writes(meter, text, amount)
  {
    hide Parse, Writes, StringField, Named;
    forall text ensures StringField(params, "amount") == Some(text) <==> Named(params, "amount", text) {
      FieldsNamed(params, "amount", "", text);
    }
    if StringField(params, "amount").Some? {
      ParseWrites(meter, StringField(params, "amount").value, amount);
    }
  }

  /** A memo passes on Solana exactly when the payload is a transfer message the memo describes. */
  lemma SolanaMemoExact(p: Platform, payload: bytes, memo: string, policy: PolicyMemo)
    requires PolicyMemoPayload(memo).Some? && p.policyMemo(PolicyMemoPayload(memo).value) == Some(policy)
    requires policy.templateId == SOL_NATIVE
    ensures CheckMemo(p, Solana, payload, Some(memo)).Some? <==>
            exists m: SolanaPayload.Message :: m.Valid() && m.Bytes() == payload && DescribesSolana(p, policy, m.Transfer())
  {
    hide SolanaPayload.Parse, SolanaPayload.Message.Valid, SolanaPayload.Message.Bytes, SolanaPayload.Message.Transfer,
         PolicyMemoPayload, StringField, Named, SnapshotAllows, NativeRuleAllows, AmountMatches, Writes, InSnapshot, NativeRuleAdmits;
    ParamsNamed(policy.templateParams);
    forall t: SolanaPayload.SolanaTransfer
      ensures SolanaPayload.Parse(payload) == Ok(t) <==>
              exists m: SolanaPayload.Message :: m.Valid() && m.Bytes() == payload && m.Transfer() == t
      ensures AmountMatches(Lamports, policy.templateParams, t.lamports) <==>
              exists text :: Named(policy.templateParams, "amount", text) && Writes(Lamports, text, t.lamports)
      ensures SnapshotAllows(policy, t.destination) <==> InSnapshot(policy, t.destination)
      ensures NativeRuleAllows(p, Lamports, policy, t.lamports) <==> NativeRuleAdmits(p, Lamports, policy, t.lamports)
    {
      SolanaPayload.ParseExact(payload, t);
      AmountWritten(Lamports, policy.templateParams, t.lamports);
      RulesIff(p, Lamports, policy, t.destination, "", t.lamports);
    }
    assert CheckMemo(p, Solana, payload, Some(memo)).Some? <==> MemoSolana(p, payload, policy).Some?;
    if m: SolanaPayload.Message :| m.Valid() && m.Bytes() == payload && DescribesSolana(p, policy, m.Transfer()) {
      assert SolanaPayload.Parse(payload) == Ok(m.Transfer());
    }
  }

  /** The same on NEAR for native transfers, under either native template. */
  lemma NearMemoExact(p: Platform, payload: bytes, memo: string, policy: PolicyMemo)
    requires PolicyMemoPayload(memo).Some? && p.policyMemo(PolicyMemoPayload(memo).value) == Some(policy)
    requires policy.templateId == NEAR_NATIVE || policy.templateId == SOL_NATIVE
    ensures CheckMemo(p, Near, payload, Some(memo)).Some? <==>
            exists tx: NearPayload.Transaction, t: NearPayload.NativeTransfer ::
              NearPayload.IsNative(p, tx, t) && tx.Bytes() == payload && DescribesNear(p, policy, t)
  {
    hide NearPayload.ParseNative, NearPayload.IsNative, NearPayload.Transaction.Bytes, PolicyMemoPayload, StringField,
         Named, EitherNamed, FirstField, SnapshotAllows, NativeRuleAllows, AmountMatches, Writes, InSnapshot, NativeRuleAdmits;
    ParamsNamed(policy.templateParams);
    forall t: NearPayload.NativeTransfer
      ensures NearPayload.ParseNative(p, payload) == Ok(t) <==>
              exists tx: NearPayload.Transaction :: NearPayload.IsNative(p, tx, t) && tx.Bytes() == payload
      ensures AmountMatches(Yocto, policy.templateParams, t.yocto) <==>
              exists text :: Named(policy.templateParams, "amount", text) && Writes(Yocto, text, t.yocto)
      ensures SnapshotAllows(policy, t.destination) <==> InSnapshot(policy, t.destination)
      ensures NativeRuleAllows(p, Yocto, policy, t.yocto) <==> NativeRuleAdmits(p, Yocto, policy, t.yocto)
    {
      NearPayload.NativeExact(p, payload, t);
      AmountWritten(Yocto, policy.templateParams, t.yocto);
      RulesIff(p, Yocto, policy, t.destination, "", t.yocto);
    }
    assert CheckMemo(p, Near, payload, Some(memo)).Some? <==> MemoNear(p, payload, policy).Some?;
  }

  /** The same on NEAR for token transfers. */
  lemma FtMemoExact(p: Platform, payload: bytes, memo: string, policy: PolicyMemo)
    requires PolicyMemoPayload(memo).Some? && p.policyMemo(PolicyMemoPayload(memo).value) == Some(policy)
    requires policy.templateId == NEAR_FT
    ensures CheckMemo(p, Near, payload, Some(memo)).Some? <==>
            exists tx: NearPayload.Transaction, t: NearPayload.FtTransfer ::
              NearPayload.IsFt(p, tx, t) && tx.Bytes() == payload && DescribesFt(p, policy, t)
  {
    hide NearPayload.ParseFt, NearPayload.IsFt, NearPayload.Transaction.Bytes, PolicyMemoPayload, StringField,
         Named, EitherNamed, FirstField, SnapshotAllows, TokenRuleAllows, AmountMatches, EqIgnoreAsciiCase, Writes, InSnapshot, TokenRuleAdmits;
    ParamsNamed(policy.templateParams);
    forall t: NearPayload.FtTransfer
      ensures NearPayload.ParseFt(p, payload) == Ok(t) <==>
              exists tx: NearPayload.Transaction :: NearPayload.IsFt(p, tx, t) && tx.Bytes() == payload
      ensures AmountMatches(TokenUnits, policy.templateParams, t.amount) <==>
              exists text :: Named(policy.templateParams, "amount", text) && Writes(TokenUnits, text, t.amount)
      ensures SnapshotAllows(policy, t.destination) <==> InSnapshot(policy, t.destination)
      ensures TokenRuleAllows(p, policy, t.ftContract, t.amount) <==> TokenRuleAdmits(p, policy, t.ftContract, t.amount)
    {
      NearPayload.FtExact(p, payload, t);
      AmountWritten(TokenUnits, policy.templateParams, t.amount);
      RulesIff(p, TokenUnits, policy, t.destination, t.ftContract, t.amount);
    }
    assert CheckMemo(p, Near, payload, Some(memo)).Some? <==> MemoFt(p, payload, policy).Some?;
  }
}
