/** Which byte strings the contract recognises as a native NEAR transfer or an `ft_transfer` call. */
module NearPayload {
  import opened Basics
  import opened Text
  import opened ByteOrder
  import opened ByteReader
  import opened Library
  import opened Amounts

  /** `ParsedNearNativeTransfer`. */
  datatype NativeTransfer = NativeTransfer(fromImplicit: string, destination: string, yocto: nat)

  /** `ParsedNearFtTransfer`. */
  datatype FtTransfer = FtTransfer(fromImplicit: string, ftContract: string, destination: string, amount: nat)

  function ReadBlob(input: bytes): Result<(bytes, bytes)> {
    var (len, rest) :- ReadUint(input, 4);
    ReadBytes(rest, len)
  }

  /** `read_borsh_string`. */
  function ReadString(p: Platform, input: bytes): Result<(string, bytes)> {
    var (data, rest) :- ReadBlob(input);
    var text := p.utf8(data);
    if text.None? then Err("invalid utf8") else Ok((text.value, rest))
  }

  /** Up to the receiver: (lower-cased signer, receiver). */
  function ReadParties(p: Platform, input: bytes): Result<((string, string), bytes)> {
    var (signer, r1) :- ReadString(p, input);
    var (keyType, r2) :- ReadU8(r1);
    if keyType != 0 then Err("unsupported public key type") else
      var (_, r3) :- ReadBytes(r2, 32);
      var (_, r4) :- ReadUint(r3, 8);
      var (receiver, r5) :- ReadString(p, r4);
      Ok(((p.lowercase(signer), receiver), r5))
  }

  /** The block hash and the number of actions. */
  function ReadActionCount(input: bytes): Result<(nat, bytes)> {
    var (_, r1) :- ReadBytes(input, 32);
    ReadUint(r1, 4)
  }

  /** `parse_near_native_transfer`. */
  function ParseNative(p: Platform, payload: bytes): Result<NativeTransfer> {
    var (parties, r1) :- ReadParties(p, payload);
    var (actionCount, r2) :- ReadActionCount(r1);
    if actionCount != 1 then Err("expected exactly one action") else
      var (variant, r3) :- ReadU8(r2);
      if variant != 3 then Err("not a transfer action") else
        var (yocto, rest) :- ReadU128(r3);
        if rest != [] then Err("unexpected trailing bytes") else Ok(NativeTransfer(parties.0, parties.1, yocto))
  }

  /** The method name, then the arguments, gas and deposit of a function call: (args, deposit). */
  function ReadCall(p: Platform, input: bytes, name: string, notCall: string, notNamed: string): Result<((bytes, nat), bytes)> {
    var (variant, r1) :- ReadU8(input);
    if variant != 2 then Err(notCall) else
      var (methodName, r2) :- ReadString(p, r1);
      if methodName != name then Err(notNamed) else
        var (args, r3) :- ReadBlob(r2);
        var (_, r4) :- ReadUint(r3, 8);
        var (deposit, r5) :- ReadU128(r4);
        Ok(((args, deposit), r5))
  }

  /** A trimmed, non-blank string field. */
  function TrimmedField(args: Json, key: string): Option<string> {
    var text :- StringField(args, key);
    if Trim(text) == "" then None else Some(Trim(text))
  }

  /** What `storage_deposit` must look like; the account it registers. */
  function StorageAccount(p: Platform, args: bytes, deposit: nat): Result<string> {
    if deposit == 0 then Err("storage_deposit requires attached deposit") else
      var json := p.json(args);
      if json.None? then Err("invalid storage_deposit args") else
        var only := json.value.Get("registration_only");
        if only.Some? && only.value.AsBool() != Some(true) then Err("storage_deposit registration_only must be true") else
          var account := TrimmedField(json.value, "account_id");
          if account.None? then Err("storage_deposit account_id required") else Ok(account.value)
  }

  /** The receiver and amount in the arguments of `ft_transfer`. */
  function TransferArgs(p: Platform, args: bytes, storageAccount: Option<string>): Result<(string, nat)> {
    var json := p.json(args);
    if json.None? then Err("invalid ft_transfer args") else
      var destination := TrimmedField(json.value, "receiver_id");
      if destination.None? then Err("ft_transfer receiver_id required")
      else if storageAccount.Some? && storageAccount != destination then
        Err("storage_deposit account_id must match ft_transfer receiver_id")
      else
        var text := AmountText(json.value);
        if text.None? then Err("ft_transfer amount required") else
          var amount := ParseTokenUnits(text.value);
          if amount.None? then Err("invalid ft_transfer amount")
          else if amount.value == 0 then Err("ft_transfer amount must be positive")
          else Ok((destination.value, amount.value))
  }

  /** The amount as text, whether it was written as a string or as an unsigned integer. */
  function AmountText(args: Json): Option<string> {
    var field :- args.Get("amount");
    if field.AsStr().Some? then field.AsStr()
    else if field.AsU64().Some? then Some(NatText(field.AsU64().value))
    else None
  }

  /** The optional `storage_deposit` before the transfer. */
  function ReadStorageDeposit(p: Platform, input: bytes, actionCount: nat): Result<(Option<string>, bytes)> {
    if actionCount != 2 then Ok((None, input)) else
      var ((args, deposit), rest) :- ReadCall(p, input, "storage_deposit", "storage_deposit must be a function call",
                                              "first action must be storage_deposit");
      var account :- StorageAccount(p, args, deposit);
      Ok((Some(account), rest))
  }

  /** `parse_near_ft_transfer`. */
  function ParseFt(p: Platform, payload: bytes): Result<FtTransfer> {
    var ((signer, contract), r1) :- ReadParties(p, payload);
    if contract == "" then Err("ft contract required") else
      var (actionCount, r2) :- ReadActionCount(r1);
      if actionCount != 1 && actionCount != 2 then Err("expected one or two actions") else
        var (storageAccount, r3) :- ReadStorageDeposit(p, r2, actionCount);
        var ((args, deposit), rest) :- ReadCall(p, r3, "ft_transfer", "not a function call action", "not an ft_transfer call");
        if deposit != 1 then Err("ft_transfer requires 1 yocto deposit")
        else if rest != [] then Err("unexpected trailing bytes")
        else
          var (destination, amount) :- TransferArgs(p, args, storageAccount);
          Ok(FtTransfer(signer, contract, destination, amount))
  }

  // The Borsh layout of a transaction, written down independently of the parsers.

  datatype Action =
    | Transfer(yocto: nat)
    | FunctionCall(methodName: bytes, args: bytes, gas: nat, deposit: nat)
  {
    predicate Valid() {
      match this
      case Transfer(yocto) => yocto < U128_LIMIT
      case FunctionCall(name, args, gas, deposit) =>
        |name| < U32_LIMIT && |args| < U32_LIMIT && gas < U64_LIMIT && deposit < U128_LIMIT
    }

    function Bytes(): bytes {
      match this
      case Transfer(yocto) => [3] + LittleEndian(yocto, 16)
      case FunctionCall(name, args, gas, deposit) =>
        [2] + (Blob(name) + (Blob(args) + (LittleEndian(gas, 8) + LittleEndian(deposit, 16))))
    }
  }

  datatype Transaction = Transaction(
    signer: bytes,
    publicKey: bytes,
    nonce: nat,
    receiver: bytes,
    blockHash: bytes,
    actions: seq<Action>)
  {
    predicate Valid() {
      |signer| < U32_LIMIT && |publicKey| == 32 && nonce < U64_LIMIT && |receiver| < U32_LIMIT &&
      |blockHash| == 32 && |actions| < U32_LIMIT && forall i :: 0 <= i < |actions| ==> actions[i].Valid()
    }

    function PartiesBytes(): bytes {
      Blob(signer) + ([0] + (publicKey + (LittleEndian(nonce, 8) + Blob(receiver))))
    }

    function Bytes(): bytes {
      PartiesBytes() + (blockHash + (LittleEndian(|actions|, 4) + ActionsBytes(actions)))
    }
  }

  function Blob(data: bytes): bytes {
    LittleEndian(|data|, 4) + data
  }

  function ActionsBytes(actions: seq<Action>): bytes {
    if actions == [] then [] else actions[0].Bytes() + ActionsBytes(actions[1..])
  }

  // Borsh fields, both ways.

  lemma Widths()
    ensures Pow(256, 4) == U32_LIMIT && Pow(256, 8) == U64_LIMIT && Pow(256, 16) == U128_LIMIT
  {
  }

  lemma ReadBlobExact(input: bytes, data: bytes, rest: bytes)
    ensures ReadBlob(input) == Ok((data, rest)) <==> |data| < U32_LIMIT && input == Blob(data) + rest
  {
    hide LittleEndian, FromLittleEndian;
    Widths();
    assert Blob(data) + rest == LittleEndian(|data|, 4) + (data + rest);
    ReadUintExact(input, 4, |data|, data + rest);
    ReadBytesExact(data + rest, |data|, data, rest);
    if ReadBlob(input) == Ok((data, rest)) {
      var (len, mid) := ReadUint(input, 4).value;
      ReadBytesExact(mid, len, data, rest);
    }
  }

  /** The parties read are those of a transaction whose bytes start the input. */
  lemma PartiesRead(p: Platform, tx: Transaction, rest: bytes)
    requires |tx.signer| < U32_LIMIT && |tx.publicKey| == 32 && tx.nonce < U64_LIMIT && |tx.receiver| < U32_LIMIT
    requires p.utf8(tx.signer).Some? && p.utf8(tx.receiver).Some?
    ensures ReadParties(p, tx.PartiesBytes() + rest) ==
            Ok(((p.lowercase(p.utf8(tx.signer).value), p.utf8(tx.receiver).value), rest))
  {
    hide ReadBlob, ReadU8, ReadBytes, ReadUint, Blob, LittleEndian;
    Widths();
    var d := Blob(tx.receiver) + rest;
    var c := LittleEndian(tx.nonce, 8) + d;
    var b := tx.publicKey + c;
    var a := [0] + b;
    assert tx.PartiesBytes() + rest == Blob(tx.signer) + a;
    ReadBlobExact(Blob(tx.signer) + a, tx.signer, a);
    ReadU8Exact(a, 0, b);
    ReadBytesExact(b, 32, tx.publicKey, c);
    ReadUintExact(c, 8, tx.nonce, d);
    ReadBlobExact(d, tx.receiver, rest);
  }

  lemma PartiesOf(p: Platform, input: bytes) returns (tx: Transaction)
    requires ReadParties(p, input).Ok?
    ensures |tx.signer| < U32_LIMIT && |tx.publicKey| == 32 && tx.nonce < U64_LIMIT && |tx.receiver| < U32_LIMIT
    ensures p.utf8(tx.signer).Some? && p.utf8(tx.receiver).Some?
    ensures var (parties, rest) := ReadParties(p, input).value;
            input == tx.PartiesBytes() + rest &&
            parties == (p.lowercase(p.utf8(tx.signer).value), p.utf8(tx.receiver).value)
  {
    hide ReadBlob, ReadU8, ReadBytes, ReadUint, Blob, LittleEndian;
    Widths();
    var (signer, a) := ReadBlob(input).value;
    var (keyType, b) := ReadU8(a).value;
    var (publicKey, c) := ReadBytes(b, 32).value;
    var (nonce, d) := ReadUint(c, 8).value;
    var (receiver, rest) := ReadBlob(d).value;
    ReadBlobExact(input, signer, a);
    ReadU8Exact(a, keyType, b);
    ReadBytesExact(b, 32, publicKey, c);
    ReadUintExact(c, 8, nonce, d);
    ReadBlobExact(d, receiver, rest);
    tx := Transaction(signer, publicKey, nonce, receiver, [], []);
    assert input == tx.PartiesBytes() + rest;
  }

  lemma ActionCountExact(input: bytes, count: nat, rest: bytes)
    ensures ReadActionCount(input) == Ok((count, rest)) <==>
            count < U32_LIMIT && exists hash: bytes :: |hash| == 32 && input == hash + (LittleEndian(count, 4) + rest)
  {
    hide LittleEndian, FromLittleEndian;
    Widths();
    if ReadActionCount(input) == Ok((count, rest)) {
      var (hash, mid) := ReadBytes(input, 32).value;
      ReadBytesExact(input, 32, hash, mid);
      ReadUintExact(mid, 4, count, rest);
      assert |hash| == 32 && input == hash + (LittleEndian(count, 4) + rest);
    }
    forall hash: bytes | |hash| == 32 && count < U32_LIMIT && input == hash + (LittleEndian(count, 4) + rest)
      ensures ReadActionCount(input) == Ok((count, rest))
    {
      ReadBytesExact(input, 32, hash, LittleEndian(count, 4) + rest);
      ReadUintExact(LittleEndian(count, 4) + rest, 4, count, rest);
    }
  }

  // Native transfers.

  ghost predicate IsNative(p: Platform, tx: Transaction, t: NativeTransfer) {
    tx.Valid() && tx.actions == [Transfer(t.yocto)] &&
    p.utf8(tx.signer).Some? && t.fromImplicit == p.lowercase(p.utf8(tx.signer).value) &&
    p.utf8(tx.receiver) == Some(t.destination)
  }

  lemma OneActionBytes(a: Action)
    ensures ActionsBytes([a]) == a.Bytes()
  {
    assert ActionsBytes([]) == [];
  }

  lemma TwoActionsBytes(a: Action, b: Action)
    ensures ActionsBytes([a, b]) == a.Bytes() + b.Bytes()
  {
    OneActionBytes(b);
    assert [a, b][1..] == [b];
  }

  /** Building a native transfer and parsing it returns its fields, the sender lower-cased. */
  lemma NativeBuildParse(p: Platform, tx: Transaction, t: NativeTransfer)
    requires IsNative(p, tx, t)
    ensures ParseNative(p, tx.Bytes()) == Ok(t)
  {
    hide ReadParties, ReadActionCount, ReadU8, ReadU128, Transaction.PartiesBytes, LittleEndian;
    OneActionBytes(tx.actions[0]);
    var actions := [3] + LittleEndian(t.yocto, 16);
    var tail := tx.blockHash + (LittleEndian(1, 4) + actions);
    PartiesRead(p, tx, tail);
    ActionCountExact(tail, 1, actions);
    ReadU8Exact(actions, 3, LittleEndian(t.yocto, 16));
    ReadU128Exact(LittleEndian(t.yocto, 16), t.yocto, []);
    assert LittleEndian(t.yocto, 16) + [] == LittleEndian(t.yocto, 16);
  }

  lemma NativeAccepted(p: Platform, payload: bytes) returns (tx: Transaction)
    requires ParseNative(p, payload).Ok?
    ensures tx.Bytes() == payload && IsNative(p, tx, ParseNative(p, payload).value)
  {
    hide ReadParties, ReadActionCount, ReadU8, ReadU128, Transaction.PartiesBytes, LittleEndian;
    var (parties, r1) := ReadParties(p, payload).value;
    var shell := PartiesOf(p, payload);
    var (count, r2) := ReadActionCount(r1).value;
    ActionCountExact(r1, count, r2);
    var hash: bytes :| |hash| == 32 && r1 == hash + (LittleEndian(count, 4) + r2);
    var (variant, r3) := ReadU8(r2).value;
    ReadU8Exact(r2, variant, r3);
    var (yocto, rest) := ReadU128(r3).value;
    ReadU128Exact(r3, yocto, rest);
    assert LittleEndian(yocto, 16) + [] == LittleEndian(yocto, 16);
    tx := shell.(blockHash := hash, actions := [Transfer(yocto)]);
    OneActionBytes(tx.actions[0]);
    SameParties(shell, tx);
  }

  lemma SameParties(a: Transaction, b: Transaction)
    requires a.signer == b.signer && a.publicKey == b.publicKey && a.nonce == b.nonce && a.receiver == b.receiver
    ensures a.PartiesBytes() == b.PartiesBytes()
  {
  }

  /** A payload is accepted as a native transfer exactly when it is the bytes of one. */
  lemma NativeExact(p: Platform, payload: bytes, t: NativeTransfer)
    ensures ParseNative(p, payload) == Ok(t) <==>
            exists tx: Transaction :: IsNative(p, tx, t) && tx.Bytes() == payload
  {
    hide ParseNative, Transaction.Bytes;
    if ParseNative(p, payload) == Ok(t) {
      var tx := NativeAccepted(p, payload);
    }
    forall tx: Transaction | IsNative(p, tx, t) && tx.Bytes() == payload
      ensures ParseNative(p, payload) == Ok(t)
    {
      NativeBuildParse(p, tx, t);
    }
  }

  // Token transfers.

  /** A string field that reads as this value when trimmed. */
  ghost predicate Says(args: Json, key: string, value: string) {
    exists text :: args.Get(key) == Some(String(text)) && Trim(text) == value
  }

  /** The amount is positive, and written as its own numeral or as an unsigned integer. */
  ghost predicate SaysAmount(args: Json, amount: nat) {
    0 < amount < U128_LIMIT &&
    (Says(args, "amount", NatText(amount)) || exists text :: args.Get("amount") == Some(Number(text, Some(amount))))
  }

  /** The arguments of an `ft_transfer` that moves this amount to this receiver. */
  ghost predicate TransfersTo(p: Platform, args: bytes, destination: string, amount: nat) {
    destination != "" && p.json(args).Some? &&
    Says(p.json(args).value, "receiver_id", destination) && SaysAmount(p.json(args).value, amount)
  }

  /** A `storage_deposit` that pays for this account, and registers it only. */
  ghost predicate Registers(p: Platform, args: bytes, deposit: nat, account: string) {
    deposit > 0 && account != "" && p.json(args).Some? && Says(p.json(args).value, "account_id", account) &&
    (p.json(args).value.Get("registration_only") == None || p.json(args).value.Get("registration_only") == Some(Bool(true)))
  }

  /** The calls of a transfer, with or without a registration first, and what they say. */
  ghost predicate IsFt(p: Platform, tx: Transaction, t: FtTransfer) {
    tx.Valid() && 1 <= |tx.actions| <= 2 && (forall i :: 0 <= i < |tx.actions| ==> tx.actions[i].FunctionCall?) &&
    p.utf8(tx.signer).Some? && t.fromImplicit == p.lowercase(p.utf8(tx.signer).value) &&
    p.utf8(tx.receiver) == Some(t.ftContract) && t.ftContract != "" &&
    var call := tx.actions[|tx.actions| - 1];
    p.utf8(call.methodName) == Some("ft_transfer") && call.deposit == 1 &&
    (|tx.actions| == 2 ==>
       p.utf8(tx.actions[0].methodName) == Some("storage_deposit") &&
       Registers(p, tx.actions[0].args, tx.actions[0].deposit, t.destination)) &&
    TransfersTo(p, call.args, t.destination, t.amount)
  }

  lemma TrimmedFieldExact(args: Json, key: string, value: string)
    ensures TrimmedField(args, key) == Some(value) <==> value != "" && Says(args, key, value)
  {
    hide Trim, Lookup;
  }

  lemma AmountExact(args: Json, amount: nat)
    ensures (AmountText(args).Some? && ParseTokenUnits(AmountText(args).value) == Some(amount) && amount > 0) <==> SaysAmount(args, amount)
  {
    hide Trim, Lookup, ParseTokenUnits, NatText;
    if AmountText(args).Some? {
      TokenUnitsExact(AmountText(args).value, amount);
    }
    var field := args.Get("amount");
    if field.Some? && field.value.AsU64().Some? {
      NumeralOfNumber(field.value.asU64.value, amount);
    }
  }

  /** A number's own numeral is trimmed, and no other number's. */
  lemma NumeralOfNumber(n: nat, amount: nat)
    ensures Trim(NatText(n)) == NatText(amount) <==> n == amount
  {
    NatTextCanonical(n);
    NatTextValue(n);
    NatTextValue(amount);
    TrimIsTrimmed(NatText(n));
  }

  /** The arguments are read exactly: a receiver and an amount are found if and only if they are said. */
  lemma TransferArgsExact(p: Platform, args: bytes, destination: string, amount: nat)
    ensures TransferArgs(p, args, None) == Ok((destination, amount)) <==> TransfersTo(p, args, destination, amount)
  {
    hide TrimmedField, AmountText, ParseTokenUnits, Says, SaysAmount;
    if p.json(args).Some? {
      TrimmedFieldExact(p.json(args).value, "receiver_id", destination);
      AmountExact(p.json(args).value, amount);
    }
  }

  lemma StorageAccountExact(p: Platform, args: bytes, deposit: nat, account: string)
    ensures StorageAccount(p, args, deposit) == Ok(account) <==> Registers(p, args, deposit, account)
  {
    hide TrimmedField, Says, Lookup;
    if p.json(args).Some? {
      TrimmedFieldExact(p.json(args).value, "account_id", account);
    }
  }

  lemma CallRead(p: Platform, a: Action, rest: bytes, name: string, notCall: string, notNamed: string)
    requires a.FunctionCall? && a.Valid() && p.utf8(a.methodName) == Some(name)
    ensures ReadCall(p, a.Bytes() + rest, name, notCall, notNamed) == Ok(((a.args, a.deposit), rest))
  {
    hide ReadBlob, ReadU8, ReadUint, ReadU128, Blob, LittleEndian;
    Widths();
    var d := LittleEndian(a.deposit, 16) + rest;
    var c := LittleEndian(a.gas, 8) + d;
    var b := Blob(a.args) + c;
    var e := Blob(a.methodName) + b;
    assert a.Bytes() + rest == [2] + e;
    ReadU8Exact([2] + e, 2, e);
    ReadBlobExact(e, a.methodName, b);
    ReadBlobExact(b, a.args, c);
    ReadUintExact(c, 8, a.gas, d);
    ReadU128Exact(d, a.deposit, rest);
  }

  lemma CallOf(p: Platform, input: bytes, name: string, notCall: string, notNamed: string) returns (a: Action)
    requires ReadCall(p, input, name, notCall, notNamed).Ok?
    ensures a.FunctionCall? && a.Valid() && p.utf8(a.methodName) == Some(name)
    ensures var ((args, deposit), rest) := ReadCall(p, input, name, notCall, notNamed).value;
            input == a.Bytes() + rest && a.args == args && a.deposit == deposit
  {
    hide ReadBlob, ReadU8, ReadUint, ReadU128, Blob, LittleEndian;
    Widths();
    var (variant, e) := ReadU8(input).value;
    var (methodName, b) := ReadBlob(e).value;
    var (args, c) := ReadBlob(b).value;
    var (gas, d) := ReadUint(c, 8).value;
    var (deposit, rest) := ReadU128(d).value;
    ReadU8Exact(input, variant, e);
    ReadBlobExact(e, methodName, b);
    ReadBlobExact(b, args, c);
    ReadUintExact(c, 8, gas, d);
    ReadU128Exact(d, deposit, rest);
    a := FunctionCall(methodName, args, gas, deposit);
    assert input == a.Bytes() + rest;
  }

  /** A registered account only restricts which receiver the transfer may name. */
  lemma TransferArgsMatch(p: Platform, args: bytes, storageAccount: Option<string>, destination: string, amount: nat)
    ensures TransferArgs(p, args, storageAccount) == Ok((destination, amount)) <==>
            TransferArgs(p, args, None) == Ok((destination, amount)) &&
            (storageAccount.Some? ==> storageAccount.value == destination)
  {
    hide ParseTokenUnits, AmountText, TrimmedField;
  }

  /** Building an `ft_transfer`, with or without its registration, and parsing it returns its fields. */
  lemma FtBuildParse(p: Platform, tx: Transaction, t: FtTransfer)
    requires IsFt(p, tx, t)
    ensures ParseFt(p, tx.Bytes()) == Ok(t)
  {
    hide ReadParties, ReadActionCount, ReadCall, StorageAccount, TransferArgs, Transaction.PartiesBytes, LittleEndian,
         Action.Bytes, Action.Valid, TransfersTo, Registers;
    var n := |tx.actions|;
    var call := tx.actions[n - 1];
    var actions := ActionsBytes(tx.actions);
    var tail := tx.blockHash + (LittleEndian(n, 4) + actions);
    PartiesRead(p, tx, tail);
    ActionCountExact(tail, n, actions);
    if n == 1 {
      assert tx.actions == [call];
      OneActionBytes(call);
    } else {
      assert tx.actions == [tx.actions[0], call];
      TwoActionsBytes(tx.actions[0], call);
      CallRead(p, tx.actions[0], call.Bytes(), "storage_deposit", "storage_deposit must be a function call",
               "first action must be storage_deposit");
    }
    CallRead(p, call, [], "ft_transfer", "not a function call action", "not an ft_transfer call");
    assert call.Bytes() + [] == call.Bytes();
    TransferArgsExact(p, call.args, t.destination, t.amount);
    if n == 2 {
      StorageAccountExact(p, tx.actions[0].args, tx.actions[0].deposit, t.destination);
    }
    TransferArgsMatch(p, call.args, if n == 1 then None else Some(t.destination), t.destination, t.amount);
  }

  lemma FtAccepted(p: Platform, payload: bytes) returns (tx: Transaction)
    requires ParseFt(p, payload).Ok?
    ensures tx.Bytes() == payload && IsFt(p, tx, ParseFt(p, payload).value)
  {
    hide ReadParties, ReadActionCount, ReadCall, StorageAccount, TransferArgs, Transaction.PartiesBytes, LittleEndian,
         Action.Bytes, Action.Valid, TransfersTo, Registers;
    var t := ParseFt(p, payload).value;
    var (parties, r1) := ReadParties(p, payload).value;
    var shell := PartiesOf(p, payload);
    var (count, r2) := ReadActionCount(r1).value;
    ActionCountExact(r1, count, r2);
    var hash: bytes :| |hash| == 32 && r1 == hash + (LittleEndian(count, 4) + r2);
    var (storageAccount, r3) := ReadStorageDeposit(p, r2, count).value;
    var call := CallOf(p, r3, "ft_transfer", "not a function call action", "not an ft_transfer call");
    var moved := TransferArgs(p, call.args, storageAccount).value;
    assert t == FtTransfer(parties.0, parties.1, moved.0, moved.1);
    TransferArgsMatch(p, call.args, storageAccount, t.destination, t.amount);
    TransferArgsExact(p, call.args, t.destination, t.amount);
    assert call.Bytes() + [] == call.Bytes();
    if count == 1 {
      tx := shell.(blockHash := hash, actions := [call]);
      OneActionBytes(call);
    } else {
      var deposit := CallOf(p, r2, "storage_deposit", "storage_deposit must be a function call",
                            "first action must be storage_deposit");
      StorageAccountExact(p, deposit.args, deposit.deposit, t.destination);
      tx := shell.(blockHash := hash, actions := [deposit, call]);
      TwoActionsBytes(deposit, call);
    }
    SameParties(shell, tx);
  }

  /** A payload is accepted as a token transfer exactly when it is the bytes of one. */
  lemma FtExact(p: Platform, payload: bytes, t: FtTransfer)
    ensures ParseFt(p, payload) == Ok(t) <==> exists tx: Transaction :: IsFt(p, tx, t) && tx.Bytes() == payload
  {
    hide ParseFt, Transaction.Bytes, IsFt;
    if ParseFt(p, payload) == Ok(t) {
      var tx := FtAccepted(p, payload);
    }
    forall tx: Transaction | IsFt(p, tx, t) && tx.Bytes() == payload
      ensures ParseFt(p, payload) == Ok(t)
    {
      FtBuildParse(p, tx, t);
    }
  }

  // Transactions are prefix-free, so an accepted payload has one reading and no accepted extension.

  function ReadAction(input: bytes): Option<(Action, bytes)> {
    if input == [] then None
    else if input[0] == 3 then
      var r := ReadU128(input[1..]);
      if r.Ok? then Some((Transfer(r.value.0), r.value.1)) else None
    else
      var name := ReadBlob(input[1..]);
      if name.Err? then None else
        var args := ReadBlob(name.value.1);
        if args.Err? then None else
          var gas := ReadUint(args.value.1, 8);
          if gas.Err? then None else
            var deposit := ReadU128(gas.value.1);
            if deposit.Err? then None
            else Some((FunctionCall(name.value.0, args.value.0, gas.value.0, deposit.value.0), deposit.value.1))
  }

  lemma ActionReadBack(a: Action, rest: bytes)
    requires a.Valid()
    ensures ReadAction(a.Bytes() + rest) == Some((a, rest))
  {
    hide ReadBlob, ReadUint, ReadU128, Blob, LittleEndian;
    Widths();
    match a
    case Transfer(yocto) =>
      assert (a.Bytes() + rest)[1..] == LittleEndian(yocto, 16) + rest;
      ReadU128Exact(LittleEndian(yocto, 16) + rest, yocto, rest);
    case FunctionCall(name, args, gas, deposit) =>
      var d := LittleEndian(deposit, 16) + rest;
      var c := LittleEndian(gas, 8) + d;
      var b := Blob(args) + c;
      assert (a.Bytes() + rest)[1..] == Blob(name) + b;
      ReadBlobExact(Blob(name) + b, name, b);
      ReadBlobExact(b, args, c);
      ReadUintExact(c, 8, gas, d);
      ReadU128Exact(d, deposit, rest);
  }

  lemma {:induction false} ActionsPrefixFree(a: seq<Action>, b: seq<Action>, x: bytes, y: bytes)
    requires |a| == |b| && (forall i :: 0 <= i < |a| ==> a[i].Valid() && b[i].Valid())
    requires ActionsBytes(a) + x == ActionsBytes(b) + y
    ensures a == b && x == y
  {
    hide Action.Bytes, Action.Valid;
    if a == [] {
      assert [] + x == x && [] + y == y;
    } else {
      var s, t := ActionsBytes(a[1..]) + x, ActionsBytes(b[1..]) + y;
      assert ActionsBytes(a) + x == a[0].Bytes() + s;
      assert ActionsBytes(b) + y == b[0].Bytes() + t;
      ActionReadBack(a[0], s);
      ActionReadBack(b[0], t);
      ActionsPrefixFree(a[1..], b[1..], x, y);
      assert a == [a[0]] + a[1..] && b == [b[0]] + b[1..];
    }
  }

  lemma BlobsPrefixFree(a: bytes, b: bytes, x: bytes, y: bytes)
    requires |a| < U32_LIMIT && |b| < U32_LIMIT && Blob(a) + x == Blob(b) + y
    ensures a == b && x == y
  {
    hide ReadBlob, Blob;
    ReadBlobExact(Blob(a) + x, a, x);
    ReadBlobExact(Blob(b) + y, b, y);
  }

  lemma FixedWidthPrefix(a: bytes, b: bytes, x: bytes, y: bytes)
    requires |a| == |b| && a + x == b + y
    ensures a == b && x == y
  {
    assert a == (a + x)[..|a|] && b == (b + y)[..|b|];
    assert x == (a + x)[|a|..] && y == (b + y)[|b|..];
  }

  lemma LittleEndianInjective(m: nat, n: nat, width: nat)
    requires m < Pow(256, width) && n < Pow(256, width) && LittleEndian(m, width) == LittleEndian(n, width)
    ensures m == n
  {
    LittleEndianRoundTrip(m, width);
    LittleEndianRoundTrip(n, width);
  }

  lemma PartiesPrefixFree(a: Transaction, b: Transaction, x: bytes, y: bytes)
    requires a.Valid() && b.Valid() && a.PartiesBytes() + x == b.PartiesBytes() + y
    ensures a.signer == b.signer && a.publicKey == b.publicKey && a.nonce == b.nonce && a.receiver == b.receiver && x == y
  {
    hide Blob, LittleEndian;
    Widths();
    var a3, b3 := Blob(a.receiver) + x, Blob(b.receiver) + y;
    var a2, b2 := LittleEndian(a.nonce, 8) + a3, LittleEndian(b.nonce, 8) + b3;
    var a1, b1 := [0] + (a.publicKey + a2), [0] + (b.publicKey + b2);
    assert a.PartiesBytes() + x == Blob(a.signer) + a1;
    assert b.PartiesBytes() + y == Blob(b.signer) + b1;
    BlobsPrefixFree(a.signer, b.signer, a1, b1);
    assert a1[1..] == a.publicKey + a2 && b1[1..] == b.publicKey + b2;
    FixedWidthPrefix(a.publicKey, b.publicKey, a2, b2);
    FixedWidthPrefix(LittleEndian(a.nonce, 8), LittleEndian(b.nonce, 8), a3, b3);
    LittleEndianInjective(a.nonce, b.nonce, 8);
    BlobsPrefixFree(a.receiver, b.receiver, x, y);
  }

  /** No transaction's bytes begin another's: a byte string splits into transaction and rest one way. */
  lemma TransactionsPrefixFree(a: Transaction, b: Transaction, x: bytes, y: bytes)
    requires a.Valid() && b.Valid() && a.Bytes() + x == b.Bytes() + y
    ensures a == b && x == y
  {
    hide Transaction.PartiesBytes, LittleEndian, ActionsBytes, Action.Valid;
    Widths();
    var a3, b3 := ActionsBytes(a.actions) + x, ActionsBytes(b.actions) + y;
    var a2, b2 := LittleEndian(|a.actions|, 4) + a3, LittleEndian(|b.actions|, 4) + b3;
    var a1, b1 := a.blockHash + a2, b.blockHash + b2;
    assert a.Bytes() + x == a.PartiesBytes() + a1;
    assert b.Bytes() + y == b.PartiesBytes() + b1;
    PartiesPrefixFree(a, b, a1, b1);
    FixedWidthPrefix(a.blockHash, b.blockHash, a2, b2);
    FixedWidthPrefix(LittleEndian(|a.actions|, 4), LittleEndian(|b.actions|, 4), a3, b3);
    LittleEndianInjective(|a.actions|, |b.actions|, 4);
    ActionsPrefixFree(a.actions, b.actions, x, y);
  }

  /** No payload is both a native transfer and a token transfer. */
  lemma ParsersDisjoint(p: Platform, payload: bytes)
    ensures ParseNative(p, payload).Err? || ParseFt(p, payload).Err?
  {
    hide ParseNative, ParseFt, Transaction.Bytes, StorageAccount, TransferArgs;
    if ParseNative(p, payload).Ok? && ParseFt(p, payload).Ok? {
      var a := NativeAccepted(p, payload);
      var b := FtAccepted(p, payload);
      assert a.Bytes() + [] == b.Bytes() + [];
      TransactionsPrefixFree(a, b, [], []);
    }
  }

  /** Anything appended to an accepted payload makes it rejected. */
  lemma ExtensionRejected(p: Platform, payload: bytes, suffix: bytes)
    requires suffix != []
    ensures ParseNative(p, payload).Ok? ==> ParseNative(p, payload + suffix).Err?
    ensures ParseFt(p, payload).Ok? ==> ParseFt(p, payload + suffix).Err?
  {
    hide ParseNative, ParseFt, Transaction.Bytes, StorageAccount, TransferArgs;
    if ParseNative(p, payload).Ok? && ParseNative(p, payload + suffix).Ok? {
      var a := NativeAccepted(p, payload);
      var b := NativeAccepted(p, payload + suffix);
      assert a.Bytes() + suffix == b.Bytes() + [];
      TransactionsPrefixFree(a, b, suffix, []);
    }
    if ParseFt(p, payload).Ok? && ParseFt(p, payload + suffix).Ok? {
      var a := FtAccepted(p, payload);
      var b := FtAccepted(p, payload + suffix);
      assert a.Bytes() + suffix == b.Bytes() + [];
      TransactionsPrefixFree(a, b, suffix, []);
    }
  }

  // The parsers as the contract runs them, over one advancing position.

  method BorshString(p: Platform, reader: Reader) returns (r: Result<string>)
    requires reader.Valid()
    modifies reader
    ensures reader.Did(ReadString(p, old(reader.Rest())), r)
  {
    hide ReadUint, ReadBytes;
    var len :- reader.Uint(4);
    var data :- reader.Bytes(len);
    var text := p.utf8(data);
    if text.None? {
      return Err("invalid utf8");
    }
    return Ok(text.value);
  }

  method BorshBytes(reader: Reader) returns (r: Result<bytes>)
    requires reader.Valid()
    modifies reader
    ensures reader.Did(ReadBlob(old(reader.Rest())), r)
  {
    hide ReadUint, ReadBytes;
    var len :- reader.Uint(4);
    r := reader.Bytes(len);
  }

  method ParseNearNativeTransfer(p: Platform, payload: bytes) returns (r: Result<NativeTransfer>)
    ensures r == ParseNative(p, payload)
  {
    hide ReadString, ReadU8, ReadBytes, ReadUint, ReadU128;
    var reader := new Reader(payload);
    var from :- BorshString(p, reader);
    var fromImplicit := p.lowercase(from);
    var keyType :- reader.U8();
    if keyType != 0 {
      return Err("unsupported public key type");
    }
    var _ :- reader.Bytes(32);
    var nonce :- reader.Uint(8);
    var destination :- BorshString(p, reader);
    var _ :- reader.Bytes(32);
    var actionCount :- reader.Uint(4);
    if actionCount != 1 {
      return Err("expected exactly one action");
    }
    var variant :- reader.U8();
    if variant != 3 {
      return Err("not a transfer action");
    }
    var yocto :- reader.U128();
    if reader.pos != |payload| {
      return Err("unexpected trailing bytes");
    }
    return Ok(NativeTransfer(fromImplicit, destination, yocto));
  }

  method ParseCall(p: Platform, reader: Reader, name: string, notCall: string, notNamed: string)
    returns (r: Result<(bytes, nat)>)
    requires reader.Valid()
    modifies reader
    ensures reader.Did(ReadCall(p, old(reader.Rest()), name, notCall, notNamed), r)
  {
    hide ReadString, ReadBlob, ReadU8, ReadUint, ReadU128;
    var variant :- reader.U8();
    if variant != 2 {
      return Err(notCall);
    }
    var methodName :- BorshString(p, reader);
    if methodName != name {
      return Err(notNamed);
    }
    var args :- BorshBytes(reader);
    var gas :- reader.Uint(8);
    var deposit :- reader.U128();
    return Ok((args, deposit));
  }

  method ParseNearFtTransfer(p: Platform, payload: bytes) returns (r: Result<FtTransfer>)
    ensures r == ParseFt(p, payload)
  {
    hide ReadString, ReadU8, ReadBytes, ReadUint, ReadCall, StorageAccount, TransferArgs;
    var reader := new Reader(payload);
    var from :- BorshString(p, reader);
    var fromImplicit := p.lowercase(from);
    var keyType :- reader.U8();
    if keyType != 0 {
      return Err("unsupported public key type");
    }
    var _ :- reader.Bytes(32);
    var nonce :- reader.Uint(8);
    var ftContract :- BorshString(p, reader);
    if ftContract == "" {
      return Err("ft contract required");
    }
    var _ :- reader.Bytes(32);
    var actionCount :- reader.Uint(4);
    if actionCount != 1 && actionCount != 2 {
      return Err("expected one or two actions");
    }
    var storageAccount: Option<string> := None;
    if actionCount == 2 {
      var call :- ParseCall(p, reader, "storage_deposit", "storage_deposit must be a function call",
                            "first action must be storage_deposit");
      var account :- StorageAccount(p, call.0, call.1);
      storageAccount := Some(account);
    }
    var call :- ParseCall(p, reader, "ft_transfer", "not a function call action", "not an ft_transfer call");
    if call.1 != 1 {
      return Err("ft_transfer requires 1 yocto deposit");
    }
    if reader.pos != |payload| {
      return Err("unexpected trailing bytes");
    }
    var moved :- TransferArgs(p, call.0, storageAccount);
    return Ok(FtTransfer(fromImplicit, ftContract, moved.0, moved.1));
  }
}
