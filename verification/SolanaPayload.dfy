/** Which byte strings the contract recognises as one native Solana transfer. */
module SolanaPayload {
  import opened Basics
  import opened ByteOrder
  import opened ByteReader
  import Base58

  const SYSTEM_PROGRAM_ID := "11111111111111111111111111111111"

  /** `ParsedSolanaNativeTransfer`. */
  datatype SolanaTransfer = SolanaTransfer(fromPublicKey: string, destination: string, lamports: nat)

  function ReadAccounts(input: bytes, count: nat): Result<(seq<string>, bytes)> {
    if count == 0 then Ok(([], input)) else
      var (front, mid) :- ReadAccounts(input, count - 1);
      var (key, rest) :- ReadBytes(mid, 32);
      Ok((front + [Base58.Encode(key)], rest))
  }

  /** `parse_solana_native_transfer`. */
  function Parse(payload: bytes): Result<SolanaTransfer> {
    var (_, r1) :- ReadU8(payload);
    var (_, r2) :- ReadU8(r1);
    var (_, r3) :- ReadU8(r2);
    var (accountCount, r4) :- ReadShortvec(r3);
    var (accounts, r5) :- ReadAccounts(r4, accountCount);
    var (_, r6) :- ReadBytes(r5, 32);
    var (instructionCount, r7) :- ReadShortvec(r6);
    if instructionCount != 1 then Err("expected exactly one instruction") else
      ParseInstruction(accounts, r7)
  }

  function ParseInstruction(accounts: seq<string>, input: bytes): Result<SolanaTransfer> {
    var (program, r1) :- ReadU8(input);
    var (indexCount, r2) :- ReadShortvec(r1);
    if indexCount != 2 then Err("expected transfer account list") else
      var (from, r3) :- ReadU8(r2);
      var (destination, r4) :- ReadU8(r3);
      var (dataLen, r5) :- ReadShortvec(r4);
      var (data, rest) :- ReadBytes(r5, dataLen);
      if rest != [] then Err("unexpected trailing bytes")
      else if program >= |accounts| || from >= |accounts| || destination >= |accounts| then
        Err("account index out of range")
      else if accounts[program] != SYSTEM_PROGRAM_ID then Err("not a system transfer")
      else if |data| != 12 then Err("unexpected instruction data len")
      else if FromLittleEndian(data[..4]) != 2 then Err("not a transfer opcode")
      else Ok(SolanaTransfer(accounts[from], accounts[destination], FromLittleEndian(data[4..])))
  }

  // The wire format, written down independently of the parser.

  /** A message with one two-account system instruction: opcode 2, then the lamports. */
  datatype Message = Message(
    header: bytes,
    accountCount: bytes,
    accounts: seq<bytes>,
    blockhash: bytes,
    instructionCount: bytes,
    program: byte,
    indexCount: bytes,
    from: byte,
    destination: byte,
    dataLen: bytes,
    lamports: nat)
  {
    /** Counts may be spelled in any way a compact length allows. */
    predicate Valid() {
      |header| == 3 && Spells(accountCount, |accounts|) && |accounts| < U32_LIMIT &&
      (forall i :: 0 <= i < |accounts| ==> |accounts[i]| == 32) &&
      |blockhash| == 32 && Spells(instructionCount, 1) && Spells(indexCount, 2) && Spells(dataLen, 12) &&
      program < |accounts| && from < |accounts| && destination < |accounts| &&
      accounts[program] == seq(32, i => 0) && lamports < U64_LIMIT
    }

    function InstructionBytes(): bytes {
      [program] + (indexCount + ([from] + ([destination] + (dataLen + (LittleEndian(2, 4) + LittleEndian(lamports, 8))))))
    }

    function Bytes(): bytes {
      header + (accountCount + (Joined(accounts) + (blockhash + (instructionCount + InstructionBytes()))))
    }

    function Transfer(): SolanaTransfer
      requires Valid()
    {
      SolanaTransfer(Base58.Encode(accounts[from]), Base58.Encode(accounts[destination]), lamports)
    }
  }

  function Joined(keys: seq<bytes>): bytes {
    if keys == [] then [] else Joined(keys[..|keys| - 1]) + keys[|keys| - 1]
  }

  function Names(keys: seq<bytes>): (names: seq<string>)
    ensures |names| == |keys|
    ensures forall i :: 0 <= i < |keys| ==> names[i] == Base58.Encode(keys[i])
  {
    seq(|keys|, i requires 0 <= i < |keys| => Base58.Encode(keys[i]))
  }

  lemma {:induction false} ReadJoined(keys: seq<bytes>, rest: bytes)
    requires forall i :: 0 <= i < |keys| ==> |keys[i]| == 32
    ensures ReadAccounts(Joined(keys) + rest, |keys|) == Ok((Names(keys), rest))
  {
    if keys == [] {
      assert Joined(keys) + rest == rest;
    } else {
      var front, key := keys[..|keys| - 1], keys[|keys| - 1];
      assert Joined(keys) + rest == Joined(front) + (key + rest);
      ReadJoined(front, key + rest);
      ReadBytesExact(key + rest, 32, key, rest);
      assert Names(keys) == Names(front) + [Base58.Encode(key)];
    }
  }

  lemma {:induction false} ReadAccountsJoined(input: bytes, count: nat) returns (keys: seq<bytes>)
    requires ReadAccounts(input, count).Ok?
    ensures |keys| == count && forall i :: 0 <= i < count ==> |keys[i]| == 32
    ensures var (names, rest) := ReadAccounts(input, count).value; names == Names(keys) && input == Joined(keys) + rest
  {
    if count == 0 {
      keys := [];
      assert input == Joined(keys) + input;
    } else {
      var front := ReadAccountsJoined(input, count - 1);
      var mid := ReadAccounts(input, count - 1).value.1;
      var (key, rest) := ReadBytes(mid, 32).value;
      ReadBytesExact(mid, 32, key, rest);
      keys := front + [key];
      assert keys[..count - 1] == front;
      assert Joined(front) + (key + rest) == Joined(keys) + rest;
    }
  }

  lemma HeaderExact(input: bytes, rest: bytes)
    requires |input| >= 3
    ensures ReadU8(input).Ok? && ReadU8(input[1..]).Ok? && ReadU8(input[2..]) == Ok((input[2], input[3..]))
    ensures ReadU8(input).value.1 == input[1..] && ReadU8(input[1..]).value.1 == input[2..]
  {
    assert input[1..][1..] == input[2..] && input[2..][1..] == input[3..];
  }

  /** A valid instruction is read back. */
  lemma ReadInstruction(m: Message)
    requires m.Valid()
    ensures ParseInstruction(Names(m.accounts), m.InstructionBytes()) == Ok(m.Transfer())
  {
    hide ReadU8, ReadShortvec, ReadBytes, FromLittleEndian, LittleEndian, Base58.Encode, Spells;
    var data := LittleEndian(2, 4) + LittleEndian(m.lamports, 8);
    var e := m.dataLen + data;
    var d := [m.destination] + e;
    var c := [m.from] + d;
    var b := m.indexCount + c;
    ReadU8Exact(m.InstructionBytes(), m.program, b);
    ReadShortvecExact(b, 2, c);
    ReadU8Exact(c, m.from, d);
    ReadU8Exact(d, m.destination, e);
    ReadShortvecExact(e, 12, data);
    ReadBytesExact(data, 12, data, []);
    assert data + [] == data;
    TransferData(data, m.lamports);
    Base58.SystemProgramId(m.accounts[m.program]);
  }

  /** The twelve data bytes of a transfer, both ways. */
  lemma TransferData(data: bytes, lamports: nat)
    requires |data| == 12
    ensures lamports < U64_LIMIT && data == LittleEndian(2, 4) + LittleEndian(lamports, 8) <==>
            FromLittleEndian(data[..4]) == 2 && FromLittleEndian(data[4..]) == lamports
  {
    TwoToThe64();
    assert Pow(256, 4) > 2;
    ReadUintExact(data, 4, 2, LittleEndian(lamports, 8));
    ReadUintExact(data[4..], 8, lamports, []);
    assert data[4..][..8] == data[4..] && data[4..][8..] == [];
    assert LittleEndian(lamports, 8) + [] == LittleEndian(lamports, 8);
    if FromLittleEndian(data[..4]) == 2 && FromLittleEndian(data[4..]) == lamports {
      assert data[4..] == LittleEndian(lamports, 8);
    }
  }

  /** Completeness: every valid message is accepted, with its own transfer. */
  lemma ValidMessageAccepted(m: Message)
    requires m.Valid()
    ensures Parse(m.Bytes()) == Ok(m.Transfer())
  {
    hide ReadU8, ReadShortvec, ReadBytes, ReadAccounts, ParseInstruction, Spells, Message.InstructionBytes;
    var f := m.instructionCount + m.InstructionBytes();
    var e := m.blockhash + f;
    var d := Joined(m.accounts) + e;
    var c := m.accountCount + d;
    var payload := m.Bytes();
    assert payload[3..] == c;
    HeaderExact(payload, c);
    ReadShortvecExact(c, |m.accounts|, d);
    ReadJoined(m.accounts, e);
    ReadBytesExact(e, 32, m.blockhash, f);
    ReadShortvecExact(f, 1, m.InstructionBytes());
    ReadInstruction(m);
  }

  lemma HeaderRead(payload: bytes)
    requires Parse(payload).Ok?
    ensures |payload| >= 3 && Parse(payload) == AfterHeader(payload[3..])
  {
    hide ReadShortvec, ReadBytes, ReadAccounts, ParseInstruction;
    assert payload[1..][1..] == payload[2..] && payload[2..][1..] == payload[3..];
  }

  /** `Parse` past its three header bytes. */
  function AfterHeader(input: bytes): Result<SolanaTransfer> {
    var (accountCount, r4) :- ReadShortvec(input);
    var (accounts, r5) :- ReadAccounts(r4, accountCount);
    var (_, r6) :- ReadBytes(r5, 32);
    var (instructionCount, r7) :- ReadShortvec(r6);
    if instructionCount != 1 then Err("expected exactly one instruction") else
      ParseInstruction(accounts, r7)
  }

  lemma SpellingRead(input: bytes) returns (sp: bytes)
    requires ReadShortvec(input).Ok?
    ensures var (value, rest) := ReadShortvec(input).value; Spells(sp, value) && input == sp + rest
  {
    var (value, rest) := ReadShortvec(input).value;
    ReadShortvecExact(input, value, rest);
    sp :| Spells(sp, value) && input == sp + rest;
  }

  /** The instruction part of whatever was accepted. */
  lemma AcceptedInstruction(keys: seq<bytes>, input: bytes, shell: Message) returns (m: Message)
    requires ParseInstruction(Names(keys), input).Ok?
    requires shell.accounts == keys && forall i :: 0 <= i < |keys| ==> |keys[i]| == 32
    ensures m == shell.(program := m.program, indexCount := m.indexCount, from := m.from,
                        destination := m.destination, dataLen := m.dataLen, lamports := m.lamports)
    ensures m.InstructionBytes() == input
    ensures Spells(m.indexCount, 2) && Spells(m.dataLen, 12) && m.lamports < U64_LIMIT
    ensures m.program < |keys| && m.from < |keys| && m.destination < |keys| && keys[m.program] == seq(32, i => 0)
    ensures ParseInstruction(Names(keys), input) ==
            Ok(SolanaTransfer(Base58.Encode(keys[m.from]), Base58.Encode(keys[m.destination]), m.lamports))
  {
    hide ReadU8, ReadShortvec, ReadBytes, FromLittleEndian, LittleEndian, Base58.Encode, Spells;
    var (program, r1) := ReadU8(input).value;
    var (indexCount, r2) := ReadShortvec(r1).value;
    var (from, r3) := ReadU8(r2).value;
    var (destination, r4) := ReadU8(r3).value;
    var (dataLen, r5) := ReadShortvec(r4).value;
    var (data, rest) := ReadBytes(r5, dataLen).value;
    ReadU8Exact(input, program, r1);
    var indexSpelling := SpellingRead(r1);
    ReadU8Exact(r2, from, r3);
    ReadU8Exact(r3, destination, r4);
    var lenSpelling := SpellingRead(r4);
    ReadBytesExact(r5, dataLen, data, rest);
    var lamports := FromLittleEndian(data[4..]);
    TransferData(data, lamports);
    Base58.SystemProgramId(keys[program]);
    assert r5 == data + [] == data;
    m := shell.(program := program, indexCount := indexSpelling, from := from,
                destination := destination, dataLen := lenSpelling, lamports := lamports);
  }

  /** Soundness: whatever is accepted is, to the last byte, a valid message. */
  lemma AcceptedIsMessage(payload: bytes) returns (m: Message)
    requires Parse(payload).Ok?
    ensures m.Valid() && m.Bytes() == payload && Parse(payload) == Ok(m.Transfer())
  {
    hide ReadU8, ReadShortvec, ReadBytes, ReadAccounts, ParseInstruction, Spells, Parse, Message.InstructionBytes;
    HeaderRead(payload);
    var c := payload[3..];
    var (accountCount, d) := ReadShortvec(c).value;
    var (names, e) := ReadAccounts(d, accountCount).value;
    var (blockhash, f) := ReadBytes(e, 32).value;
    var (instructionCount, g) := ReadShortvec(f).value;
    var countSpelling := SpellingRead(c);
    var keys := ReadAccountsJoined(d, accountCount);
    ReadBytesExact(e, 32, blockhash, f);
    var instructionSpelling := SpellingRead(f);
    var shell := Message(payload[..3], countSpelling, keys, blockhash, instructionSpelling, 0, [], 0, 0, [], 0);
    m := AcceptedInstruction(keys, g, shell);
    assert payload == payload[..3] + c;
    SpelledBelowLimit(countSpelling, |keys|);
  }

  lemma SpelledBelowLimit(sp: bytes, value: nat)
    requires Spells(sp, value)
    ensures value < U32_LIMIT
  {
  }

  /** A payload is accepted as a transfer exactly when it is a valid message carrying that transfer. */
  lemma ParseExact(payload: bytes, transfer: SolanaTransfer)
    ensures Parse(payload) == Ok(transfer) <==>
            exists m: Message :: m.Valid() && m.Bytes() == payload && m.Transfer() == transfer
  {
    hide Parse, Message.Bytes;
    if Parse(payload) == Ok(transfer) {
      var m := AcceptedIsMessage(payload);
    }
    forall m: Message | m.Valid() && m.Bytes() == payload
      ensures Parse(payload) == Ok(m.Transfer())
    {
      ValidMessageAccepted(m);
    }
  }

  /** `parse_solana_native_transfer` as the contract runs it, over one advancing position. */
  method ParseSolanaNativeTransfer(payload: bytes) returns (r: Result<SolanaTransfer>)
    ensures r == Parse(payload)
  {
    hide ReadU8, ReadShortvec, ReadBytes, FromLittleEndian, Base58.Encode, ParseInstruction;
    var reader := new Reader(payload);
    var _ :- reader.U8();
    var _ :- reader.U8();
    var _ :- reader.U8();
    var accountCount :- reader.Shortvec();
    var accounts: seq<string> := [];
    ghost var start := reader.Rest();
    for i := 0 to accountCount
      invariant reader.Valid() && reader.data == payload && fresh(reader)
      invariant ReadAccounts(start, i) == Ok((accounts, reader.Rest()))
    {
      var key := reader.Bytes(32);
      if key.Err? {
        ReadAccountsFails(start, i + 1, accountCount, key.error);
        return Err(key.error);
      }
      accounts := accounts + [Base58.Encode(key.value)];
    }
    var _ :- reader.Bytes(32);
    var instructionCount :- reader.Shortvec();
    if instructionCount != 1 {
      return Err("expected exactly one instruction");
    }
    r := ParseTransferInstruction(reader, accounts);
  }

  lemma {:induction false} ReadAccountsFails(input: bytes, few: nat, many: nat, error: string)
    requires few <= many && ReadAccounts(input, few) == Err(error)
    ensures ReadAccounts(input, many) == Err(error)
  {
    hide ReadBytes, Base58.Encode;
    if few < many {
      ReadAccountsFails(input, few, many - 1, error);
    }
  }

  method ParseTransferInstruction(reader: Reader, accounts: seq<string>) returns (r: Result<SolanaTransfer>)
    requires reader.Valid()
    modifies reader
    ensures r == ParseInstruction(accounts, old(reader.Rest()))
  {
    hide ReadU8, ReadShortvec, ReadBytes, FromLittleEndian;
    var program :- reader.U8();
    var indexCount :- reader.Shortvec();
    if indexCount != 2 {
      return Err("expected transfer account list");
    }
    var from :- reader.U8();
    var destination :- reader.U8();
    var dataLen :- reader.Shortvec();
    var data :- reader.Bytes(dataLen);
    if reader.pos != |reader.data| {
      return Err("unexpected trailing bytes");
    }
    if program >= |accounts| || from >= |accounts| || destination >= |accounts| {
      return Err("account index out of range");
    }
    if accounts[program] != SYSTEM_PROGRAM_ID {
      return Err("not a system transfer");
    }
    if |data| != 12 {
      return Err("unexpected instruction data len");
    }
    if FromLittleEndian(data[..4]) != 2 {
      return Err("not a transfer opcode");
    }
    return Ok(SolanaTransfer(accounts[from], accounts[destination], FromLittleEndian(data[4..])));
  }
}
