# Holder core: a verified model

A Dafny model of the parts of the wallet where correctness depends on several pieces agreeing:

- the NEAR contract that lets an account's subkeys ask the MPC network for signatures under stored
  spending policies (`near/src/lib.rs`);
- the signer's NEAR client: endpoint health, the poll for a result, and the search for a signature
  in it (`rust-signer-external/src/near_client.rs`);
- the unified seed store of the front end (`frontend-lib/custody/encryptedSessionManager.ts`);
- the signer's Solana retry loop and its reading of EVM amounts
  (`rust-signer-external/src/sign_pipeline.rs`).

`dafny verify dfyconfig.toml` checks the project.

## How it is built

`Transitions` says what every contract call does to the stored state, or that it panics.
`SubkeyContract.Contract` is the contract object: its methods update fields step by step and are
proved against those transitions. `ContractRuns` interleaves calls with the callbacks the runtime
delivers, and the theorems about runs (`Emissions`, `SpendingRuns`, `PolicyWrites`, `ManagerGrants`,
`Registrations`, `OwnerCalls`, `RequestIds`) hold for every such interleaving; `AcrossChains` and `CalldataRun` are concrete runs. Below
them lie the layers they rest on: amounts as text (`Decimal`, `Amounts`), the payload parsers
(`ByteReader`, `SolanaPayload`, `NearPayload`) and the EVM encodings (`Rlp`, `Eip1559`, `Eip3009`), each
proved against a specification written independently of it. What the source runs step by step also
appears as a method, proved against the function that the theorems are about.

Modelling choices:

- A panic is `None` and leaves the state unchanged. The runtime delivers at most one callback for
  each accepted request, in any order and at any time.
- Library calls are parameters (`Library.Platform`, `SeedStore.Vault`): UTF-8, lower-casing, JSON,
  base64, SHA-256, Keccak-256, password hashing, encryption. A theorem that needs
  a property of one names it: base64 and JSON do not grow (`Shrinking`), decryption undoes encryption
  (`Vault.Sound`).
- Base-58 and hexadecimal are modelled in full. Account ids follow NEAR's character rules, which is
  why `|` and `:` separate unambiguously.
- The contract's target is wasm32: the compact-length reader drops the bits a 32-bit shift drops. An
  allocation too large for memory counts as a failed parse, which aborts the call either way.
- `parse_eth_to_wei` wraps at 128 bits, as release builds do.
- Block time and the signer's clock are inputs; clock values stay below 2^64 milliseconds.

## Where the code and its description differ

- The comment at `near/src/lib.rs:1081-1090` says an id in flight cannot be used again. Only stored
  results are consulted: `RequestIds.RawIdAcceptedIff` is the exact condition, and
  `RequestIds.SameIdTwiceInFlight` a run that has one id in flight twice.
- A policy for `sol_native_transfer_v1` meters Solana and NEAR in one text field. A total that is not
  a whole number of lamports cannot be read at 9 places and counts as zero on Solana.
  `SharedCounter.TotalKeptIff` has the exact condition under which the total is kept, and
  `AcrossChains` a run of accepted calls that passes its cap without it. The count cap always holds.
- The comment at `near/src/lib.rs:136-137` says the EVM transaction fields cannot redirect funds. They
  include the calldata, which no check reads: a request for amount 0 to a token contract is signed with
  whatever that contract is to be called with (`EvmSigning.AnyCalldataSigned`, `CalldataRun`). Chain id, nonce,
  gas and fees are not checked either (`EvmSigning.AcceptedWithOtherFields`).
- The token that template, policy and cap check is nowhere in what is signed on EVM
  (`EvmSigning.SignedIgnoresToken`); on a token template the cap bounds the native value.
- What is signed is the plain transfer that was checked exactly when the memo has neither digest prefix and
  there is no calldata (`EvmSigning.PlainTransferIff`). With `eip712-digest:` it is the memo's own 32 bytes
  (`MemoDigestSigned`). With `x402-eip3009:` it is an authorization of the checked amount to the checked
  recipient, in the token and from the sender that the memo names unchecked (`MemoAuthorizationSigned`).
- A stored policy looks at raw payloads only for some asset types and templates; under any other it
  passes every payload, unmetered. A native NEAR policy without destinations also passes token transfers
  of any token and amount (`RawAcceptance.UncheckedIff`, `RawCheckedIff`).
- Caps are validated at 18 places but enforced at 9 (Solana), 24 (NEAR) or whole units (NEP-141); a cap
  that cannot be written there is absent (`PolicyWrites.CapEnforcedIff`), and then admits any amount
  (`PolicyWrites.SubunitCapsAdmitEverything`, `UnfitPeriodCapDecidesNothing`).
- Grants are documented for the root wallet only, and the ungated policy calls for root or browser. The
  code asks for a direct call and a registered key and does not look at the key that signs
  (`ManagerGrants.GrantAcceptedIff`, `UngatedWriteAcceptedIff`), so the method list of an access key,
  which the NEAR runtime enforces and this model leaves out, decides who can make them. Without it the key
  a policy limits can end "until the policy is next written" in the spending theorems by its own write
  (`ManagerGrants.LimitedKeyCanRewrite`). Every stored grant is full, so the self-policy case decides nothing.
- `loadUnifiedSeed` reads a field of every slot before the one it wants, so a hole below a slot makes
  the load return null (`SeedStore.FindExact`). What is assigned loads exactly while slot 0 is filled
  (`SeedRuns.AssignedPhrasesLoadIff`); after a migration without a main seed nothing loads.
- The seed hash is 32 bits wide (`SeedHash.SomePhrasesCollide`) and colliding phrases share a slot
  (`SeedStore.CollidingPhraseNotStored`).
- In the Solana loop a signature failure on the third attempt switches the path, but there is no
  attempt left to use it.
- The contract refuses surplus fraction digits, which the signer cuts off (`SignPipeline.SurplusDigitsCut`), and
  other texts that the signer reads as some amount (`SignPipeline.SignerAgreesIff`, `SignerReadsMore`).

## Model

| member | source | states |
|---|---|---|
| Decimal.ParseAmountExact | near/src/lib.rs:2153-2186 | the parser gives a value exactly when the trimmed text is a numeral, its fraction has no more digits than the precision, and the exact scaled value fits 128 bits; and then it gives that value |
| Decimal.ParseDecimalAmountToUnits | near/src/lib.rs:2153-2186 | the parser, step by step, computes the function the exactness theorem is about |
| Decimal.DropTrailingZeros | near/src/lib.rs:2264-2267 | the loop that shortens a fraction removes exactly its trailing zeros |
| Decimal.AmountString | near/src/lib.rs:2257-2269 | the printer of yocto (and, at 9 places, lamports) yields the text the round trips below are about |
| Decimal.PrintParse | near/src/lib.rs:2450-2461 | at every precision whose scale fits, printing an amount and parsing it again is the identity |
| Decimal.PrintParseCoarser | near/src/lib.rs:2153-2186 | a text printed at a finer precision is read at a coarser one exactly, or refused when it has a finer fraction |
| Decimal.PrintParseFiner | near/src/lib.rs:2153-2186 | a text printed at a coarser precision is always read at a finer one, exactly scaled |
| Amounts.TokenUnitsExact | near/src/lib.rs:2199-2215 | a token amount is read exactly when the trimmed text is the canonical numeral of a 128-bit number: parsing and printing are mutually inverse |
| Amounts.CounterRoundTrip | near/src/lib.rs:2146-2151 | whatever counter an enforcer writes (any u64 lamports, any u128 yocto or token units), the same enforcer reads back unchanged |
| Amounts.LamportsFromYocto | near/src/lib.rs:2188-2192 | the Solana reading of a total printed by the NEAR enforcer: exact on whole lamports that fit 64 bits, otherwise absent |
| Amounts.YoctoFromLamports | near/src/lib.rs:2193-2197 | the NEAR reading of a total printed by the Solana enforcer is always exact |
| PeriodRuns.EnforceRefinesCounter | near/src/lib.rs:1890-1968 | one enforcement accepts exactly when the fixed terms and an integer counter automaton do; the stored strings then denote the automaton's next state, and the terms are unchanged |
| PeriodRuns.WindowIs | near/src/lib.rs:1934-1939 | the window an enforcer opens starts at a multiple of the period and holds the moment, and no other such window does |
| PeriodRuns.DuringInterval | near/src/lib.rs:1934-1939 | window k holds exactly the moments from k times the period up to, not including, k + 1 times the period |
| PeriodRuns.RunRefinesCounter | near/src/lib.rs:1970-2042 | over any run of one unit, the stored strings denote the automaton's state after the accepted transfers |
| PeriodRuns.ReplayExact | near/src/lib.rs:1916-1960 | that automaton, run in time order, holds the exact sum and count of the last window used |
| PeriodRuns.CountersExact | near/src/lib.rs:1890-2129 | after any run in block-time order the stored counters are the exact sum and count of the transfers accepted in the interval of one period that holds the last of them, on top of what the policy was stored with for it |
| PeriodRuns.CountsWithinCap | near/src/lib.rs:1890-2129 | in every such interval of every run in block-time order the accepted count is within the transfer cap, whatever units the run mixes |
| PeriodRuns.WindowsWithinCaps | near/src/lib.rs:1890-2129 | for runs of one unit the amounts accepted in every such interval sum to no more than the period cap too |
| PeriodRuns.UnmeteredRunKeepsPolicy | near/src/lib.rs:1890-2129 | a policy without a readable period cap and without a count cap is never changed |
| SharedCounter.FinerReadsCoarser | near/src/lib.rs:2239-2244 | whatever text the Solana enforcer can read, the NEAR enforcer reads as the same amount |
| SharedCounter.ChargeKeepsTotalIff | near/src/lib.rs:1890-2042 | on a policy both chains meter in one text field, a charge adds its amount to the total if and only if it is NEAR's, or both enforcers read the stored text alike |
| SharedCounter.ReadsAlikeAfterNear | near/src/lib.rs:1970-2042 | after a NEAR charge they do if and only if the total is a whole number of lamports that fits 64 bits |
| SharedCounter.ReadsAlikeAfterSolana | near/src/lib.rs:1890-1968 | after a Solana charge they always do |
| SharedCounter.KeepsTotalIff | near/src/lib.rs:1890-2042 | over any mixed run, the stored text keeps the exact total of both chains if and only if every accepted Solana transfer read it alike |
| SharedCounter.AlwaysReadsAlikeIff | near/src/lib.rs:1890-2042 | over any mixed run in block-time order, that is so if and only if each accepted Solana transfer finds a window total of both chains that is whole lamports fitting 64 bits (or, before anything was accepted, a text both read alike) |
| SharedCounter.TotalKeptIff | near/src/lib.rs:1890-2042 | so the total is kept if and only if those sums of the run's own transfers are |
| SharedCounter.WholeLamportsReadAlike | near/src/lib.rs:1890-2042 | it is enough that the period cap can be read on Solana, the stored text is absent or Solana's, and every NEAR amount is whole lamports |
| SharedCounter.SharedRunKeepsTotal | near/src/lib.rs:1890-2042 | the exact total after a mixed run whose Solana transfers could read it |
| SharedCounter.SharedWindowsWithinCaps | near/src/lib.rs:1890-2042 | and then, if Solana can read the period cap whenever NEAR can, both chains together stay within it in every window (the count cap holds without any condition, by CountsWithinCap) |
| AcrossChains.SharedCapCanBeExceeded | near/src/lib.rs:1837-1870 | otherwise they need not: from a new contract, a key, a policy stored for it and three accepted requests with real payload bytes, two on Solana and one on NEAR, whose Solana transfers alone move 3.5 under a daily cap of 2 |
| PolicyWrites.NormalizedForm | near/src/lib.rs:2589-2659 | a stored policy is the given one field by field: texts and destinations trimmed, blank ones and zero limits dropped, counters as they are; with a per-transfer limit, amounts that read, and a period if it has period limits |
| PolicyWrites.NormalizesIff | near/src/lib.rs:2603-2634 | and a policy can be stored if and only if it has version, template, asset type and per-transfer limit, a period for period limits, and amounts that write a numeral of at most 18 places that fits 128 bits |
| PolicyWrites.NormalizeIdempotent | near/src/lib.rs:2589-2665 | storing a stored policy again changes nothing, if lower-casing is stable on its own trimmed results |
| PolicyWrites.CapEnforcedIff | near/src/lib.rs:2617-2634 | a cap accepted at 18 places is enforced if and only if its numeral can be written at the chain's own precision and width, and then as exactly that amount; otherwise enforcement treats it as absent |
| PolicyWrites.UnfitCapDecidesNothing | near/src/lib.rs:1890-2129 | a per-transfer cap that cannot be written in its unit admits exactly what no cap would admit |
| PolicyWrites.UnfitPeriodCapDecidesNothing | near/src/lib.rs:1890-2129 | the same for a period cap |
| PolicyWrites.PeriodCapOnlyNearReads | near/src/lib.rs:1890-2042 | a period cap that only NEAR can read is exact there and ignored on Solana, which without a count cap then counts nothing |
| PolicyWrites.SubunitCapsAdmitEverything | near/src/lib.rs:2617-2634 | two such caps, half a token and half a lamport, are stored as given and then admit transfers of any amount |
| PolicyWrites.ReachablePoliciesHavePeriod | near/src/lib.rs:2612-2616 | in every reachable state every policy that limits a period has a positive one |
| PolicyWrites.ReachableSpendingWithinCaps | near/src/lib.rs:1783-2129 | from every reachable state, whatever is called until the policy is next written, the transfers signed with its key stay within its caps in every window |
| PolicyWrites.ReachableCountWithinCap | near/src/lib.rs:1783-2129 | from every reachable state the count cap bounds every window until the next policy write, whatever units the key's transfers mix |
| SpendingRuns.StepEnforces | near/src/lib.rs:1783-1888 | one call, of any kind, changes a key's policy exactly by enforcing its own metered transfer, or not at all, unless it is a policy write for that key |
| SpendingRuns.MeteredIsPayload | near/src/lib.rs:1783-1888 | what is metered is the lamports, yocto or token units that the payload's own message or transaction moves, at the block's time in seconds |
| SpendingRuns.PolicyFollowsTransfers | near/src/lib.rs:1783-1888 | between two writes of a policy, any interleaving of calls leaves it as a run of its enforcers over the key's accepted transfers |
| SpendingRuns.SpendingWithinCaps | near/src/lib.rs:1890-2129 | so, whatever else is called, those transfers stay within the caps in every window |
| SpendingRuns.SpendingCountWithinCap | near/src/lib.rs:1890-2129 | their count stays within its cap in every window with nothing asked of their units |
| SpendingRuns.StoredCountersExact | near/src/lib.rs:1890-2129 | and the stored counters are the exact sum and count of the current window |
| SpendingRuns.SharedSpendingWithinCaps | near/src/lib.rs:1837-1870 | for a policy metered on Solana and NEAR together, both chains' transfers of any interleaving of calls stay jointly within the caps, when each Solana transfer finds a window total of whole lamports fitting 64 bits |
| SpendingRuns.WholeLamportSpendingWithinCaps | near/src/lib.rs:1837-1870 | in particular when every NEAR amount is whole lamports and the stored counter was absent or Solana's |
| SpendingRuns.TermsFixMeter | near/src/lib.rs:1800-1870 | a policy's template fixes the unit all its transfers are metered in, except that `sol_native_transfer_v1` leaves lamports or yocto |
| RawSigning.MemoOnlyRestricts | near/src/lib.rs:1512-1560 | a raw request with a memo succeeds exactly when the memo passes and the same request without it succeeds, with the same policies left behind |
| RawSigning.MemoParsesFaithfully | near/src/lib.rs:1578-1781 | the transfer a memo check hands on is the one the stored policy would have parsed from the payload itself |
| PolicyMemos.MemoPayloadIs | near/src/lib.rs:1562-1568 | the policy in a memo is what stands between `policy:` and the first bar, or the end |
| PolicyMemos.RulesIff | near/src/lib.rs:1607-1641 | a memo's snapshot and rule pass exactly when template and destination are on its lists, the rule's asset fits, and the amount is within every amount its cap writes |
| PolicyMemos.SolanaMemoExact | near/src/lib.rs:1578-1643 | on Solana a policy memo passes if and only if the payload is a transfer message whose sender, destination and exact amount the memo names and its snapshot allows |
| PolicyMemos.NearMemoExact | near/src/lib.rs:1645-1705 | the same on NEAR for native transfers, under either native template |
| PolicyMemos.FtMemoExact | near/src/lib.rs:1707-1781 | the same on NEAR for token transfers, the token contract and the rule's asset included |
| RawAcceptance.EnforcedIff | near/src/lib.rs:1890-2129 | an enforcer accepts exactly the transfers that meet the policy's terms and for which the integer counters have room in the window |
| RawAcceptance.TermsIff | near/src/lib.rs:1905-1922 | the fixed terms of a policy pass exactly for its token, its destinations, and amounts within every amount its per-transfer cap writes |
| RawSigning.AllowedIff | near/src/lib.rs:194-207 | a path is allowed exactly by an entry that lists it for the chain, or for Solana on NEAR |
| RawAcceptance.RawCheckedIff | near/src/lib.rs:1512-1560 | a raw payload passes if and only if its memo does and, off Bitcoin, a policy is stored that either checks no payload or admits this one: to the last byte a Solana transfer message, a native NEAR transfer, a transfer of the policy's token, or under a native policy without destinations any token transfer |
| RawAcceptance.RawAcceptedIff | near/src/lib.rs:421-484 | the whole acceptance condition of a raw request, in both directions, in terms of the wire format and the counters |
| RawAcceptance.UncheckedIff | near/src/lib.rs:1800-1852 | on Solana and NEAR a stored policy passes every payload of 1 to 16384 bytes, unmetered, if and only if its asset type and template are none of those with a parser |
| Emissions.SubkeyPathsWereSet | near/src/lib.rs:354-387 | in every reachable state the paths stored for a key were set by an earlier successful call of that account naming that key |
| Emissions.RawRequestsSound | near/src/lib.rs:420-551 | every raw request accepted in any run is not for EVM, comes from a key whose paths, set earlier by the same account, allow the path (NEAR also through Solana's), is admitted by its stored policy if that checks payloads, and goes out under the caller's own MPC path with the chain's payload form, key type and domain |
| Emissions.PromiseIffSigning | near/src/lib.rs:421-899 | a call makes an MPC promise if and only if it is one of the four signing calls, and the promise goes out under the caller's own path |
| Emissions.PathsAreNotShared | near/src/lib.rs:460-472 | any two promises under one MPC path, raw or template and in any states, come from one account and name one derivation path |
| TemplateAcceptance.TemplateCheckedIff | near/src/lib.rs:1409-1510 | a template request passes if and only if it is direct, names a template, path and recipient, is signed with a registered key that lists the path for its chain (NEAR also for Solana), fits the owner's template in chain, kind and token, is allowed by the stored policy's template, asset, destinations and exact limit, and is within the cap |
| TemplateAcceptance.TemplateTermsIff | near/src/lib.rs:1447-1510 | the stored policy's part of that, in both directions, the limit as its numeral reads in the chain's places |
| TemplateAcceptance.TemplateAcceptedIff | near/src/lib.rs:621-708 | a template request without an id is accepted exactly when it passes |
| TemplateAcceptance.TemplateRequestsSound | near/src/lib.rs:621-899 | every accepted template request passed, leaves the state alone, and goes out under the caller's own path as described |
| Registrations.RegistrationAcceptedIff | near/src/lib.rs:354-403 | when adding, setting and removing are accepted: direct calls, well-formed paths, and a registered key for the latter two |
| Registrations.SubkeyStep | near/src/lib.rs:354-403 | one step's exact effect on one key: its paths after a successful add or set, gone after a removal, otherwise as they were |
| Registrations.PathsExact | near/src/lib.rs:354-403 | in every reachable state a key has these paths if and only if the last successful call about it added it with them or set them |
| Registrations.RegistrationsExact | near/src/lib.rs:354-403 | in every reachable state a key is registered if and only if it was added and not removed since |
| Registrations.SignersAreRegistered | near/src/lib.rs:421-440 | every accepted signing call, raw or template, is signed with a registered key that lists its path for its chain |
| Registrations.RemovedKeysSignNothing | near/src/lib.rs:389-403 | in any run, after a key is removed no signing call with it is accepted until it is added again |
| Registrations.SolanaKeysStayOff | near/src/lib.rs:194-207 | in any run, a key whose paths were only ever given for Solana makes no EVM or Bitcoin request |
| OwnerCalls.OwnerCallAcceptedIff | near/src/lib.rs:554-606 | the owner's calls are accepted exactly from the owner, with a template id and no empty token, for a template or cap that is there to remove |
| OwnerCalls.TemplateStep | near/src/lib.rs:554-576 | one step's exact effect on one template |
| OwnerCalls.CapStep | near/src/lib.rs:579-606 | one step's exact effect on one cap |
| OwnerCalls.AccountsStep | near/src/lib.rs:1066-1079 | one step's exact effect on the owner, who never changes, and on the MPC account |
| OwnerCalls.OwnerKeepsControl | near/src/lib.rs:1077-1079 | in every run only the owner it began with changes templates, caps and the MPC account |
| EvmSigning.EvmTemplateSound | near/src/lib.rs:710-899 | what every accepted EVM template request signs: without a digest memo the envelope of its own chain, recipient, amount, nonce, gas, fees and data; with `eip712-digest:` the memo's 32 bytes; with `x402-eip3009:` an authorization of the request's chain, recipient and amount and of the memo's token, sender, window and nonce |
| EvmSigning.PlainTransferIff | near/src/lib.rs:767-822 | an accepted request signs the plain transfer of the checked amount to the checked recipient if and only if its memo has neither prefix and its calldata is absent, empty or `0x` |
| EvmSigning.AcceptedWithOtherFields | near/src/lib.rs:725-822 | no check reads the chain id, memo or transaction fields: where a request is accepted, it is with any others that give something to sign, and that is signed |
| EvmSigning.SignedIgnoresToken | near/src/lib.rs:767-822 | conversely what is signed reads only those fields, the recipient and the amount: requests that agree on them sign the same, whatever their tokens, templates, paths, policies and caps |
| EvmSigning.AnyCalldataSigned | near/src/lib.rs:806-821 | without a digest memo, wherever a request is accepted it is with every calldata, and the transaction with that calldata is signed |
| EvmSigning.MemoAuthorizationSigned | near/src/lib.rs:787-804 | with `x402-eip3009:` any memo that reads as an authorization is signed, for the checked recipient and amount but the memo's own token and sender |
| CalldataRun.CheckedAmountIsNotWhatMoves | near/src/lib.rs:136-147 | a run from a new contract: under a policy and a cap for amount 0 to one token contract, a request for amount 0 to it is accepted with calldata that transfers any number of tokens to any recipient, and that transaction is signed |
| EvmSigning.MemoDigestSigned | near/src/lib.rs:778-787 | wherever an EVM request is accepted, so is the same request with any 32-byte digest in its memo, and exactly that digest is signed |
| TemplateSigning.SamePreimageSameRequest | near/src/lib.rs:1209-1228 | two EVM requests with the same preimage ask for the same amount, recipient, chain, nonce and data |
| ContractState.ComposeKeyInjective | near/src/lib.rs:1358-1360 | a storage key determines the account and the public key text |
| ContractState.StorageKeysDistinct | near/src/lib.rs:1379-1381 | and, through the base-58 text, the public key itself |
| ContractState.MpcPathInjective | near/src/lib.rs:1401-1407 | an MPC path determines the caller and the derivation path |
| ContractState.TemplateKeyInjective | near/src/lib.rs:1362-1377 | template and cap keys determine the chain and the id or token |
| ContractRuns.WithoutSpec | near/src/lib.rs:2572-2577 | dropping a key from an index removes exactly that key and keeps the rest free of duplicates |
| ContractRuns.ApplyKeepsIndex | near/src/lib.rs:354-403 | every call keeps each account's index duplicate-free and equal to its keys in the subkey map |
| ContractRuns.IndexAlwaysExact | near/src/lib.rs:354-403 | so it is in every reachable state |
| ContractRuns.KeysWereRegistered | near/src/lib.rs:907-1000 | in every reachable state subkeys, policies and grants exist only for keys some earlier call registered |
| ManagerGrants.GrantStep | near/src/lib.rs:907-947 | one step's exact effect on one grant |
| ManagerGrants.GrantsExact | near/src/lib.rs:907-947 | in every reachable state a grant is stored if and only if its account made it and has not revoked it since; every stored grant covers all policies |
| ManagerGrants.GateExact | near/src/lib.rs:1099-1118 | in every reachable state the gate on policy writes passes a signing key if and only if it is not a subkey of the caller or such a grant stands; the self-policy branch decides nothing |
| ManagerGrants.GrantAcceptedIff | near/src/lib.rs:907-931 | a grant is accepted exactly on a direct call for a registered key, whichever key signs |
| ManagerGrants.SelfGrantPassesGate | near/src/lib.rs:907-931 | so a registered subkey can grant itself and then passes the gate for every policy of its account |
| ManagerGrants.UngatedWriteAcceptedIff | near/src/lib.rs:969-991 | the ungated policy calls are accepted exactly on a direct call for a registered key with a policy that normalises, or for a stored policy to remove, whichever key signs |
| ManagerGrants.GatedWriteAcceptedIff | near/src/lib.rs:960-983 | the gated ones ask in addition for a key the gate lets through |
| ManagerGrants.RevokeAcceptedIff | near/src/lib.rs:934-947 | a grant is revoked exactly on a direct call for a key that has one |
| ManagerGrants.LimitedKeyCanRewrite | near/src/lib.rs:969-974 | in particular the key a policy limits can replace that policy |
| ManagerGrants.PolicyChanges | near/src/lib.rs:960-1000 | any step's exact effect on a stored policy, in any run: a successful write of its own account (through the gate for the gated calls) stores the normalised policy or removes it; an admitted transfer signed with its own key is charged to it; nothing else changes it |
| RequestIds.InFlightConserved | near/src/lib.rs:488-551 | over any interleaving, requests accepted for an id are in flight or have had their one callback |
| RequestIds.AtMostOneResultEach | near/src/lib.rs:1024-1055 | no id is answered more often than it was accepted |
| RequestIds.StoredIdRefused | near/src/lib.rs:1081-1090 | while a result is stored under an id no request with that id is accepted |
| RequestIds.ResultsChangeOnlyBy | near/src/lib.rs:1024-1055 | a result is stored only by its own callback, with the promise's outcome, removed only by an owner's clean-up that lists it, and otherwise unchanged |
| RequestIds.LaterWritesWereInFlight | near/src/lib.rs:1081-1090 | as long as a result stays stored, further writes come only from requests already in flight |
| RequestIds.CleanedSpec | near/src/lib.rs:1004-1021 | clean-up keeps exactly the unlisted results and counts each listed stored id once |
| RequestIds.CleanupCounts | near/src/lib.rs:1004-1021 | the owner's `cleanup_results` returns the number of distinct listed ids that were stored |
| RequestIds.RawIdAcceptedIff | near/src/lib.rs:488-551 | a raw request is accepted under an id if and only if the id is not empty, no result is stored for it, and the plain request is accepted |
| RequestIds.TemplateIdAcceptedIff | near/src/lib.rs:710-899 | the same for a template request, which on EVM must also describe something to sign |
| RequestIds.IdInFlightAcceptedIff | near/src/lib.rs:1081-1090 | after a request was accepted under an id, the next one is accepted under it exactly when it would be without an id, however often the id is in flight |
| RequestIds.SameIdTwiceInFlight | near/src/lib.rs:1081-1090 | a run from a new contract in which one id is accepted twice and ends in flight twice |
| SubkeyContract.ValidatePaths | near/src/lib.rs:1383-1399 | accepts exactly the non-empty lists of non-empty path lists with valid paths and one entry per chain |
| SubkeyContract.EnforceSolanaMemo | near/src/lib.rs:1578-1643 | computes the memo check that `SolanaMemoExact` characterises |
| SubkeyContract.EnforceNearMemo | near/src/lib.rs:1645-1705 | computes the memo check that `NearMemoExact` characterises |
| SubkeyContract.EnforceFtMemo | near/src/lib.rs:1707-1781 | computes the memo check that `FtMemoExact` characterises |
| SubkeyContract.Contract.constructor | near/src/lib.rs:294-309 | starts from the state all runs start from |
| SubkeyContract.Contract.PushIndex | near/src/lib.rs:2564-2570 | appends the key to its account's index unless it is there |
| SubkeyContract.Contract.DropFromIndex | near/src/lib.rs:2572-2577 | removes every occurrence of the key from its account's index |
| SubkeyContract.Contract.AddSubkey | near/src/lib.rs:354-371 | does its transition on the whole stored state, or panics and changes nothing |
| SubkeyContract.Contract.SetSubkeyPaths | near/src/lib.rs:373-387 | the same for replacing a key's paths |
| SubkeyContract.Contract.RemoveSubkey | near/src/lib.rs:389-403 | the same for removal, which leaves policies and grants in place |
| SubkeyContract.Contract.EnforceLamports | near/src/lib.rs:1890-1968 | stores the enforced policy, or panics and changes nothing |
| SubkeyContract.Contract.EnforceYocto | near/src/lib.rs:1970-2042 | the same in yocto |
| SubkeyContract.Contract.EnforceTokenUnits | near/src/lib.rs:2044-2129 | the same in token units, with the asset checks |
| SubkeyContract.Contract.ChargePeriod | near/src/lib.rs:1916-1967 | opens the window, adds, checks both caps and writes both counters back |
| SubkeyContract.Contract.EnforceMemo | near/src/lib.rs:1518-1545 | runs the memo check the chain and the memo's template call for |
| SubkeyContract.Contract.EnforceContractPolicy | near/src/lib.rs:1512-1560 | leaves the policies `CheckRaw` describes, or panics and changes nothing |
| SubkeyContract.Contract.RequestSign | near/src/lib.rs:421-484 | does its transition: checks, enforcement and the promise it makes, or panics and changes nothing |
| SubkeyContract.Contract.RequestSignV2 | near/src/lib.rs:488-551 | the same behind the request-id check |
| SubkeyContract.Contract.RequestTemplateSign | near/src/lib.rs:621-708 | the same for templates, which never change the state |
| SubkeyContract.Contract.RequestTemplateSignV2 | near/src/lib.rs:710-899 | the same behind the request-id check, with the contract-built digest on EVM |
| SubkeyContract.Contract.GrantPolicyManager | near/src/lib.rs:907-931 | does its transition or panics and changes nothing |
| SubkeyContract.Contract.RevokePolicyManager | near/src/lib.rs:934-947 | does its transition or panics and changes nothing |
| SubkeyContract.Contract.SetSignerPolicy | near/src/lib.rs:1120-1144 | both policy writes, gated and not |
| SubkeyContract.Contract.RemoveSignerPolicy | near/src/lib.rs:1146-1158 | both policy removals, gated and not |
| SubkeyContract.Contract.AssertCanManagePolicy | near/src/lib.rs:1099-1118 | computes the gate that `GateExact` characterises |
| SubkeyContract.Contract.CleanupResults | near/src/lib.rs:1004-1021 | the loop removes and counts what `CleanedSpec` says |
| SubkeyContract.Contract.OnSignComplete | near/src/lib.rs:1024-1055 | stores the promise's outcome under the id |
| Rlp.MinimalBytesSpec | near/src/lib.rs:1188-1207 | integers and lengths are written as the shortest big-endian bytes: no leading zero, nothing for zero, and the value is recovered |
| Rlp.PrefixRoundTrip | near/src/lib.rs:1177-1186 | a length prefix and the bytes it announces are read back, whatever follows |
| Rlp.DecodeEncode | near/src/lib.rs:1160-1186 | decoding the encoding of any item gives the item and leaves what follows it |
| Rlp.EncodeDecode | near/src/lib.rs:1160-1186 | whatever decodes is the encoding of what was decoded: each item has one encoding |
| Rlp.EncodingsPrefixFree | near/src/lib.rs:1169-1175 | no encoding is a prefix of another |
| Eip1559.ReadBack | near/src/lib.rs:1209-1228 | chain id, nonce, both fees, gas limit, recipient, value and data can all be read back from the envelope |
| Eip1559.EnvelopeInjective | near/src/lib.rs:1209-1228 | two transactions with the same envelope are the same transaction |
| Eip3009.AuthorizationInjective | near/src/lib.rs:1310-1354 | two authorizations with one EIP-712 preimage agree in chain, token, sender, recipient, value, validity window and nonce, unless their inner preimages collide under the hash |
| Eip3009.StructLayout | near/src/lib.rs:1339-1346 | the seven words of the struct preimage and their order, the type hash included |
| Eip3009.DomainLayout | near/src/lib.rs:1331-1336 | the five words of the domain preimage |
| Eip3009.FromMemoExact | near/src/lib.rs:1239-1273 | a memo gives an authorization exactly when its JSON says its token, sender, window, nonce and domain, for the request's chain, recipient and amount |
| Base58.EncodeInjective | near/src/lib.rs:1379-1381 | different byte strings have different base-58 texts |
| Base58.SymbolsInOrder | near/src/lib.rs:1379-1381 | the 58 digits are the alphabet without 0, I, O and l, in the order of the codes |
| Text.HexDecodeExact | near/src/lib.rs:1230-1237 | hexadecimal text reads as these bytes if and only if it is their text in either case |
| Text.TrimExact | near/src/lib.rs:2153-2156 | trimming removes exactly the white space at both ends |
| Base58.SystemProgramId | near/src/lib.rs:2463-2523 | the program id the Solana parser compares with is the text of 32 zero bytes |
| Text.HexRoundTrip | near/src/lib.rs:1230-1237 | hexadecimal text decodes to the bytes it was written from |
| ByteReader.ReadShortvecExact | near/src/lib.rs:2548-2562 | the compact-length reader gives a value exactly when the input starts with a spelling of it of at most five bytes, 32-bit shifts included |
| ByteReader.ShortvecRoundTrip | near/src/lib.rs:2721-2735 | encoding any 32-bit length and reading it gives the length and leaves what follows |
| ByteReader.ReadBytesExact | near/src/lib.rs:2535-2546 | a run of bytes is read exactly when the input has that many |
| ByteReader.ReadUintExact | near/src/lib.rs:2271-2293 | a little-endian integer is read exactly from its own bytes |
| ByteReader.ReadU128Exact | near/src/lib.rs:2295-2299 | a 128-bit amount is read exactly from its own bytes, low half first |
| ByteReader.Reader.U8 | near/src/lib.rs:2526-2533 | stays in bounds, advances past what it read, and agrees with the specification |
| ByteReader.Reader.Bytes | near/src/lib.rs:2535-2546 | the same for a run of bytes |
| ByteReader.Reader.Uint | near/src/lib.rs:2271-2293 | the same for 32- and 64-bit integers |
| ByteReader.Reader.U128 | near/src/lib.rs:2295-2299 | the same for 128-bit integers |
| ByteReader.Reader.Shortvec | near/src/lib.rs:2548-2562 | the same for the compact-length loop |
| SolanaPayload.AcceptedIsMessage | near/src/lib.rs:2463-2523 | an accepted payload is, to the last byte, a header, an account list, a blockhash and one two-account system-program transfer |
| SolanaPayload.ValidMessageAccepted | near/src/lib.rs:2691-2719 | every such message is accepted, with its own sender, destination and lamports |
| SolanaPayload.ParseExact | near/src/lib.rs:2463-2523 | so a payload yields a transfer if and only if it is a message carrying it |
| SolanaPayload.ParseSolanaNativeTransfer | near/src/lib.rs:2463-2523 | the parser, advancing a position, computes that function and never reads out of bounds |
| NearPayload.NativeExact | near/src/lib.rs:2307-2335 | a payload yields a native transfer if and only if it is the Borsh bytes of a transaction with that one transfer action |
| NearPayload.NativeBuildParse | near/src/lib.rs:2748-2768 | parsing the built bytes gives back the sender in lower case, the destination and the amount |
| NearPayload.TransferArgsExact | near/src/lib.rs:2411-2440 | receiver and amount are read from the arguments if and only if the trimmed `receiver_id` is that receiver and `amount` writes that positive 128-bit number, as a string or an integer |
| NearPayload.StorageAccountExact | near/src/lib.rs:2372-2389 | a storage deposit is taken for an account if and only if it pays, names it, and does not say it is more than a registration |
| NearPayload.FtExact | near/src/lib.rs:2339-2448 | a payload yields a token transfer if and only if it is the bytes of a transaction whose last action calls `ft_transfer` with arguments saying that receiver and amount, after an optional storage deposit for the same receiver |
| NearPayload.FtBuildParse | near/src/lib.rs:2770-2842 | parsing the built bytes gives back sender, token, destination and amount |
| NearPayload.TransactionsPrefixFree | near/src/lib.rs:2307-2448 | transaction bytes determine the transaction and are never a prefix of another's |
| NearPayload.ParsersDisjoint | near/src/lib.rs:2307-2448 | no payload is accepted by both NEAR parsers |
| NearPayload.ExtensionRejected | near/src/lib.rs:2307-2448 | appending anything to an accepted payload makes it rejected |
| NearPayload.ParseNearNativeTransfer | near/src/lib.rs:2307-2335 | the parser, advancing a position, computes the native specification |
| NearPayload.ParseNearFtTransfer | near/src/lib.rs:2339-2448 | the parser, advancing a position, computes the token specification |
| RpcHealth.HealthBounds | rust-signer-external/src/near_client.rs:133-161 | after any history of marks, failures are at most 8, an endpoint that recovered is not cooling, and otherwise its cooldown ends 2 to 180 s after its last failure |
| RpcHealth.EventExact | rust-signer-external/src/near_client.rs:123-161 | one event's exact effect: a failure counts up to 8 unless the request id was used, a success counts down to 0 and ends the cooldown |
| RpcHealth.ClassifyIff | rust-signer-external/src/near_client.rs:49-77 | the class of an error is that of the first list with a word in its message, in either case |
| RpcHealth.ReusedIff | rust-signer-external/src/near_client.rs:137 | and a request id counts as used when the message says so, in either case |
| RpcHealth.CooldownByClass | rust-signer-external/src/near_client.rs:140-154 | the cooldown range of each class of error, and that the back-off doubles with each failure up to its ceiling |
| RpcHealth.QuietEndpointAvailable | rust-signer-external/src/near_client.rs:101-121 | an endpoint without a failure for 180 s is not cooling |
| RpcHealth.CandidatesStable | rust-signer-external/src/near_client.rs:101-121 | the candidates are a stable sorted permutation of the endpoints by cooling, failures and last failure |
| RpcHealth.CandidatesOrdered | rust-signer-external/src/near_client.rs:114-118 | of two candidates the earlier is no more cooling, then has no more failures, then did not fail later; equals keep their order |
| RpcHealth.StableSortUnique | rust-signer-external/src/near_client.rs:114-118 | and there is only one such list, so the ranking does not depend on the sorting algorithm |
| RpcHealth.CoolingComesLast | rust-signer-external/src/near_client.rs:101-121 | every cooling endpoint comes after every available one |
| RpcHealth.HealthTable.MarkSuccess | rust-signer-external/src/near_client.rs:123-131 | the table stays what the history of marks says, one success later |
| RpcHealth.HealthTable.MarkFailure | rust-signer-external/src/near_client.rs:133-161 | the same for a failure |
| PollLoop.PendingStep | rust-signer-external/src/near_client.rs:363-369 | a pending reply keeps or moves the endpoint exactly as the closed formula says |
| PollLoop.DecisiveIff | rust-signer-external/src/near_client.rs:351-361 | a reply ends the poll exactly when it is no JSON, carries a signature, or its field `ok` is false |
| PollLoop.PollSignResult | rust-signer-external/src/near_client.rs:306-397 | at most `max_attempts` calls, every index in range; the first decisive reply decides; without one the poll ends after all attempts; every attempt goes to the endpoint the replies before it lead to, which while all are pending is 0 for a < 4 and (1 + (a-4)/3) mod n after; and exactly the answered and failed calls are reported to the health table |
| SignatureJson.ExtractSignature | rust-signer-external/src/near_client.rs:405-456 | terminates on every JSON value, decoded payloads included, and returns only 64 or 65 bytes |
| SignatureJson.WrappedSignatureFound | rust-signer-external/src/near_client.rs:410-424 | a signature wrapped in any number of `{ ok, payload }` layers is found and is the one inside |
| SignatureJson.ArrayRead | rust-signer-external/src/near_client.rs:427-433 | an array of a signature's bytes is read as the signature |
| SignatureJson.HexRead | rust-signer-external/src/near_client.rs:440-449 | so is its hexadecimal text, with or without prefix, bare or in `signature_hex` |
| SignatureJson.FieldRead | rust-signer-external/src/near_client.rs:435-438 | a `signature` field is read as its value is |
| SignatureJson.PayloadRead | rust-signer-external/src/near_client.rs:410-425 | a payload without JSON for a signature is itself the signature, if it is 64 or 65 bytes |
| SeedHash.HashStep | frontend-lib/custody/encryptedSessionManager.ts:1204-1208 | one turn of shift, subtraction, addition and truncation is one step of the base-31 polynomial modulo 2^32 |
| SeedHash.HashSeedPhrase | frontend-lib/custody/encryptedSessionManager.ts:1202-1210 | the loop computes that polynomial of the whole phrase, as a signed 32-bit value, for every length |
| SeedHash.SomePhrasesCollide | frontend-lib/custody/encryptedSessionManager.ts:1202-1210 | the hash does not identify a phrase: among any more than 2^32 phrases two share a hash |
| SeedHash.HashCollides | frontend-lib/custody/encryptedSessionManager.ts:1202-1210 | a concrete collision |
| SeedHash.CommonEndingCollides | frontend-lib/custody/encryptedSessionManager.ts:1202-1210 | which persists before every common ending |
| SeedStore.FindExact | frontend-lib/custody/encryptedSessionManager.ts:161-199 | in a numbered store a seed is found if and only if its slot and every lower slot are filled |
| SeedStore.LoadIff | frontend-lib/custody/encryptedSessionManager.ts:161-199 | a phrase is loaded if and only if its slot and every lower one are filled and the password has the stored hash and decrypts the seed to it |
| SeedStore.StoredSpec | frontend-lib/custody/encryptedSessionManager.ts:224-244 | saving changes exactly one slot, pads with holes and keeps every seed at its own number |
| SeedStore.SaveThenLoad | frontend-lib/custody/encryptedSessionManager.ts:161-254 | saving then loading returns the phrase if and only if no lower slot is empty, and null otherwise |
| SeedStore.SaveKeepsOthers | frontend-lib/custody/encryptedSessionManager.ts:202-254 | saving elsewhere leaves every loadable seed loadable with the same phrase |
| SeedStore.AssignSpec | frontend-lib/custody/encryptedSessionManager.ts:1095-1131 | assignment takes the smallest free slot from 1 on for a new hash, and never overwrites or moves a seed |
| SeedStore.AssignIdempotent | frontend-lib/custody/encryptedSessionManager.ts:1095-1131 | asking again for a phrase gives the same number and changes nothing |
| SeedStore.CollidingPhraseNotStored | frontend-lib/custody/encryptedSessionManager.ts:1107-1113 | a second phrase with the same hash gets the first one's slot and is not stored |
| SeedStore.StoredAnewIff | frontend-lib/custody/encryptedSessionManager.ts:1107-1113 | a phrase is stored anew if and only if no stored seed has its hash |
| SeedStore.MigratedLoads | frontend-lib/custody/encryptedSessionManager.ts:282-351 | a migrated store is numbered, and seed k loads if and only if every slot up to k was migrated, with its legacy phrase |
| SeedStore.MigratedIff | frontend-lib/custody/encryptedSessionManager.ts:297-335 | exactly what is migrated to a slot: the non-empty main phrase, plain or under its password, to slot 0, and imported phrase k under its password to slot k |
| SeedStore.NothingLoadsWithoutMain | frontend-lib/custody/encryptedSessionManager.ts:302-335 | without a main seed no migrated seed can be loaded |
| SeedStore.SeedManager.LoadUnifiedSeed | frontend-lib/custody/encryptedSessionManager.ts:161-199 | the search and the password check compute what the loading theorems are about |
| SeedStore.SeedManager.SaveUnifiedSeed | frontend-lib/custody/encryptedSessionManager.ts:202-254 | the stored array becomes the one with that slot filled, or stays as it was if encryption fails |
| SeedStore.SeedManager.GetOrAssignSeedNumber | frontend-lib/custody/encryptedSessionManager.ts:1095-1131 | both loops compute the assignment, or throw and change nothing when there is no unified storage |
| SeedStore.SeedManager.SaveImportedSeed | frontend-lib/custody/encryptedSessionManager.ts:995-1051 | a phrase already imported keeps its number, a new one takes the next, no imported seed is changed, and the new one loads |
| SeedStore.SeedManager.MigrateToUnifiedStorage | frontend-lib/custody/encryptedSessionManager.ts:282-351 | main seed to slot 0 and imported seed k to slot k, nothing elsewhere; true exactly when seeds are stored, so a run after one that returned true changes nothing |
| SeedRuns.AssignedLoadsIff | frontend-lib/custody/encryptedSessionManager.ts:1095-1131 | in any numbered store a newly assigned phrase can be loaded if and only if slot 0 is filled |
| SeedRuns.AssignedPhrasesLoadIff | frontend-lib/custody/encryptedSessionManager.ts:1095-1131 | over any run of assignments from any numbered store, every phrase the run stored loads at the end under its number and password if and only if the store had slot 0 filled |
| SeedRuns.RunKeepsSeeds | frontend-lib/custody/encryptedSessionManager.ts:1095-1131 | such a run keeps the numbering and every seed where it was, and never fills slot 0 |
| SeedRuns.NothingLoadsWithoutSlotZero | frontend-lib/custody/encryptedSessionManager.ts:161-199 | while slot 0 is empty nothing loads |
| SeedRuns.OperationKeepsNumbering | frontend-lib/custody/encryptedSessionManager.ts:202-351 | every save, assignment, import and migration keeps the store numbered, and changes no filled slot but the one a save names |
| SeedRuns.StoreStaysNumbered | frontend-lib/custody/encryptedSessionManager.ts:202-351 | so after every sequence of them from a new manager each slot is empty or holds its own seed, and a filled slot stays filled |
| SignPipeline.SignAndBroadcastSolana | rust-signer-external/src/sign_pipeline.rs:295-385 | for every sequence of outcomes: the loop ends with the first attempt that is neither an expired blockhash among the first two nor a bad signature while the path fallback is pending, and with the third at the latest; it gives that attempt's hashes if it was accepted and fails otherwise; and each request uses the given path, or "0" once the fallback was used |
| SignPipeline.OneSwitch | rust-signer-external/src/sign_pipeline.rs:362-373 | the path changes at most once, only away from a path other than "0", and only right after a signature-verification failure |
| SignPipeline.SignerReadsNumeral | rust-signer-external/src/sign_pipeline.rs:426-437 | the signer reads a numeral of at most 18 places exactly |
| SignPipeline.SignerAgreesWithContract | rust-signer-external/src/sign_pipeline.rs:426-437 | wherever the contract's 18-place parser gives a value the signer's gives the same |
| SignPipeline.SignerAgreesIff | rust-signer-external/src/sign_pipeline.rs:426-437 | the two give the same answer if and only if the contract's parser gives a value or the signer's gives none |
| SignPipeline.SignerReadsMore | rust-signer-external/src/sign_pipeline.rs:426-437 | four texts the contract refuses and the signer reads: empty, `abc`, `+1` and `1.2.3` |
| SignPipeline.SurplusDigitsCut | rust-signer-external/src/sign_pipeline.rs:433-435 | beyond that they differ: surplus digits, which the contract refuses, are cut off |

## Left out

- PeriodRuns.WindowsWithinCaps: its sum is stated for runs of one unit; sums over runs that mix lamports and yocto are the subject of SharedCounter, and no policy mixes either with token units.
- The method list of a function-call access key: the NEAR runtime enforces it before the contract runs.
- Overlapping calls of the session manager, whose interleaved reads and writes of storage are not part of this model.
- `migrate`, the views, logging, gas and deposits of the contract: plain copies or runtime detail.
- Template, token-cap and MPC-account setters as methods of the class: they are transitions in `Transitions.Apply`, one map update each.
- Panic messages: one `None` stands for all of them. The parsers keep their error texts.
- Hashes, ciphers, curves and key derivation: library calls.
- `json_string_field` and the arguments of `ft_transfer`: field lookups in an opaque JSON value.
- Access-key lookup, broadcasting and outcome checks in `near_client.rs`, and building and broadcasting in `sign_pipeline.rs`: network calls, represented by their outcomes.
- The endpoint lists of `rpc_urls`: the model takes any list of endpoints.
- `removeImportedSeed`, session data and wallet-data storage in the session manager; the main seed appears as what `loadWalletData` yields.
- `policy/decision.rs`: first match over floating-point values.
- `rust-wasm/`, `rust-signer/`, the daemon, the HTTP server, configuration and the rest of `frontend-lib/`: input, output and wrappers.
