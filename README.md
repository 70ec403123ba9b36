# eth-connector: the NEAR-side deposit connector, in Dafny

This project models the `EthConnector` contract of the Ethereum-to-NEAR bridge, and the helpers it uses to read Ethereum data.

The connector accepts a proof that a `Locked` event was emitted on Ethereum by a trusted custodian contract. It checks the custodian address and asks a prover contract to verify the proof. In the intended flow, when the prover's answer comes back, the connector records the proof's fingerprint in a replay set and mints on the bridge token, and after that the same proof can never be used again. As written, `finish_deposit` always reverts (see "## Findings"): nothing is recorded, nothing is minted, and the same proof can be submitted again. `FinishDeposit` models the intended flow and `FinishDepositAsWritten` the code as it stands.

The project is split into these modules:

| module | file | what it holds |
|---|---|---|
| `Types` | `types.dfy` | `u64`, `u128`, bytes, accounts, `Option`/`Result` and every panic the model represents (`Error`) |
| `Text` | `text.dfy` | the part of an account id before its first `.`, and ASCII lower-casing |
| `Hex` | `hex.dfy` | the `hex` crate's `decode` (either case) and `encode` (lower case), with round trips both ways |
| `Borsh` | `borsh.dfy` | Borsh serialization of `u64` (eight bytes, little-endian), shown injective |
| `Rlp` | `rlp.dfy` | RLP (Recursive Length Prefix, appendix B of the Ethereum yellow paper) restricted to a log entry. The decoder is exactly the inverse of the encoder. |
| `Prover` | `prover.dfy` | `validate_eth_address`, `Proof`, the event-parameter types and `EthEvent::from_log_entry_data` |
| `Connector` | `connector.dfy` | the `EthConnector` class: `new`, `deposit`, `finish_deposit`, `record_proof`, `finish_withdraw`, `get_bridge_token_account_id`, the disabled lock/unlock paths, `assert_self`, `is_promise_success` |

## How the connector is modelled

- **State.** The contract's state is the class `Connector.EthConnector`:
  - `proverAccount` and `ethCustodianAddress` are `const`, because nothing changes them after `new`.
  - `usedEvents` is a `set<Bytes>` that `RecordProof` updates in place.
  - A ghost sequence `credited` lists the fingerprints of the deposits that minted, in order.
  - `Valid()` requires two things: every credited fingerprint is in `usedEvents`, and no fingerprint was credited twice. Every method preserves `Valid()`. That invariant is the guarantee that a proof is credited at most once, whatever the sequence of calls.
- **Host environment.** The runtime's host functions are inputs.
  - `predecessor_account_id`, `current_account_id` and `attached_deposit` arrive as a `CallEnv`.
  - The storage growth `record_proof` measures arrives as a `storageDelta: u64`.
- **Library code.** sha256, `ethabi`'s `Event::parse_log`, and the reading of the `Locked` event's fields make up a `Library` value. The contract receives it at construction.
- **The two-phase deposit.**
  - `Deposit` returns the verification request and the pending continuation `PendingDeposit(recipient, amount, proof)`.
  - `FinishDeposit` takes the callback's environment, `verification_success` and that record.
  - The prover's verdict and the promise machinery are outside the model.
- **Panics.** A panic is an `Err`. Since NEAR discards every state change of a call that panics, a method that returns `Err` leaves `usedEvents` and `credited` exactly as they were. `RecordProof` and `FinishDeposit` restore the set explicitly where the source would panic after the insert.
- **Where this model follows the code, not the specification:**
  - `finish_deposit` as written never mints; see "## Findings".
  - The lock/unlock path is not a configuration-gated copy of the deposit state machine. Every entry point fails before it does anything, and that is what the model states.

## Model

| member | source | states |
|---|---|---|
| `Prover.ValidateEthAddress` | evm-fungible-token/src/connector/prover.rs:10-16 | succeeds exactly on 40 hex characters (either case); byte `k` of the result is the value of the digit pair at `2k`, `2k+1` |
| `Prover.ValidateRejectsNonHex` | evm-fungible-token/src/connector/prover.rs:11 | an odd-length input, or one with any non-hex character, fails with the invalid-hex error |
| `Prover.ValidateRejectsLength` | evm-fungible-token/src/connector/prover.rs:12 | well-formed hex of any length other than 40 characters fails with the wrong-length error |
| `Prover.ValidateEncode` | evm-fungible-token/src/connector/prover.rs:10-16 | round trip: every 20-byte address validates from its lower-case hex encoding back to itself |
| `Prover.EncodeValidated` | evm-fungible-token/src/connector/prover.rs:10-16 | the other round trip: re-encoding a validated address gives the input lower-cased |
| `Prover.EventInputs` | evm-fungible-token/src/connector/prover.rs:58-65 | one event input per declared parameter, in the same order, with the same name, kind and indexed flag |
| `Prover.MakeEvent` | evm-fungible-token/src/connector/prover.rs:56-67 | the event carries the given name, is not anonymous, and its inputs are the declared parameters pointwise |
| `Prover.FromLogEntryData` | evm-fungible-token/src/connector/prover.rs:55-86 | fails with the RLP error exactly when the log entry does not decode; succeeds whenever the entry decodes and the ABI parser accepts its topics and data; on success the custodian address is the entry's address, and the log is what the ABI parser returned for the entry's topics and data in order |
| `Prover.FromEncodedLogEntry` | evm-fungible-token/src/connector/prover.rs:68-81 | on the encoding of a log entry, success depends only on the ABI parser; the result carries that entry's address and the parser's log; the only possible error is the parse-log error |
| `Prover.FromLogEntryDataIsEncoding` | evm-fungible-token/src/connector/prover.rs:68-69 | every accepted input is exactly the RLP encoding of a log entry whose address is the reported custodian address |
| `Rlp.DecodeLogEntry` | evm-fungible-token/src/connector/prover.rs:68 | a decoded log entry has a 20-byte address and 32-byte topics |
| `Rlp.DecodeEncodeLogEntry` | evm-fungible-token/src/connector/prover.rs:68 | every encodable log entry decodes from its encoding back to itself |
| `Rlp.LogEntryCanonical` | evm-fungible-token/src/connector/prover.rs:68 | anything the decoder accepts is the encoding of the entry it returns |
| `Rlp.DecodeLogEntryIff` | evm-fungible-token/src/connector/prover.rs:68 | `s` decodes to `e` if and only if `e` is encodable and `s` is its encoding |
| `Hex.Decode` | evm-fungible-token/src/connector/prover.rs:11 | succeeds exactly on an even number of hex digits; odd length is reported first; byte `k` is digit pair `k`; the result is half as long as the input |
| `Hex.DecodeFrom` | evm-fungible-token/src/connector/prover.rs:11 | from position `i`: succeeds exactly when every later character is a hex digit, else reports the first offending character and its index |
| `Hex.Encode` | evm-fungible-token/src/lib.rs:126-127 | two lower-case digits per byte, high nibble first |
| `Hex.DecodeEncode` | evm-fungible-token/src/connector/prover.rs:11 | decoding an encoding gives back the bytes |
| `Hex.EncodeDecode` | evm-fungible-token/src/connector/prover.rs:11 | encoding decoded hex gives the input lower-cased |
| `Hex.DecodeLower` | evm-fungible-token/src/lib.rs:207-208 | lower-casing before decoding changes neither whether decoding succeeds nor the bytes it gives |
| `Borsh.U64ToBytes` | evm-fungible-token/src/lib.rs:314-315 | the Borsh form of a `u64` is eight bytes |
| `Borsh.LeRoundTrip` | evm-fungible-token/src/lib.rs:314-315 | the little-endian digits of a number that fits read back as that number |
| `Borsh.U64ToBytesInjective` | evm-fungible-token/src/lib.rs:314-315 | two `u64` with the same Borsh form are equal |
| `Text.FirstPart` | evm-fungible-token/src/lib.rs:190 | `parts[0]`: a dot-free prefix of the input that is followed by a `.` or ends the input |
| `Text.FirstPartOfJoin` | evm-fungible-token/src/lib.rs:190-195 | splitting `p + "." + rest` gives back `p` whenever `p` has no dot |
| `Text.ToLowerAscii` | evm-fungible-token/src/lib.rs:207 | lower-casing keeps the length, turns each of `A`..`Z` into its lower-case letter, leaves every other character as it is and leaves no upper-case ASCII letter; `Text.LowerIdempotent` and `Hex.DecodeLower` give it its meaning for addresses |
| `Text.LowerIdempotent` | evm-fungible-token/src/lib.rs:207 | lower-casing an already lower-cased string changes nothing |
| `Connector.AssertSelf` | evm-fungible-token/src/lib.rs:86-88 | succeeds exactly when the caller is the contract itself |
| `Connector.IsPromiseSuccess` | evm-fungible-token/src/lib.rs:90-100 | fails unless there is exactly one promise result; otherwise true exactly when that result is a success |
| `Connector.Preimage` | evm-fungible-token/src/lib.rs:314-316 | the hashed data is 16 bytes longer than the block header |
| `Connector.Fingerprint` | evm-fungible-token/src/lib.rs:314-317 | the replay key is the library hash of the preimage, and every proof that agrees with this one on log index, receipt index and block header hashes to the same key |
| `Connector.PreimageInjective` | evm-fungible-token/src/lib.rs:314-317 | two proofs hash the same data exactly when they agree on log index, receipt index and block header |
| `Connector.FingerprintIgnoresPayload` | evm-fungible-token/src/lib.rs:314-317 | proofs that agree on log index, receipt index and block header get the same fingerprint, whatever their log entry, receipt and Merkle path |
| `Connector.StorageCharge` | evm-fungible-token/src/lib.rs:323-327 | succeeds exactly when `delta * 10^20` is at most the attached deposit; the result plus the charge is the deposit; an overflowing product and a short deposit get their own errors |
| `Connector.LockedEventFromLogEntryData` | evm-fungible-token/src/lib.rs:121 | succeeds exactly when the event reader succeeds and the field reader finds the recipient and amount; the custodian address is then the log entry's address and the recipient and amount are the field reader's; errors of the event reader pass through, and a field-reader failure is the invalid-locked-event error |
| `Connector.GetBridgeTokenAccountId` | evm-fungible-token/src/lib.rs:206-210 | succeeds exactly when the address validates, with the account `<lower-case hex of the address>.<current account>`; otherwise the validation error |
| `Connector.EmptyTokenRejected` | evm-fungible-token/src/lib.rs:169-173 | the empty token address fails with the wrong-length error |
| `Connector.FinishWithdraw` | evm-fungible-token/src/lib.rs:183-204 | succeeds exactly when the caller is `parts[0] + "." + current` and both `parts[0]` and the recipient validate; the result is `(Withdraw, amount, validate(parts[0]), validate(recipient))`; any other caller gets the sub-account error; after that check, the validation error of `parts[0]` comes first, then that of the recipient |
| `Connector.WithdrawFromSubAccount` | evm-fungible-token/src/lib.rs:189-196 | a caller `p.<current>` with dot-free `p` passes the sub-account check and withdraws as token address `validate(p)` |
| `Connector.BridgeTokenCanWithdraw` | evm-fungible-token/src/lib.rs:189-210 | the bridge token account made for an address may call `finish_withdraw` and is reported as that address |
| `Connector.EthConnector.constructor` | evm-fungible-token/src/lib.rs:110-114 | the configuration is as given and the replay set starts empty |
| `Connector.EthConnector.New` | evm-fungible-token/src/lib.rs:107-115 | fails when state exists; otherwise succeeds exactly when the custodian address validates, with that address, the prover account and an empty replay set |
| `Connector.EthConnector.Deposit` | evm-fungible-token/src/lib.rs:119-150 | fails with the custodian error, and issues no verification request, when the event's address differs from the configured custodian. Errors reading the event pass through. Otherwise it asks the configured prover to verify the whole proof without skipping the bridge call, and schedules the finish with the event's recipient and amount and the same proof. |
| `Connector.EthConnector.RecordProof` | evm-fungible-token/src/lib.rs:309-328 | fails for a foreign caller, and with the proof-exists error for a fingerprint already in the set; with a bad storage charge it fails and the set is unchanged; on success the set is the old set plus exactly the fingerprint and the result is what is left of the deposit |
| `Connector.EthConnector.FinishDeposit` | evm-fungible-token/src/lib.rs:154-177 | mints `(bridge token of token, new owner, amount)` exactly when the caller is the contract, verification succeeded, the fingerprint is unused, the charge is covered and the token is an address. The first failing check decides the error. A success adds exactly the fingerprint to the set and to `credited`; a failure changes neither. |
| `Connector.EthConnector.FinishDepositAsWritten` | evm-fungible-token/src/lib.rs:164-177 | with the empty token the source passes, every call fails and leaves the state unchanged; when all earlier checks pass, the error is the wrong-length error |
| `Connector.DoubleSubmission` | evm-fungible-token/src/lib.rs:164-177 | on a new contract the same pending deposit cannot mint twice: the second call fails with the proof-exists error whenever the first minted |
| `Connector.EthConnector.Lock` | evm-fungible-token/src/lib.rs:213-233 | always fails with the disabled error, changing nothing |
| `Connector.EthConnector.FinishLock` | evm-fungible-token/src/lib.rs:236-247 | always fails with the disabled error, changing nothing |
| `Connector.EthConnector.Unlock` | evm-fungible-token/src/lib.rs:249-282 | always fails with the disabled error, changing nothing |
| `Connector.EthConnector.FinishUnlock` | evm-fungible-token/src/lib.rs:284-306 | always fails with the disabled error, changing nothing |

## Left out

- **Promises, gas and deposit forwarding.** Promise chaining, the gas split (`prepaid_gas() / 4`, `/ 2`, `/ 3`), and the forwarding of the attached deposit from `deposit` to `finish_deposit` are runtime plumbing. `Deposit` returns the request and the continuation as values instead, and `FinishDeposit` takes the callback's attached deposit in its `CallEnv`.
- **Calls on other contracts.** The prover's verification algorithm, the bridge token's `mint`, and NEP-21 `transfer`/`transfer_from` belong to other contracts. The verdict is an input, and the mint is the value `FinishDeposit` returns.
- **Hashing, storage and the set.** `env::sha256`, `env::storage_usage` and the storage layout of `UnorderedSet`:
  - the hash is an arbitrary function in the `Library`;
  - the storage growth is an input;
  - the set is a mathematical set.
- **The ABI decoder.** `ethabi`'s `Event::parse_log` (Keccak signature topic, ABI word decoding) is an arbitrary partial function.
- **The lock and unlock event readers.** `EthLockedEvent` and `EthUnlockedEvent` live in `lock_event.rs` and `unlock_event.rs`, which are not part of this model. The locked event is `from_log_entry_data` followed by an arbitrary `fields` reader, in the `Library`. The unlocked event is never reached, because `unlock` fails first.
- **The disabled paths.** The statements after `assert!(false, ...)` in `lock`, `finish_lock`, `unlock` and `finish_unlock` are unreachable, and their results are not modelled.
- Connector.StorageCharge: assumes the contract is built with overflow checks. Under that assumption the `u128` product and subtraction panic instead of wrapping. The `u64` difference `current_storage - initial_storage` is the input `storageDelta`, taken as never negative.
- Text.ToLowerAscii: lower-cases the ASCII letters `A`..`Z` only, where Rust's `to_lowercase` lower-cases every Unicode letter. That is enough here because its only use is on an address that must then hex-decode: a non-ASCII character is never a hex digit, before or after either lower-casing, so both versions reject such an address the same way; on ASCII input the two lower-casings agree.
- Connector.GetBridgeTokenAccountId: its results agree with the source's on every input, for the reason given on the `Text.ToLowerAscii` line.
- Hex.Decode: counts characters where the `hex` crate counts UTF-8 bytes. This only changes which hex error is reported for non-ASCII input, and `validate_eth_address` turns both errors into the same invalid-hex error.
- Rlp.DecodeLogEntry: accepts exactly one shape: a list holding a 20-byte string, a list of 32-byte strings and a byte string, with canonical lengths and no trailing bytes. Any leniency the `rlp` crate has beyond that (for example, extra list items) is not modelled.
- **What the fingerprint covers.** The fingerprint leaves out the log entry. The model states that it does (`FingerprintIgnoresPayload`) but does not decide whether that was intended.
- **Rust-level wiring.** `wee_alloc`, the `Default` panic, the Borsh/JSON serializer attributes, and the `#[near_bindgen]` refusal of an attached deposit on non-payable methods such as `finish_withdraw` are left out: `FinishWithdraw` ignores `attachedDeposit`.

## Findings

| source | as written | input that shows it | evidently intended | confidence | as-written member | corrected member |
|---|---|---|---|---|---|---|
| evm-fungible-token/src/lib.rs:169-173 | `finish_deposit` passes the empty string as the token address to `get_bridge_token_account_id`, whose `validate_eth_address("")` panics ("should be 20 bytes long"), so the call reverts, the fingerprint is not kept and no mint is ever issued | any callback that passes the earlier checks: predecessor equal to the current account, `verification_success = true`, an unused proof, a storage delta of 0 | mint on the bridge token of the deposited asset's address (the line is marked `TODO: refactor`), so that a verified deposit is credited once | not executed | `Connector.EthConnector.FinishDepositAsWritten` | `Connector.EthConnector.FinishDeposit` |
