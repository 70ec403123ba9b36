/** The NEAR-side connector of the Ethereum bridge: the `EthConnector` contract with its replay
    set of used proofs, the two-phase deposit, withdrawal authorization and the disabled NEP-21
    paths.

    Host functions of the NEAR runtime become inputs: the caller, the contract's own account and
    the attached deposit arrive as a `CallEnv`; the growth in storage use that `record_proof` reads
    is a number supplied by the caller of the model; sha256, the ABI decoder and the reading of the
    `Locked` event's fields are a `Library` fixed at construction. A call that panics is an `Err`;
    the runtime then discards every change that call made, and methods here restore the state they
    had changed before returning an `Err`. */
module Connector {
  import opened Types
  import Text
  import Hex
  import Borsh
  import Prover

  /** Price of one byte of storage, in yoctoNEAR (mainnet genesis). */
  const STORAGE_PRICE_PER_BYTE: nat := 100_000_000_000_000_000_000

  /** `ResultType`: the tag the Ethereum side reads from a result. */
  datatype ResultType = Withdraw | Lock

  /** What the runtime tells one call about itself. */
  datatype CallEnv = CallEnv(predecessor: AccountId, current: AccountId, attachedDeposit: Balance)

  /** `PromiseResult`. */
  datatype PromiseResult = NotReady | Successful(value: Bytes) | Failed

  /** `EthLockedEvent`: the deposit the custodian contract announced on Ethereum. */
  datatype EthLockedEvent = EthLockedEvent(ethCustodianAddress: Prover.EthAddress, recipient: AccountId, amount: Balance)

  /** How the `Locked` event is found in a log: its name, its declared parameters, and how the
      recipient and the amount are read from the parsed log. */
  datatype LockedEventShape = LockedEventShape(
    name: string,
    params: Prover.EthEventParams,
    fields: Prover.Log -> Option<(AccountId, Balance)>)

  /** The library code the contract calls: `env::sha256`, `Event::parse_log`, and the field
      extraction of `EthLockedEvent`. */
  datatype Library = Library(
    sha256: Bytes -> Bytes,
    parseLog: Prover.ParseLog,
    lockedEvent: LockedEventShape)

  /** The request `deposit` sends to the prover: every field of the proof, and whether to skip the
      bridge check. */
  datatype VerifyRequest = VerifyLogEntry(prover: AccountId, proof: Prover.Proof, skipBridgeCall: bool)

  /** The continuation `deposit` schedules after the prover answers. */
  datatype PendingDeposit = PendingDeposit(newOwnerId: AccountId, amount: Balance, proof: Prover.Proof)

  /** The promise chain `deposit` returns: verify, then finish. */
  datatype DepositCall = DepositCall(verify: VerifyRequest, finish: PendingDeposit)

  /** The `mint` call `finish_deposit` makes on the bridge token. */
  datatype Mint = Mint(token: AccountId, accountId: AccountId, amount: Balance)

  /** What `finish_withdraw` hands back to the Ethereum side. */
  datatype Withdrawal = Withdrawal(resultType: ResultType, amount: Balance, tokenAddress: Prover.EthAddress,
                                   recipient: Prover.EthAddress)

  /** What `finish_lock` would hand back. */
  datatype LockResult = LockResult(resultType: ResultType, token: string, amount: Balance, recipient: Prover.EthAddress)

  // ---------------------------------------------------------------------------------------------
  // Free helpers

  /** `assert_self`: only the contract may call itself. */
  function AssertSelf(env: CallEnv): (r: Result<(), Error>)
    ensures r.Ok? <==> env.predecessor == env.current
    ensures r.Err? ==> r.error == NotSelf
  {
    if env.predecessor == env.current then Ok(()) else Err(NotSelf)
  }

  /** `is_promise_success`: exactly one result is expected, and it must be a success. */
  function IsPromiseSuccess(results: seq<PromiseResult>): (r: Result<bool, Error>)
    ensures r.Err? <==> |results| != 1
    ensures r.Err? ==> r.error == ExpectedOneCallbackResult
    ensures r.Ok? ==> (r.value <==> results[0].Successful?)
  {
    if |results| != 1 then Err(ExpectedOneCallbackResult) else Ok(results[0].Successful?)
  }

  /** The bytes `record_proof` hashes: Borsh `log_index`, Borsh `receipt_index`, then the header. */
  function Preimage(proof: Prover.Proof): (r: Bytes)
    ensures |r| == 16 + |proof.headerData|
  {
    Borsh.U64ToBytes(proof.logIndex) + Borsh.U64ToBytes(proof.receiptIndex) + proof.headerData
  }

  /** Two proofs have the same preimage exactly when they agree on the log index, the receipt index
      and the block header. */
  lemma PreimageInjective(p: Prover.Proof, q: Prover.Proof)
    ensures Preimage(p) == Preimage(q) <==>
            p.logIndex == q.logIndex && p.receiptIndex == q.receiptIndex && p.headerData == q.headerData
  {
    if Preimage(p) == Preimage(q) {
      var a, b := Preimage(p), Preimage(q);
      assert a[..8] == Borsh.U64ToBytes(p.logIndex) && b[..8] == Borsh.U64ToBytes(q.logIndex);
      assert a[8..16] == Borsh.U64ToBytes(p.receiptIndex) && b[8..16] == Borsh.U64ToBytes(q.receiptIndex);
      assert a[16..] == p.headerData && b[16..] == q.headerData;
      Borsh.U64ToBytesInjective(p.logIndex, q.logIndex);
      Borsh.U64ToBytesInjective(p.receiptIndex, q.receiptIndex);
    }
  }

  /** The replay key: the library hash of the Borsh log index, the Borsh receipt index and the
      block header, in that order. Every proof that agrees on those three fields has the same key. */
  function Fingerprint(lib: Library, proof: Prover.Proof): (key: Bytes)
    ensures forall q: Prover.Proof {:trigger Preimage(q)} ::
              q.logIndex == proof.logIndex && q.receiptIndex == proof.receiptIndex && q.headerData == proof.headerData
              ==> lib.sha256(Preimage(q)) == key
  {
    forall q: Prover.Proof
      | q.logIndex == proof.logIndex && q.receiptIndex == proof.receiptIndex && q.headerData == proof.headerData
      ensures Preimage(q) == Preimage(proof)
    {
      PreimageInjective(q, proof);
    }
    lib.sha256(Preimage(proof))
  }

  /** The replay key ignores the log entry, the receipt and the Merkle path. */
  lemma FingerprintIgnoresPayload(lib: Library, p: Prover.Proof, q: Prover.Proof)
    requires p.logIndex == q.logIndex && p.receiptIndex == q.receiptIndex && p.headerData == q.headerData
    ensures Fingerprint(lib, p) == Fingerprint(lib, q)
  {
    PreimageInjective(p, q);
  }

  /** The storage charge of `record_proof` in checked `u128` arithmetic: the product may not
      overflow and may not exceed the attached deposit; what remains is left over. */
  function StorageCharge(storageDelta: u64, attachedDeposit: Balance): (r: Result<Balance, Error>)
    ensures r.Ok? <==> storageDelta * STORAGE_PRICE_PER_BYTE <= attachedDeposit
    ensures r.Ok? ==> r.value + storageDelta * STORAGE_PRICE_PER_BYTE == attachedDeposit
    ensures storageDelta * STORAGE_PRICE_PER_BYTE >= U128_LIMIT ==> r == Err(BalanceOverflow)
    ensures r.Err? && storageDelta * STORAGE_PRICE_PER_BYTE < U128_LIMIT ==> r == Err(InsufficientDeposit)
  {
    var required := storageDelta * STORAGE_PRICE_PER_BYTE;
    if required >= U128_LIMIT then Err(BalanceOverflow)
    else if required > attachedDeposit then Err(InsufficientDeposit)
    else Ok(attachedDeposit - required)
  }

  /** `EthLockedEvent::from_log_entry_data`: the `Locked` event read through `from_log_entry_data`. */
  function LockedEventFromLogEntryData(lib: Library, data: Bytes): (r: Result<EthLockedEvent, Error>)
    ensures var event := Prover.FromLogEntryData(lib.lockedEvent.name, lib.lockedEvent.params, data, lib.parseLog);
            r.Ok? <==> event.Ok? && lib.lockedEvent.fields(event.value.log).Some?
    ensures var event := Prover.FromLogEntryData(lib.lockedEvent.name, lib.lockedEvent.params, data, lib.parseLog);
            event.Ok? && lib.lockedEvent.fields(event.value.log).None? ==> r == Err(InvalidLockedEvent)
    ensures r.Ok? ==>
              var event := Prover.FromLogEntryData(lib.lockedEvent.name, lib.lockedEvent.params, data, lib.parseLog);
              && event.Ok? && r.value.ethCustodianAddress == event.value.ethCustodianAddress
              && lib.lockedEvent.fields(event.value.log) == Some((r.value.recipient, r.value.amount))
    ensures Prover.FromLogEntryData(lib.lockedEvent.name, lib.lockedEvent.params, data, lib.parseLog).Err? ==>
              r.Err? && r.error == Prover.FromLogEntryData(lib.lockedEvent.name, lib.lockedEvent.params, data, lib.parseLog).error
  {
    var event :- Prover.FromLogEntryData(lib.lockedEvent.name, lib.lockedEvent.params, data, lib.parseLog);
    match lib.lockedEvent.fields(event.log)
    case None => Err(InvalidLockedEvent)
    case Some((recipient, amount)) => Ok(EthLockedEvent(event.ethCustodianAddress, recipient, amount))
  }

  /** `get_bridge_token_account_id`: `<lower-cased address>.<current account>`, for a valid address. */
  function GetBridgeTokenAccountId(current: AccountId, address: string): (r: Result<AccountId, Error>)
    ensures r.Ok? <==> Prover.ValidateEthAddress(address).Ok?
    ensures r.Ok? ==> r.value == Hex.Encode(Prover.ValidateEthAddress(address).value) + "." + current
    ensures r.Err? ==> r.error == Prover.ValidateEthAddress(address).error
  {
    var lower := Text.ToLowerAscii(address);
    Hex.DecodeLower(address);
    match Prover.ValidateEthAddress(lower)
    case Err(e) => Err(e)
    case Ok(a) => Hex.EncodeDecode(lower); Text.LowerIdempotent(address); Ok(lower + "." + current)
  }

  /** `finish_withdraw`: the caller must be `<first part>.<current account>`, and both the first
      part of its name and the recipient must be Ethereum addresses. */
  function FinishWithdraw(env: CallEnv, amount: Balance, recipient: string): (r: Result<Withdrawal, Error>)
    ensures var first := Text.FirstPart(env.predecessor);
            && (r.Ok? <==> env.predecessor == first + "." + env.current
                           && Prover.ValidateEthAddress(first).Ok? && Prover.ValidateEthAddress(recipient).Ok?)
            && (env.predecessor != first + "." + env.current ==> r == Err(NotSubAccount))
            && (env.predecessor == first + "." + env.current && Prover.ValidateEthAddress(first).Err?
                ==> r == Err(Prover.ValidateEthAddress(first).error))
            && (env.predecessor == first + "." + env.current && Prover.ValidateEthAddress(first).Ok?
                && Prover.ValidateEthAddress(recipient).Err?
                ==> r == Err(Prover.ValidateEthAddress(recipient).error))
            && (r.Ok? ==> r.value == Withdrawal(Withdraw, amount, Prover.ValidateEthAddress(first).value,
                                                Prover.ValidateEthAddress(recipient).value))
  {
    var first := Text.FirstPart(env.predecessor);
    if env.predecessor != first + "." + env.current then Err(NotSubAccount)
    else
      var tokenAddress :- Prover.ValidateEthAddress(first);
      var recipientAddress :- Prover.ValidateEthAddress(recipient);
      Ok(Withdrawal(Withdraw, amount, tokenAddress, recipientAddress))
  }

  /** A hex address with no '.' before the current account passes the sub-account check. */
  lemma WithdrawFromSubAccount(token: string, current: AccountId, attachedDeposit: Balance, amount: Balance,
                               recipient: string)
    requires forall k :: 0 <= k < |token| ==> token[k] != '.'
    ensures var r := FinishWithdraw(CallEnv(token + "." + current, current, attachedDeposit), amount, recipient);
            && (r.Ok? <==> Prover.ValidateEthAddress(token).Ok? && Prover.ValidateEthAddress(recipient).Ok?)
            && (r.Ok? ==> r.value.tokenAddress == Prover.ValidateEthAddress(token).value)
  {
    Text.FirstPartOfJoin(token, current);
  }

  /** The bridge token account made for an address may withdraw, and is reported as that address. */
  lemma BridgeTokenCanWithdraw(address: string, current: AccountId, attachedDeposit: Balance, amount: Balance,
                               recipient: string)
    requires GetBridgeTokenAccountId(current, address).Ok?
    ensures var token := GetBridgeTokenAccountId(current, address).value;
            var r := FinishWithdraw(CallEnv(token, current, attachedDeposit), amount, recipient);
            && (r.Ok? <==> Prover.ValidateEthAddress(recipient).Ok?)
            && (r.Ok? ==> r.value.tokenAddress == Prover.ValidateEthAddress(address).value)
  {
    var a := Prover.ValidateEthAddress(address).value;
    var hex := Hex.Encode(a);
    Hex.EncodeIsLowerHex(a);
    assert forall k :: 0 <= k < |hex| ==> hex[k] != '.';
    Prover.ValidateEncode(a);
    WithdrawFromSubAccount(hex, current, attachedDeposit, amount, recipient);
  }

  /** The token `finish_deposit` actually passes, the empty string, is never a valid address. */
  lemma EmptyTokenRejected(current: AccountId)
    ensures GetBridgeTokenAccountId(current, "") == Err(WrongAddressLength)
  {
    Prover.ValidateRejectsLength("");
  }

  // ---------------------------------------------------------------------------------------------
  // The contract

  class EthConnector {
    /** The account of the prover that checks proofs. */
    const proverAccount: AccountId
    /** The Ethereum custodian contract whose events are trusted. */
    const ethCustodianAddress: Prover.EthAddress
    const lib: Library
    /** `used_events`: the fingerprints of the proofs already spent. */
    var usedEvents: set<Bytes>
    /** The fingerprints of the deposits that were credited, in order. */
    ghost var credited: seq<Bytes>

    /** Every credit spent its fingerprint, and no fingerprint was credited twice. */
    ghost predicate Valid()
      reads this
    {
      && (forall k :: 0 <= k < |credited| ==> credited[k] in usedEvents)
      && (forall i, j :: 0 <= i < j < |credited| ==> credited[i] != credited[j])
    }

    /** The fields `new` fills in. */
    constructor (proverAccount: AccountId, ethCustodianAddress: Prover.EthAddress, lib: Library)
      ensures this.proverAccount == proverAccount && this.ethCustodianAddress == ethCustodianAddress
      ensures this.lib == lib && usedEvents == {} && credited == [] && Valid()
    {
      this.proverAccount := proverAccount;
      this.ethCustodianAddress := ethCustodianAddress;
      this.lib := lib;
      usedEvents := {};
      credited := [];
    }

    /** `new`: refuses to run on existing state, validates the custodian address, starts with no
        used proofs. */
    static method New(stateExists: bool, proverAccount: AccountId, ethCustodianAddress: string, lib: Library)
      returns (r: Result<EthConnector, Error>)
      ensures stateExists ==> r == Err(AlreadyInitialized)
      ensures !stateExists ==> (r.Ok? <==> Prover.ValidateEthAddress(ethCustodianAddress).Ok?)
      ensures !stateExists && r.Err? ==> r.error == Prover.ValidateEthAddress(ethCustodianAddress).error
      ensures r.Ok? ==> fresh(r.value) && r.value.Valid() && r.value.usedEvents == {} && r.value.credited == []
      ensures r.Ok? ==> r.value.proverAccount == proverAccount && r.value.lib == lib
                        && r.value.ethCustodianAddress == Prover.ValidateEthAddress(ethCustodianAddress).value
    {
      if stateExists {
        return Err(AlreadyInitialized);
      }
      var address := Prover.ValidateEthAddress(ethCustodianAddress);
      if address.Err? {
        return Err(address.error);
      }
      var c := new EthConnector(proverAccount, address.value, lib);
      return Ok(c);
    }

    /** `deposit`: read the `Locked` event, insist that the custodian emitted it, and ask the
        prover to verify the proof before finishing. */
    function Deposit(proof: Prover.Proof): (r: Result<DepositCall, Error>)
      ensures var event := LockedEventFromLogEntryData(lib, proof.logEntryData);
              && (r.Ok? <==> event.Ok? && event.value.ethCustodianAddress == ethCustodianAddress)
              && (event.Ok? && event.value.ethCustodianAddress != ethCustodianAddress ==> r == Err(CustodianMismatch))
              && (event.Err? ==> r == Err(event.error))
              && (r.Ok? ==> r.value.verify == VerifyLogEntry(proverAccount, proof, false)
                            && r.value.finish == PendingDeposit(event.value.recipient, event.value.amount, proof))
    {
      var event :- LockedEventFromLogEntryData(lib, proof.logEntryData);
      if event.ethCustodianAddress != ethCustodianAddress then Err(CustodianMismatch)
      else Ok(DepositCall(VerifyLogEntry(proverAccount, proof, false), PendingDeposit(event.recipient, event.amount, proof)))
    }

    /** `record_proof`: spend the proof's fingerprint and charge for the storage that took. */
    method RecordProof(env: CallEnv, proof: Prover.Proof, storageDelta: u64) returns (r: Result<Balance, Error>)
      requires Valid()
      modifies this`usedEvents
      ensures Valid()
      ensures r.Ok? <==> env.predecessor == env.current && Fingerprint(lib, proof) !in old(usedEvents)
                         && StorageCharge(storageDelta, env.attachedDeposit).Ok?
      ensures r.Ok? ==> usedEvents == old(usedEvents) + {Fingerprint(lib, proof)}
                        && r.value == StorageCharge(storageDelta, env.attachedDeposit).value
      ensures r.Err? ==> usedEvents == old(usedEvents)
      ensures env.predecessor != env.current ==> r == Err(NotSelf)
      ensures env.predecessor == env.current && Fingerprint(lib, proof) in old(usedEvents) ==> r == Err(ProofAlreadyExists)
      ensures (&& env.predecessor == env.current && Fingerprint(lib, proof) !in old(usedEvents)
               && StorageCharge(storageDelta, env.attachedDeposit).Err?)
              ==> r == Err(StorageCharge(storageDelta, env.attachedDeposit).error)
    {
      var ok :- AssertSelf(env);
      var key := Fingerprint(lib, proof);
      if key in usedEvents {
        return Err(ProofAlreadyExists);
      }
      var before := usedEvents;
      usedEvents := usedEvents + {key};
      var refund := StorageCharge(storageDelta, env.attachedDeposit);
      if refund.Err? {
        usedEvents := before;
        return Err(refund.error);
      }
      return Ok(refund.value);
    }

    /** `finish_deposit` minting on the bridge token of `token`: only the contract's own callback,
        only after a successful verification, and only once per fingerprint. */
    method FinishDeposit(env: CallEnv, verificationSuccess: bool, pending: PendingDeposit, token: string,
                         storageDelta: u64)
      returns (r: Result<Mint, Error>)
      requires Valid()
      modifies this`usedEvents, this`credited
      ensures Valid()
      ensures r.Ok? <==> && env.predecessor == env.current && verificationSuccess
                         && Fingerprint(lib, pending.proof) !in old(usedEvents)
                         && StorageCharge(storageDelta, env.attachedDeposit).Ok?
                         && GetBridgeTokenAccountId(env.current, token).Ok?
      ensures r.Ok? ==> r.value == Mint(GetBridgeTokenAccountId(env.current, token).value, pending.newOwnerId,
                                        pending.amount)
      ensures r.Ok? ==> usedEvents == old(usedEvents) + {Fingerprint(lib, pending.proof)}
                        && credited == old(credited) + [Fingerprint(lib, pending.proof)]
      ensures r.Err? ==> usedEvents == old(usedEvents) && credited == old(credited)
      ensures env.predecessor != env.current ==> r == Err(NotSelf)
      ensures env.predecessor == env.current && !verificationSuccess ==> r == Err(VerificationFailed)
      ensures env.predecessor == env.current && verificationSuccess && Fingerprint(lib, pending.proof) in old(usedEvents)
              ==> r == Err(ProofAlreadyExists)
      ensures (&& env.predecessor == env.current && verificationSuccess
               && Fingerprint(lib, pending.proof) !in old(usedEvents)
               && StorageCharge(storageDelta, env.attachedDeposit).Err?)
              ==> r == Err(StorageCharge(storageDelta, env.attachedDeposit).error)
      ensures (&& env.predecessor == env.current && verificationSuccess
               && Fingerprint(lib, pending.proof) !in old(usedEvents)
               && StorageCharge(storageDelta, env.attachedDeposit).Ok?
               && GetBridgeTokenAccountId(env.current, token).Err?)
              ==> r == Err(GetBridgeTokenAccountId(env.current, token).error)
    {
      var ok :- AssertSelf(env);
      if !verificationSuccess {
        return Err(VerificationFailed);
      }
      var before := usedEvents;
      var refund := RecordProof(env, pending.proof, storageDelta);
      if refund.Err? {
        return Err(refund.error);
      }
      var tokenAccount := GetBridgeTokenAccountId(env.current, token);
      if tokenAccount.Err? {
        usedEvents := before;
        return Err(tokenAccount.error);
      }
      credited := credited + [Fingerprint(lib, pending.proof)];
      return Ok(Mint(tokenAccount.value, pending.newOwnerId, pending.amount));
    }

    /** `finish_deposit` as the contract has it, with the empty string for the token address: it
        never mints, and every call leaves the state as it was. */
    method FinishDepositAsWritten(env: CallEnv, verificationSuccess: bool, pending: PendingDeposit, storageDelta: u64)
      returns (r: Result<Mint, Error>)
      requires Valid()
      modifies this`usedEvents, this`credited
      ensures Valid() && r.Err?
      ensures usedEvents == old(usedEvents) && credited == old(credited)
      ensures (&& env.predecessor == env.current && verificationSuccess
               && Fingerprint(lib, pending.proof) !in old(usedEvents)
               && StorageCharge(storageDelta, env.attachedDeposit).Ok?)
              ==> r == Err(WrongAddressLength)
    {
      EmptyTokenRejected(env.current);
      r := FinishDeposit(env, verificationSuccess, pending, "", storageDelta);
    }

    /** `lock`: disabled. */
    method Lock(token: AccountId, amount: Balance, recipient: string) returns (r: Result<(), Error>)
      ensures r == Err(NativeNep21Disabled)
    {
      r := Err(NativeNep21Disabled);
    }

    /** `finish_lock`: disabled. */
    method FinishLock(env: CallEnv, results: seq<PromiseResult>, amount: Balance, recipient: Prover.EthAddress,
                      token: string)
      returns (r: Result<LockResult, Error>)
      ensures r == Err(NativeNep21Disabled)
    {
      r := Err(NativeNep21Disabled);
    }

    /** `unlock`: disabled. */
    method Unlock(proof: Prover.Proof) returns (r: Result<(), Error>)
      ensures r == Err(NativeNep21Disabled)
    {
      r := Err(NativeNep21Disabled);
    }

    /** `finish_unlock`: disabled, before the caller or the proof is looked at. */
    method FinishUnlock(env: CallEnv, verificationSuccess: bool, token: AccountId, recipient: AccountId,
                        amount: Balance, proof: Prover.Proof)
      returns (r: Result<(), Error>)
      ensures r == Err(NativeNep21Disabled)
    {
      r := Err(NativeNep21Disabled);
    }
  }

  /** The replay guard at work: on a new contract the same pending deposit, finished twice, mints
      at most once; the second attempt is refused as a reused proof whenever the first minted. */
  method DoubleSubmission(env: CallEnv, proverAccount: AccountId, custodian: Prover.EthAddress, lib: Library,
                          pending: PendingDeposit, token: string, storageDelta: u64, laterDelta: u64)
    returns (first: Result<Mint, Error>, second: Result<Mint, Error>)
    ensures first.Ok? <==> env.predecessor == env.current && StorageCharge(storageDelta, env.attachedDeposit).Ok?
                           && GetBridgeTokenAccountId(env.current, token).Ok?
    ensures first.Ok? ==> second == Err(ProofAlreadyExists)
    ensures !(first.Ok? && second.Ok?)
  {
    var c := new EthConnector(proverAccount, custodian, lib);
    first := c.FinishDeposit(env, true, pending, token, storageDelta);
    second := c.FinishDeposit(env, true, pending, token, laterDelta);
  }
}
