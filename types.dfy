/** Machine integers, byte strings, account ids and the error taxonomy shared by the connector. */
module Types {

  type byte = x: int | 0 <= x < 256

  type Bytes = seq<byte>

  const U64_LIMIT: nat := 0x1_0000_0000_0000_0000
  const U128_LIMIT: nat := 0x1_0000_0000_0000_0000_0000_0000_0000_0000

  /** Rust `u64`. */
  type u64 = x: int | 0 <= x < 0x1_0000_0000_0000_0000

  /** Rust `u128`; NEAR's `Balance`. */
  type u128 = x: int | 0 <= x < 0x1_0000_0000_0000_0000_0000_0000_0000_0000

  type Balance = u128

  /** A NEAR account id, e.g. `connector.near`. */
  type AccountId = string

  /** 256 to the power `n`: the number of values `n` bytes can hold. */
  function Pow256(n: nat): (r: nat)
    ensures r > 0
  {
    if n == 0 then 1 else 256 * Pow256(n - 1)
  }

  /** Every panic the model represents (each aborts the call into the connector). */
  datatype Error =
    | AlreadyInitialized            // "Already initialized"
    | InvalidHexAddress             // "ETH address should be a valid hex string."
    | WrongAddressLength            // "ETH address should be 20 bytes long"
    | InvalidRlp                    // "Invalid RLP"
    | FailedToParseEventLog         // "Failed to parse event log"
    | InvalidLockedEvent            // the lock event's fields could not be read from the parsed log
    | CustodianMismatch             // "Event's address ... does not match custodian address ..."
    | NotSelf                       // assert_self: predecessor differs from the current account
    | VerificationFailed            // "Failed to verify the proof"
    | ProofAlreadyExists            // "Event cannot be reused for depositing. Proof already exist."
    | BalanceOverflow               // u128 overflow of the storage charge
    | InsufficientDeposit           // u128 underflow: attached deposit below the storage charge
    | NotSubAccount                 // "Only sub accounts of EthConnector can call this method."
    | ExpectedOneCallbackResult     // "Contract expected a result on the callback"
    | NativeNep21Disabled           // "Native NEP21 on Ethereum is disabled."

  datatype Option<+T> = None | Some(value: T) {
    predicate IsFailure() { None? }
    function PropagateFailure<U>(): Option<U> requires None? { None }
    function Extract(): T requires Some? { value }
  }

  datatype Result<+T, +E> = Ok(value: T) | Err(error: E) {
    predicate IsFailure() { Err? }
    function PropagateFailure<U>(): Result<U, E> requires Err? { Err(error) }
    function Extract(): T requires Ok? { value }
  }
}
