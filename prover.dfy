/** The Ethereum-side helpers the connector relies on: validating a hex Ethereum address, the proof
    record handed to the prover, and reading a contract event out of an RLP-encoded log entry. The
    ABI decoder of the `ethabi` crate (`Event::parse_log`) is a parameter. */
module Prover {
  import opened Types
  import Hex
  import Rlp
  import Text

  /** `[u8; 20]`. */
  type EthAddress = a: Bytes | |a| == 20 witness [0, 0, 0, 0, 0, 0, 0, 0, 0, 0, 0, 0, 0, 0, 0, 0, 0, 0, 0, 0]

  // ---------------------------------------------------------------------------------------------
  // validate_eth_address

  /** `validate_eth_address`: hex-decode `address`, then insist on exactly 20 bytes. */
  function ValidateEthAddress(address: string): (r: Result<EthAddress, Error>)
    ensures r.Ok? <==> |address| == 40 && forall k :: 0 <= k < |address| ==> Hex.IsHexDigit(address[k])
    ensures r.Ok? ==> forall k :: 0 <= k < 20 ==>
                        r.value[k] == 16 * Hex.DigitValue(address[2 * k]) + Hex.DigitValue(address[2 * k + 1])
  {
    match Hex.Decode(address)
    case Err(_) => Err(InvalidHexAddress)
    case Ok(data) => if |data| != 20 then Err(WrongAddressLength) else Ok(data)
  }

  /** A character that is not a hex digit, or an odd number of characters, is reported as invalid hex. */
  lemma ValidateRejectsNonHex(address: string)
    requires |address| % 2 != 0 || exists k :: 0 <= k < |address| && !Hex.IsHexDigit(address[k])
    ensures ValidateEthAddress(address) == Err(InvalidHexAddress)
  {
  }

  /** Well-formed hex of any length but 40 characters is reported as the wrong length. */
  lemma ValidateRejectsLength(address: string)
    requires |address| % 2 == 0 && forall k :: 0 <= k < |address| ==> Hex.IsHexDigit(address[k])
    requires |address| != 40
    ensures ValidateEthAddress(address) == Err(WrongAddressLength)
  {
  }

  /** Every address survives the lower-case hex encoding the contract prints it with. */
  lemma ValidateEncode(a: EthAddress)
    ensures ValidateEthAddress(Hex.Encode(a)) == Ok(a)
  {
    Hex.DecodeEncode(a);
  }

  /** A validated address re-encodes to the lower-case spelling of the input. */
  lemma EncodeValidated(address: string)
    requires ValidateEthAddress(address).Ok?
    ensures Hex.Encode(ValidateEthAddress(address).value) == Text.ToLowerAscii(address)
  {
    Hex.EncodeDecode(address);
  }

  // ---------------------------------------------------------------------------------------------
  // The proof record

  /** `Proof`: where the log entry sits in which receipt of which block, and the Merkle path. */
  datatype Proof = Proof(
    logIndex: u64,
    logEntryData: Bytes,
    receiptIndex: u64,
    receiptData: Bytes,
    headerData: Bytes,
    proof: seq<Bytes>)

  // ---------------------------------------------------------------------------------------------
  // The parts of `ethabi` the event reader passes around

  /** `ethabi::ParamType`. */
  datatype ParamType =
    | AddressType
    | BytesType
    | IntType(bits: nat)
    | UintType(bits: nat)
    | BoolType
    | StringType
    | ArrayType(elementType: ParamType)
    | FixedBytesType(size: nat)
    | FixedArrayType(elementType: ParamType, size: nat)
    | TupleType(components: seq<ParamType>)

  /** `ethabi::Token`: a decoded value. */
  datatype Token =
    | AddressToken(address: EthAddress)
    | FixedBytesToken(fixedBytes: Bytes)
    | BytesToken(bytes: Bytes)
    | IntToken(signed: int)
    | UintToken(unsigned: nat)
    | BoolToken(flag: bool)
    | StringToken(text: string)
    | FixedArrayToken(fixedItems: seq<Token>)
    | ArrayToken(items: seq<Token>)
    | TupleToken(components: seq<Token>)

  /** `EthEventParams`: the declared parameters of an event, as (name, kind, indexed). */
  type EthEventParams = seq<(string, ParamType, bool)>

  datatype EventParam = EventParam(name: string, kind: ParamType, indexed: bool)

  datatype Event = Event(name: string, inputs: seq<EventParam>, anonymous: bool)

  /** What a log entry offers the ABI decoder: its topics and its data. */
  datatype RawLog = RawLog(topics: seq<Bytes>, data: Bytes)

  datatype LogParam = LogParam(name: string, value: Token)

  datatype Log = Log(params: seq<LogParam>)

  /** `Event::parse_log`, a partial function. */
  type ParseLog = (Event, RawLog) -> Option<Log>

  /** The event inputs, one per declared parameter. */
  function EventInputs(params: EthEventParams): (r: seq<EventParam>)
    ensures |r| == |params|
    ensures forall k :: 0 <= k < |params| ==>
              r[k].name == params[k].0 && r[k].kind == params[k].1 && r[k].indexed == params[k].2
  {
    if params == [] then []
    else [EventParam(params[0].0, params[0].1, params[0].2)] + EventInputs(params[1..])
  }

  /** The non-anonymous event named `name` with the declared parameters as inputs. */
  function MakeEvent(name: string, params: EthEventParams): (e: Event)
    ensures e.name == name && !e.anonymous && |e.inputs| == |params|
    ensures forall k :: 0 <= k < |params| ==> e.inputs[k] == EventParam(params[k].0, params[k].1, params[k].2)
  {
    Event(name, EventInputs(params), false)
  }

  // ---------------------------------------------------------------------------------------------
  // EthEvent::from_log_entry_data

  /** `EthEvent`: the address of the contract that emitted the log, and the decoded log. */
  datatype EthEvent = EthEvent(ethCustodianAddress: EthAddress, log: Log)

  /** `EthEvent::from_log_entry_data`: decode the RLP log entry, then let the ABI decoder read the
      event `name` out of its topics and data. */
  function FromLogEntryData(name: string, params: EthEventParams, data: Bytes, parseLog: ParseLog)
    : (r: Result<EthEvent, Error>)
    ensures r == Err(InvalidRlp) <==> Rlp.DecodeLogEntry(data).None?
    ensures Rlp.DecodeLogEntry(data).Some?
            && parseLog(MakeEvent(name, params),
                        RawLog(Rlp.DecodeLogEntry(data).value.topics, Rlp.DecodeLogEntry(data).value.data)).Some?
            ==> r.Ok?
    ensures r.Ok? ==>
              && Rlp.DecodeLogEntry(data).Some?
              && r.value.ethCustodianAddress == Rlp.DecodeLogEntry(data).value.address
              && parseLog(MakeEvent(name, params),
                          RawLog(Rlp.DecodeLogEntry(data).value.topics, Rlp.DecodeLogEntry(data).value.data))
                 == Some(r.value.log)
  {
    match Rlp.DecodeLogEntry(data)
    case None => Err(InvalidRlp)
    case Some(entry) =>
      var rawLog := RawLog(entry.topics, entry.data);
      match parseLog(MakeEvent(name, params), rawLog)
      case None => Err(FailedToParseEventLog)
      case Some(log) => Ok(EthEvent(entry.address, log))
  }

  /** On the encoding of a log entry, the event is read from exactly that entry's address, topics
      and data; only the ABI decoder can still refuse it. */
  lemma FromEncodedLogEntry(name: string, params: EthEventParams, entry: Rlp.LogEntry, parseLog: ParseLog)
    requires Rlp.Encodable(entry)
    ensures var r := FromLogEntryData(name, params, Rlp.EncodeLogEntry(entry), parseLog);
            var parsed := parseLog(MakeEvent(name, params), RawLog(entry.topics, entry.data));
            && (r.Ok? <==> parsed.Some?)
            && (r.Ok? ==> r.value == EthEvent(entry.address, parsed.value))
            && (r.Err? ==> r.error == FailedToParseEventLog)
  {
    Rlp.DecodeEncodeLogEntry(entry);
  }

  /** Whatever the ABI decoder does, an accepted input is the encoding of a log entry emitted at the
      reported address. */
  lemma FromLogEntryDataIsEncoding(name: string, params: EthEventParams, data: Bytes, parseLog: ParseLog)
    requires FromLogEntryData(name, params, data, parseLog).Ok?
    ensures var entry := Rlp.DecodeLogEntry(data).value;
            && Rlp.Encodable(entry) && data == Rlp.EncodeLogEntry(entry)
            && entry.address == FromLogEntryData(name, params, data, parseLog).value.ethCustodianAddress
  {
    Rlp.LogEntryCanonical(data);
  }
}
