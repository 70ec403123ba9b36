/** Recursive length prefix (RLP, appendix B of the Ethereum yellow paper), restricted to the one
    shape the connector decodes: an Ethereum log entry, the list
    [address: 20-byte string, topics: list of 32-byte strings, data: byte string].
    Decoding is canonical: a single byte below 0x80 must stand for itself, and a long-form length
    must have no leading zero byte and be at least 56. */
module Rlp {
  import opened Types

  const ADDRESS_LEN: nat := 20
  const TOPIC_LEN: nat := 32

  /** `eth_types::LogEntry`. */
  datatype LogEntry = LogEntry(address: Bytes, topics: seq<Bytes>, data: Bytes)

  /** The field widths of `H160` and `H256`. */
  predicate WellShaped(e: LogEntry) {
    |e.address| == ADDRESS_LEN && forall k :: 0 <= k < |e.topics| ==> |e.topics[k]| == TOPIC_LEN
  }

  // ---------------------------------------------------------------------------------------------
  // Big-endian lengths

  /** The minimal big-endian bytes of `n` (none for 0). */
  function BeBytes(n: nat): (r: Bytes)
    decreases n
  {
    if n == 0 then [] else BeBytes(n / 256) + [n % 256]
  }

  function BeValue(bs: Bytes): nat {
    if bs == [] then 0 else 256 * BeValue(bs[..|bs| - 1]) + bs[|bs| - 1]
  }

  lemma {:induction false} BeRoundTrip(n: nat)
    ensures BeValue(BeBytes(n)) == n
    decreases n
  {
    if n > 0 {
      BeRoundTrip(n / 256);
      var r := BeBytes(n);
      assert r[..|r| - 1] == BeBytes(n / 256);
    }
  }

  lemma {:induction false} BeBytesHead(n: nat)
    requires n > 0
    ensures |BeBytes(n)| > 0 && BeBytes(n)[0] != 0
    decreases n
  {
    if n / 256 > 0 {
      BeBytesHead(n / 256);
    }
  }

  lemma {:induction false} BeBytesFit(n: nat, k: nat)
    requires n < Pow256(k)
    ensures |BeBytes(n)| <= k
    decreases n
  {
    if n > 0 {
      assert k > 0;
      assert n / 256 < Pow256(k - 1);
      BeBytesFit(n / 256, k - 1);
    }
  }

  lemma {:induction false} BeValueFits(bs: Bytes)
    ensures BeValue(bs) < Pow256(|bs|)
  {
    if bs != [] {
      BeValueFits(bs[..|bs| - 1]);
    }
  }

  /** A big-endian string without a leading zero is the minimal encoding of its value. */
  lemma {:induction false} BeCanonical(bs: Bytes)
    requires |bs| > 0 && bs[0] != 0
    ensures BeBytes(BeValue(bs)) == bs
  {
    var init := bs[..|bs| - 1];
    if init == [] {
      assert BeValue(bs) == bs[0];
    } else {
      BeCanonical(init);
      assert BeValue(init) > 0;
    }
  }

  // ---------------------------------------------------------------------------------------------
  // Encoding

  /** The length prefix of a string (`offset` 0x80) or a list (`offset` 0xc0) of `len` bytes. */
  function EncodeLength(len: nat, offset: nat): (r: Bytes)
    requires len < U64_LIMIT && (offset == 0x80 || offset == 0xc0)
    ensures |r| == HeaderLen(len)
  {
    if len < 56 then [offset + len]
    else
      assert Pow256(8) == U64_LIMIT;
      BeBytesFit(len, 8);
      [offset + 55 + |BeBytes(len)|] + BeBytes(len)
  }

  function HeaderLen(len: nat): nat {
    if len < 56 then 1 else 1 + |BeBytes(len)|
  }

  predicate SelfEncoding(bs: Bytes) {
    |bs| == 1 && bs[0] < 0x80
  }

  function StringLen(bs: Bytes): nat {
    if SelfEncoding(bs) then 1 else HeaderLen(|bs|) + |bs|
  }

  function EncodeString(bs: Bytes): (r: Bytes)
    requires |bs| < U64_LIMIT
    ensures |r| == StringLen(bs)
  {
    if SelfEncoding(bs) then bs else EncodeLength(|bs|, 0x80) + bs
  }

  function EncodeList(payload: Bytes): (r: Bytes)
    requires |payload| < U64_LIMIT
    ensures |r| == HeaderLen(|payload|) + |payload|
  {
    EncodeLength(|payload|, 0xc0) + payload
  }

  /** The items of the topic list, each a 32-byte string, one after the other. */
  function EncodeTopics(ts: seq<Bytes>): (r: Bytes)
    requires forall k :: 0 <= k < |ts| ==> |ts[k]| == TOPIC_LEN
    ensures |r| == 33 * |ts|
  {
    if ts == [] then [] else EncodeString(ts[0]) + EncodeTopics(ts[1..])
  }

  function PayloadLen(e: LogEntry): nat {
    StringLen(e.address) + HeaderLen(33 * |e.topics|) + 33 * |e.topics| + StringLen(e.data)
  }

  /** Every length of the entry fits the eight-byte long form. */
  predicate Encodable(e: LogEntry) {
    WellShaped(e) && |e.data| < U64_LIMIT && 33 * |e.topics| < U64_LIMIT && PayloadLen(e) < U64_LIMIT
  }

  function EncodeLogEntry(e: LogEntry): (r: Bytes)
    requires Encodable(e)
  {
    var topics := EncodeList(EncodeTopics(e.topics));
    EncodeList(EncodeString(e.address) + topics + EncodeString(e.data))
  }

  // ---------------------------------------------------------------------------------------------
  // Decoding

  /** A decoded prefix: whether the item is a list, how many bytes the prefix takes, and how many
      payload bytes follow it. A byte below 0x80 is its own payload, behind a prefix of no bytes. */
  datatype Header = Header(isList: bool, size: nat, len: nat)

  /** The prefix of the item at the front of `s`. */
  function DecodeHeader(s: Bytes): (r: Option<Header>)
    ensures r.Some? ==> 0 < r.value.size + r.value.len <= |s|
  {
    if s == [] then None
    else
      var b := s[0];
      if b < 0x80 then Some(Header(false, 0, 1))
      else if b <= 0xb7 then
        var len := b - 0x80;
        if 1 + len > |s| then None
        else if len == 1 && s[1] < 0x80 then None
        else Some(Header(false, 1, len))
      else if b < 0xc0 then LongHeader(s, false, b - 0xb7)
      else if b <= 0xf7 then
        var len := b - 0xc0;
        if 1 + len > |s| then None else Some(Header(true, 1, len))
      else LongHeader(s, true, b - 0xf7)
  }

  /** A prefix whose length is given in the `k` bytes after the first. */
  function LongHeader(s: Bytes, isList: bool, k: nat): (r: Option<Header>)
    requires |s| > 0 && 1 <= k <= 8
    ensures r.Some? ==> 0 < r.value.size && r.value.size + r.value.len <= |s|
  {
    if 1 + k > |s| then None
    else
      var lb := s[1..1 + k];
      var len := BeValue(lb);
      if lb[0] == 0 || len < 56 || 1 + k + len > |s| then None
      else Some(Header(isList, 1 + k, len))
  }

  /** The byte string at the front of `s`, and what follows it. */
  function DecodeString(s: Bytes): (r: Option<(Bytes, Bytes)>)
    ensures r.Some? ==> |r.value.1| < |s|
  {
    match DecodeHeader(s)
    case None => None
    case Some(h) => if h.isList then None else Some((s[h.size..h.size + h.len], s[h.size + h.len..]))
  }

  /** The 32-byte strings that make up all of `s`. */
  function DecodeTopics(s: Bytes): (r: Option<seq<Bytes>>)
    ensures r.Some? ==> forall k :: 0 <= k < |r.value| ==> |r.value[k]| == TOPIC_LEN
    decreases |s|
  {
    if s == [] then Some([])
    else
      match DecodeString(s)
      case None => None
      case Some((t, rest)) =>
        if |t| != TOPIC_LEN then None
        else
          match DecodeTopics(rest)
          case None => None
          case Some(more) => Some([t] + more)
  }

  /** `rlp::decode::<LogEntry>`: all of `s` must be one list of the three fields. */
  function DecodeLogEntry(s: Bytes): (r: Option<LogEntry>)
    ensures r.Some? ==> WellShaped(r.value)
  {
    match DecodeHeader(s)
    case None => None
    case Some(h) => if !h.isList || h.size + h.len != |s| then None else DecodeFields(s[h.size..])
  }

  /** The payload of the log entry's list: the address, then the topics and the data. */
  function DecodeFields(payload: Bytes): (r: Option<LogEntry>)
    ensures r.Some? ==> WellShaped(r.value)
  {
    match DecodeString(payload)
    case None => None
    case Some((address, after)) =>
      if |address| != ADDRESS_LEN then None
      else
        match DecodeTail(after)
        case None => None
        case Some((topics, data)) => Some(LogEntry(address, topics, data))
  }

  /** The topic list and the data string, which must end the payload. */
  function DecodeTail(after: Bytes): (r: Option<(seq<Bytes>, Bytes)>)
    ensures r.Some? ==> forall k :: 0 <= k < |r.value.0| ==> |r.value.0[k]| == TOPIC_LEN
  {
    match DecodeHeader(after)
    case None => None
    case Some(th) =>
      if !th.isList then None
      else
        match DecodeTopics(after[th.size..th.size + th.len])
        case None => None
        case Some(topics) =>
          match DecodeString(after[th.size + th.len..])
          case None => None
          case Some((data, rest)) => if rest != [] then None else Some((topics, data))
  }

  // ---------------------------------------------------------------------------------------------
  // Decoding inverts encoding

  /** The prefix EncodeLength writes is read back as the same kind and length. */
  lemma HeaderOfLength(len: nat, offset: nat, rest: Bytes)
    requires len < U64_LIMIT && (offset == 0x80 || offset == 0xc0) && len <= |rest|
    requires offset == 0x80 && len == 1 ==> rest[0] >= 0x80
    ensures DecodeHeader(EncodeLength(len, offset) + rest)
            == Some(Header(offset == 0xc0, HeaderLen(len), len))
  {
    var s := EncodeLength(len, offset) + rest;
    if len < 56 {
      assert s[0] == offset + len;
      if len >= 1 {
        assert s[1] == rest[0];
      }
    } else {
      var lb := BeBytes(len);
      var k := |lb|;
      assert Pow256(8) == U64_LIMIT;
      BeBytesFit(len, 8);
      BeBytesHead(len);
      BeRoundTrip(len);
      assert s == [offset + 55 + k] + lb + rest;
      assert s[1..1 + k] == lb;
      assert DecodeHeader(s) == LongHeader(s, offset == 0xc0, k);
    }
  }

  lemma StringOf(bs: Bytes, rest: Bytes)
    requires |bs| < U64_LIMIT
    ensures DecodeString(EncodeString(bs) + rest) == Some((bs, rest))
  {
    if SelfEncoding(bs) {
      SelfStringOf(bs, rest);
    } else {
      PrefixedStringOf(bs, rest);
    }
  }

  lemma SelfStringOf(bs: Bytes, rest: Bytes)
    requires SelfEncoding(bs)
    ensures DecodeString(bs + rest) == Some((bs, rest))
  {
    var s := bs + rest;
    assert s[0] == bs[0];
    assert s[..1] == bs && s[1..] == rest;
    StringStep(s, Header(false, 0, 1), bs, rest);
  }

  lemma PrefixedStringOf(bs: Bytes, rest: Bytes)
    requires |bs| < U64_LIMIT && !SelfEncoding(bs)
    ensures DecodeString(EncodeLength(|bs|, 0x80) + bs + rest) == Some((bs, rest))
  {
    var s := EncodeLength(|bs|, 0x80) + bs + rest;
    var hl := HeaderLen(|bs|);
    assert s == EncodeLength(|bs|, 0x80) + (bs + rest);
    if |bs| == 1 {
      assert (bs + rest)[0] == bs[0];
    }
    HeaderOfLength(|bs|, 0x80, bs + rest);
    assert s[hl..hl + |bs|] == bs && s[hl + |bs|..] == rest;
    StringStep(s, Header(false, hl, |bs|), bs, rest);
  }

  lemma StringStep(s: Bytes, h: Header, bs: Bytes, rest: Bytes)
    requires DecodeHeader(s) == Some(h) && !h.isList
    requires s[h.size..h.size + h.len] == bs && s[h.size + h.len..] == rest
    ensures DecodeString(s) == Some((bs, rest))
  {
  }

  lemma {:induction false} TopicsOf(ts: seq<Bytes>)
    requires forall k :: 0 <= k < |ts| ==> |ts[k]| == TOPIC_LEN
    ensures DecodeTopics(EncodeTopics(ts)) == Some(ts)
  {
    if ts != [] {
      var s := EncodeTopics(ts);
      assert s == EncodeString(ts[0]) + EncodeTopics(ts[1..]);
      StringOf(ts[0], EncodeTopics(ts[1..]));
      TopicsOf(ts[1..]);
      assert [ts[0]] + ts[1..] == ts;
    }
  }

  lemma TailOf(ts: seq<Bytes>, data: Bytes)
    requires forall k :: 0 <= k < |ts| ==> |ts[k]| == TOPIC_LEN
    requires 33 * |ts| < U64_LIMIT && |data| < U64_LIMIT
    ensures DecodeTail(EncodeList(EncodeTopics(ts)) + EncodeString(data)) == Some((ts, data))
  {
    var tp := EncodeTopics(ts);
    var th := Header(true, HeaderLen(|tp|), |tp|);
    var after := EncodeList(tp) + EncodeString(data);
    ListPieces(tp, EncodeString(data));
    TopicsOf(ts);
    StringOf(data, []);
    assert EncodeString(data) + [] == EncodeString(data);
    TailStep(after, th, ts, data);
  }

  /** Where a list's prefix and payload, and whatever follows the list, lie in its encoding. */
  lemma ListPieces(tp: Bytes, d: Bytes)
    requires |tp| < U64_LIMIT
    ensures var after := EncodeList(tp) + d;
            var size := HeaderLen(|tp|);
            && DecodeHeader(after) == Some(Header(true, size, |tp|))
            && after[size..size + |tp|] == tp
            && after[size + |tp|..] == d
  {
    var after := EncodeList(tp) + d;
    assert after == EncodeLength(|tp|, 0xc0) + (tp + d);
    HeaderOfLength(|tp|, 0xc0, tp + d);
  }

  lemma TailStep(after: Bytes, th: Header, ts: seq<Bytes>, data: Bytes)
    requires DecodeHeader(after) == Some(th) && th.isList
    requires DecodeTopics(after[th.size..th.size + th.len]) == Some(ts)
    requires DecodeString(after[th.size + th.len..]) == Some((data, []))
    ensures DecodeTail(after) == Some((ts, data))
  {
  }

  lemma FieldsOf(e: LogEntry)
    requires Encodable(e)
    ensures DecodeFields(EncodeString(e.address) + (EncodeList(EncodeTopics(e.topics)) + EncodeString(e.data)))
            == Some(e)
  {
    var after := EncodeList(EncodeTopics(e.topics)) + EncodeString(e.data);
    StringOf(e.address, after);
    TailOf(e.topics, e.data);
    FieldsStep(EncodeString(e.address) + after, e.address, after, e.topics, e.data);
  }

  lemma FieldsStep(payload: Bytes, address: Bytes, after: Bytes, ts: seq<Bytes>, data: Bytes)
    requires DecodeString(payload) == Some((address, after)) && |address| == ADDRESS_LEN
    requires DecodeTail(after) == Some((ts, data))
    ensures DecodeFields(payload) == Some(LogEntry(address, ts, data))
  {
  }

  lemma LogEntryStep(s: Bytes, h: Header, e: LogEntry)
    requires DecodeHeader(s) == Some(h) && h.isList && h.size + h.len == |s|
    requires DecodeFields(s[h.size..]) == Some(e)
    ensures DecodeLogEntry(s) == Some(e)
  {
  }

  /** Every encodable log entry decodes back to itself. */
  lemma DecodeEncodeLogEntry(e: LogEntry)
    requires Encodable(e)
    ensures DecodeLogEntry(EncodeLogEntry(e)) == Some(e)
  {
    var a, topics, d := EncodeString(e.address), EncodeList(EncodeTopics(e.topics)), EncodeString(e.data);
    var payload := a + topics + d;
    assert payload == a + (topics + d);
    ListPieces(payload, []);
    assert EncodeList(payload) + [] == EncodeLogEntry(e);
    FieldsOf(e);
    LogEntryStep(EncodeLogEntry(e), Header(true, HeaderLen(|payload|), |payload|), e);
  }

  // ---------------------------------------------------------------------------------------------
  // Decoding accepts only encodings

  lemma {:induction false} Pow256Monotonic(j: nat, k: nat)
    requires j <= k
    ensures Pow256(j) <= Pow256(k)
  {
    if j < k {
      Pow256Monotonic(j, k - 1);
    }
  }

  /** A prefix the decoder accepts is the one EncodeLength writes. */
  lemma HeaderCanonical(s: Bytes)
    requires DecodeHeader(s).Some?
    ensures var h := DecodeHeader(s).value;
            && h.len < U64_LIMIT
            && (h.size == 0 ==> !h.isList && h.len == 1 && s[0] < 0x80)
            && (!h.isList && h.size != 0 && h.len == 1 ==> s[1] >= 0x80)
            && (h.size != 0 ==>
                  h.size == HeaderLen(h.len)
                  && s[..h.size] == EncodeLength(h.len, if h.isList then 0xc0 else 0x80))
  {
    var b := s[0];
    if 0xb8 <= b < 0xc0 {
      LongHeaderCanonical(s, false, b - 0xb7);
    } else if 0xf8 <= b {
      LongHeaderCanonical(s, true, b - 0xf7);
    }
  }

  lemma LongHeaderCanonical(s: Bytes, isList: bool, k: nat)
    requires |s| > 0 && 1 <= k <= 8 && s[0] == (if isList then 0xf7 else 0xb7) + k
    requires LongHeader(s, isList, k).Some?
    ensures var h := LongHeader(s, isList, k).value;
            && h.len < U64_LIMIT && h.isList == isList && h.size != 0
            && h.size == HeaderLen(h.len)
            && s[..h.size] == EncodeLength(h.len, if isList then 0xc0 else 0x80)
  {
    var lb := s[1..1 + k];
    var len := BeValue(lb);
    BeCanonical(lb);
    BeValueFits(lb);
    Pow256Monotonic(k, 8);
    assert Pow256(8) == U64_LIMIT;
    assert s[..1 + k] == [s[0]] + lb;
  }

  /** A string the decoder accepts is the canonical encoding of its payload. */
  lemma StringCanonical(s: Bytes)
    requires DecodeString(s).Some?
    ensures var (bs, rest) := DecodeString(s).value;
            |bs| < U64_LIMIT && s == EncodeString(bs) + rest
  {
    var h := DecodeHeader(s).value;
    HeaderCanonical(s);
    Split3(s, h.size, h.size + h.len);
  }

  lemma Split3(s: Bytes, i: nat, j: nat)
    requires i <= j <= |s|
    ensures s == s[..i] + s[i..j] + s[j..]
  {
  }

  lemma {:induction false} TopicsCanonical(s: Bytes)
    requires DecodeTopics(s).Some?
    ensures var ts := DecodeTopics(s).value;
            (forall k :: 0 <= k < |ts| ==> |ts[k]| == TOPIC_LEN) && s == EncodeTopics(ts)
    decreases |s|
  {
    if s != [] {
      var (t, rest) := DecodeString(s).value;
      StringCanonical(s);
      TopicsCanonical(rest);
      var ts := DecodeTopics(s).value;
      assert ts == [t] + DecodeTopics(rest).value;
      assert ts[1..] == DecodeTopics(rest).value;
    }
  }

  /** What DecodeTail found, piece by piece. */
  lemma TailParts(after: Bytes)
    requires DecodeTail(after).Some?
    ensures var th := DecodeHeader(after).value;
            var (ts, data) := DecodeTail(after).value;
            && DecodeHeader(after).Some? && th.isList
            && DecodeTopics(after[th.size..th.size + th.len]) == Some(ts)
            && DecodeString(after[th.size + th.len..]) == Some((data, []))
  {
  }

  lemma TailCanonical(after: Bytes)
    requires DecodeTail(after).Some?
    ensures var (ts, data) := DecodeTail(after).value;
            && (forall k :: 0 <= k < |ts| ==> |ts[k]| == TOPIC_LEN)
            && 33 * |ts| < U64_LIMIT && |data| < U64_LIMIT
            && after == EncodeList(EncodeTopics(ts)) + EncodeString(data)
  {
    TailParts(after);
    var th := DecodeHeader(after).value;
    HeaderCanonical(after);
    var tp := after[th.size..th.size + th.len];
    TopicsCanonical(tp);
    var tail := after[th.size + th.len..];
    StringCanonical(tail);
    Split3(after, th.size, th.size + th.len);
  }

  /** What DecodeFields found, piece by piece. */
  lemma FieldsParts(payload: Bytes)
    requires DecodeFields(payload).Some?
    ensures var (address, after) := DecodeString(payload).value;
            var e := DecodeFields(payload).value;
            && DecodeString(payload).Some? && DecodeTail(after).Some?
            && e == LogEntry(address, DecodeTail(after).value.0, DecodeTail(after).value.1)
            && |address| == ADDRESS_LEN
  {
  }

  lemma FieldsCanonical(payload: Bytes)
    requires DecodeFields(payload).Some?
    ensures var e := DecodeFields(payload).value;
            && WellShaped(e) && |e.data| < U64_LIMIT && 33 * |e.topics| < U64_LIMIT
            && payload == EncodeString(e.address) + (EncodeList(EncodeTopics(e.topics)) + EncodeString(e.data))
  {
    FieldsParts(payload);
    var (address, after) := DecodeString(payload).value;
    StringCanonical(payload);
    TailCanonical(after);
  }

  /** The decoder accepts only the encodings of log entries. */
  lemma LogEntryCanonical(s: Bytes)
    requires DecodeLogEntry(s).Some?
    ensures Encodable(DecodeLogEntry(s).value) && EncodeLogEntry(DecodeLogEntry(s).value) == s
  {
    var h := DecodeHeader(s).value;
    HeaderCanonical(s);
    var payload := s[h.size..];
    assert DecodeFields(payload) == DecodeLogEntry(s);
    FieldsCanonical(payload);
    var e := DecodeFields(payload).value;
    LogEntryReassembled(s, h.size, e);
  }

  lemma LogEntryReassembled(s: Bytes, size: nat, e: LogEntry)
    requires size <= |s| && WellShaped(e) && |e.data| < U64_LIMIT && 33 * |e.topics| < U64_LIMIT
    requires s[size..] == EncodeString(e.address) + (EncodeList(EncodeTopics(e.topics)) + EncodeString(e.data))
    requires |s| - size < U64_LIMIT && s[..size] == EncodeLength(|s| - size, 0xc0)
    ensures Encodable(e) && EncodeLogEntry(e) == s
  {
    var a, tl, d := EncodeString(e.address), EncodeList(EncodeTopics(e.topics)), EncodeString(e.data);
    PayloadLenOf(e);
    Associate(a, tl, d);
    ListReassembled(s, size, a + tl + d);
  }

  lemma PayloadLenOf(e: LogEntry)
    requires WellShaped(e) && |e.data| < U64_LIMIT && 33 * |e.topics| < U64_LIMIT
    ensures |EncodeString(e.address) + EncodeList(EncodeTopics(e.topics)) + EncodeString(e.data)| == PayloadLen(e)
  {
  }

  lemma Associate(a: Bytes, b: Bytes, c: Bytes)
    ensures a + (b + c) == a + b + c
  {
  }

  lemma ListReassembled(s: Bytes, size: nat, payload: Bytes)
    requires size <= |s| && s[size..] == payload && |payload| < U64_LIMIT
    requires s[..size] == EncodeLength(|s| - size, 0xc0)
    ensures s == EncodeList(payload)
  {
    assert s == s[..size] + s[size..];
  }

  lemma DecodeLogEntryIff(s: Bytes, e: LogEntry)
    ensures DecodeLogEntry(s) == Some(e) <==> Encodable(e) && s == EncodeLogEntry(e)
  {
    if DecodeLogEntry(s) == Some(e) {
      LogEntryCanonical(s);
    }
    if Encodable(e) && s == EncodeLogEntry(e) {
      DecodeEncodeLogEntry(e);
    }
  }
}
