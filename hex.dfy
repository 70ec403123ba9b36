/** The `hex` crate's `decode` (either case accepted) and `encode` (lower case). Lengths and indices
    are counted in characters. */
module Hex {
  import opened Types
  import Text

  datatype HexError = OddLength | InvalidHexCharacter(c: char, index: nat)

  predicate IsHexDigit(c: char) {
    '0' <= c <= '9' || 'a' <= c <= 'f' || 'A' <= c <= 'F'
  }

  predicate IsLowerHexDigit(c: char) {
    '0' <= c <= '9' || 'a' <= c <= 'f'
  }

  function DigitValue(c: char): (v: nat)
    requires IsHexDigit(c)
    ensures v < 16
  {
    if '0' <= c <= '9' then c as int - '0' as int
    else if 'a' <= c <= 'f' then c as int - 'a' as int + 10
    else c as int - 'A' as int + 10
  }

  /** The lower-case digit for a nibble: the inverse of DigitValue on lower-case digits. */
  function LowerDigit(v: nat): (c: char)
    requires v < 16
    ensures IsLowerHexDigit(c) && IsHexDigit(c) && DigitValue(c) == v
  {
    if v < 10 then ('0' as int + v) as char else ('a' as int + v - 10) as char
  }

  /** `hex::decode`: odd length is rejected first, then the first non-hex character is reported. */
  function Decode(s: string): (r: Result<Bytes, HexError>)
    ensures r.Ok? <==> |s| % 2 == 0 && forall k :: 0 <= k < |s| ==> IsHexDigit(s[k])
    ensures r == Err(OddLength) <==> |s| % 2 != 0
    ensures r.Ok? ==> |r.value| == |s| / 2
    ensures r.Ok? ==> forall k :: 0 <= k < |r.value| ==>
                        r.value[k] == 16 * DigitValue(s[2 * k]) + DigitValue(s[2 * k + 1])
  {
    if |s| % 2 != 0 then Err(OddLength) else DecodeFrom(s, 0)
  }

  /** Decodes the pairs of `s` from position `i` on. */
  function DecodeFrom(s: string, i: nat): (r: Result<Bytes, HexError>)
    requires i <= |s| && (|s| - i) % 2 == 0
    ensures r.Ok? <==> forall k :: i <= k < |s| ==> IsHexDigit(s[k])
    ensures r.Ok? ==> |r.value| == (|s| - i) / 2
    ensures r.Ok? ==> forall k :: 0 <= k < |r.value| ==>
                        r.value[k] == 16 * DigitValue(s[i + 2 * k]) + DigitValue(s[i + 2 * k + 1])
    ensures r.Err? ==> r.error.InvalidHexCharacter? && i <= r.error.index < |s|
                       && r.error.c == s[r.error.index] && !IsHexDigit(s[r.error.index])
                       && forall k :: i <= k < r.error.index ==> IsHexDigit(s[k])
    decreases |s| - i
  {
    if i == |s| then Ok([])
    else if !IsHexDigit(s[i]) then Err(InvalidHexCharacter(s[i], i))
    else if !IsHexDigit(s[i + 1]) then Err(InvalidHexCharacter(s[i + 1], i + 1))
    else
      match DecodeFrom(s, i + 2)
      case Err(e) => Err(e)
      case Ok(rest) =>
        var b: byte := 16 * DigitValue(s[i]) + DigitValue(s[i + 1]);
        var r := [b] + rest;
        assert forall k :: 1 <= k < |r| ==> i + 2 * k == (i + 2) + 2 * (k - 1);
        Ok(r)
  }

  /** `hex::encode`: two lower-case digits per byte, high nibble first. */
  function Encode(bs: Bytes): (r: string)
    ensures |r| == 2 * |bs|
    ensures forall k :: 0 <= k < |bs| ==>
              r[2 * k] == LowerDigit(bs[k] / 16) && r[2 * k + 1] == LowerDigit(bs[k] % 16)
  {
    if bs == [] then []
    else
      var r := [LowerDigit(bs[0] / 16), LowerDigit(bs[0] % 16)] + Encode(bs[1..]);
      assert forall k :: 1 <= k < |bs| ==> r[2 * k] == Encode(bs[1..])[2 * (k - 1)];
      assert forall k :: 1 <= k < |bs| ==> r[2 * k + 1] == Encode(bs[1..])[2 * (k - 1) + 1];
      r
  }

  /** Every character of an encoding is a lower-case hex digit. */
  lemma EncodeIsLowerHex(bs: Bytes)
    ensures forall k :: 0 <= k < |Encode(bs)| ==> IsLowerHexDigit(Encode(bs)[k])
  {
    var r := Encode(bs);
    forall k | 0 <= k < |r| ensures IsLowerHexDigit(r[k]) {
      var j := k / 2;
      if k == 2 * j {
        assert r[k] == LowerDigit(bs[j] / 16);
      } else {
        assert r[k] == LowerDigit(bs[j] % 16);
      }
    }
  }

  /** Decoding an encoding gives back the bytes. */
  lemma DecodeEncode(bs: Bytes)
    ensures Decode(Encode(bs)) == Ok(bs)
  {
    var s := Encode(bs);
    EncodeIsLowerHex(bs);
    var d := Decode(s).value;
    assert |d| == |bs|;
    forall k | 0 <= k < |bs| ensures d[k] == bs[k] {
      var hi, lo := bs[k] / 16, bs[k] % 16;
      assert s[2 * k] == LowerDigit(hi) && s[2 * k + 1] == LowerDigit(lo);
      assert d[k] == 16 * hi + lo;
    }
    assert d == bs;
  }

  /** Re-encoding decoded hex gives its lower-case spelling. */
  lemma EncodeDecode(s: string)
    requires Decode(s).Ok?
    ensures Encode(Decode(s).value) == Text.ToLowerAscii(s)
  {
    var e := Encode(Decode(s).value);
    var l := Text.ToLowerAscii(s);
    forall j | 0 <= j < |s| / 2 ensures e[2 * j] == l[2 * j] && e[2 * j + 1] == l[2 * j + 1] {
      EncodePairAt(s, j);
    }
    PairwiseEqual(e, l);
  }

  /** Two strings of the same even length that agree pair by pair are equal. */
  lemma PairwiseEqual(e: string, l: string)
    requires |e| == |l| && |e| % 2 == 0
    requires forall j :: 0 <= j < |e| / 2 ==> e[2 * j] == l[2 * j] && e[2 * j + 1] == l[2 * j + 1]
    ensures e == l
  {
    forall k | 0 <= k < |e| ensures e[k] == l[k] {
      var j := k / 2;
      assert k == 2 * j || k == 2 * j + 1;
    }
  }

  /** The two characters that re-encode the `j`-th decoded byte. */
  lemma EncodePairAt(s: string, j: nat)
    requires Decode(s).Ok? && j < |s| / 2
    ensures Encode(Decode(s).value)[2 * j] == Text.LowerChar(s[2 * j])
    ensures Encode(Decode(s).value)[2 * j + 1] == Text.LowerChar(s[2 * j + 1])
  {
    var d := Decode(s).value;
    var hi, lo := DigitValue(s[2 * j]), DigitValue(s[2 * j + 1]);
    assert d[j] == 16 * hi + lo;
    Nibbles(hi, lo);
    LowerDigitOfValue(s[2 * j]);
    LowerDigitOfValue(s[2 * j + 1]);
  }

  lemma Nibbles(hi: nat, lo: nat)
    requires hi < 16 && lo < 16
    ensures (16 * hi + lo) / 16 == hi && (16 * hi + lo) % 16 == lo
  {
  }

  lemma LowerDigitOfValue(c: char)
    requires IsHexDigit(c)
    ensures LowerDigit(DigitValue(c)) == Text.LowerChar(c)
  {
  }

  /** Lower-casing first changes neither whether decoding succeeds nor the bytes it gives. */
  lemma DecodeLower(s: string)
    ensures Decode(Text.ToLowerAscii(s)).Ok? <==> Decode(s).Ok?
    ensures Decode(s).Ok? ==> Decode(Text.ToLowerAscii(s)).value == Decode(s).value
  {
    var l := Text.ToLowerAscii(s);
    forall k | 0 <= k < |s|
      ensures IsHexDigit(l[k]) <==> IsHexDigit(s[k])
      ensures IsHexDigit(s[k]) ==> DigitValue(l[k]) == DigitValue(s[k])
    {
      assert l[k] == Text.LowerChar(s[k]);
    }
    if Decode(s).Ok? {
      var a, b := Decode(s).value, Decode(l).value;
      forall k | 0 <= k < |a| ensures a[k] == b[k] {
        assert a[k] == 16 * DigitValue(s[2 * k]) + DigitValue(s[2 * k + 1]);
        assert b[k] == 16 * DigitValue(l[2 * k]) + DigitValue(l[2 * k + 1]);
      }
      assert a == b;
    }
  }
}
