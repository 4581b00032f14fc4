/** Base16 helpers of avp/avp.c (`hex_encode`, `hex_decode`): lower-case output,
    pairs of hex digits on input. */
module Hex {
  import opened AvpTypes

  const Digits: string := "0123456789abcdef"

  function HexChar(v: nat): (c: char)
    requires v < 16
    ensures c in Digits
  {
    Digits[v]
  }

  predicate IsHexDigit(c: char) {
    '0' <= c <= '9' || 'a' <= c <= 'f' || 'A' <= c <= 'F'
  }

  function DigitValue(c: char): (v: nat)
    requires IsHexDigit(c)
    ensures v < 16
  {
    if '0' <= c <= '9' then c as nat - '0' as nat
    else if 'a' <= c <= 'f' then c as nat - 'a' as nat + 10
    else c as nat - 'A' as nat + 10
  }

  lemma DigitValueOfHexChar(v: nat)
    requires v < 16
    ensures IsHexDigit(HexChar(v)) && DigitValue(HexChar(v)) == v
  {
  }

  /** The two characters `hex_encode` writes for one byte. */
  function EncodeByte(b: u8): (s: string)
    ensures |s| == 2
  {
    [HexChar(b / 16), HexChar(b % 16)]
  }

  /** The characters `hex_encode` writes before the terminator. */
  function Encode(data: seq<u8>): (s: string)
    ensures |s| == 2 * |data|
  {
    if |data| == 0 then [] else Encode(data[..|data| - 1]) + EncodeByte(data[|data| - 1])
  }

  /** One pair of characters as a byte; both must be hex digits. */
  function DecodePair(hi: char, lo: char): Option<u8> {
    if IsHexDigit(hi) && IsHexDigit(lo) then Some(DigitValue(hi) * 16 + DigitValue(lo)) else None
  }

  /** The bytes of an even-length string of hex pairs, or None at the first bad pair. */
  function DecodePairs(hex: string): Option<seq<u8>>
    requires |hex| % 2 == 0
  {
    if |hex| == 0 then Some([])
    else
      match DecodePairs(hex[..|hex| - 2])
      case None => None
      case Some(front) =>
        match DecodePair(hex[|hex| - 2], hex[|hex| - 1])
        case None => None
        case Some(b) => Some(front + [b])
  }

  /** `hex_decode`: None stands for the result -1. */
  function Decode(hex: string, maxLen: nat): (r: Option<seq<u8>>)
    ensures |hex| % 2 != 0 || |hex| / 2 > maxLen ==> r == None
    ensures r.Some? ==> |r.value| == |hex| / 2 <= maxLen
  {
    if |hex| % 2 != 0 || |hex| / 2 > maxLen then None
    else
      DecodePairsLength(hex);
      DecodePairs(hex)
  }

  /** `hex_encode` writes byte `i` as two lower-case hex digits at positions 2i and 2i+1,
      most significant nibble first. */
  lemma {:induction false} EncodeAt(data: seq<u8>, i: nat)
    requires i < |data|
    ensures |Encode(data)| == 2 * |data|
    ensures Encode(data)[2 * i] == HexChar(data[i] / 16)
    ensures Encode(data)[2 * i + 1] == HexChar(data[i] % 16)
  {
    var front := data[..|data| - 1];
    var head := Encode(front);
    var tail := EncodeByte(data[|data| - 1]);
    assert Encode(data) == head + tail;
    assert |head| == 2 * |front|;
    if i < |front| {
      EncodeAt(front, i);
      assert data[i] == front[i];
      assert (head + tail)[2 * i] == head[2 * i];
      assert (head + tail)[2 * i + 1] == head[2 * i + 1];
    } else {
      assert 2 * i == |head|;
      assert (head + tail)[2 * i] == tail[0];
      assert (head + tail)[2 * i + 1] == tail[1];
    }
  }

  /** Every character `hex_encode` writes is a lower-case hex digit. */
  lemma EncodeLowerCase(data: seq<u8>)
    ensures forall k :: 0 <= k < |Encode(data)| ==> Encode(data)[k] in Digits
  {
    forall k | 0 <= k < |Encode(data)|
      ensures Encode(data)[k] in Digits
    {
      EncodeAt(data, k / 2);
      assert k == 2 * (k / 2) || k == 2 * (k / 2) + 1;
    }
  }

  lemma DecodeEncodeByte(b: u8)
    ensures DecodePair(EncodeByte(b)[0], EncodeByte(b)[1]) == Some(b)
  {
    var hi, lo := b / 16, b % 16;
    assert b == hi * 16 + lo;
    DecodeHexChars(hi, lo);
  }

  lemma DecodeHexChars(hi: nat, lo: nat)
    requires hi < 16 && lo < 16
    ensures DecodePair(HexChar(hi), HexChar(lo)) == Some(hi * 16 + lo)
  {
    DigitValueOfHexChar(hi);
    DigitValueOfHexChar(lo);
  }

  /** One unfolding of `DecodePairs` on a string that ends in the pair `x`, `y`. */
  lemma DecodePairsSnoc(hex: string, x: char, y: char)
    requires |hex| % 2 == 0
    ensures |hex + [x, y]| % 2 == 0
    ensures DecodePairs(hex).Some? && DecodePair(x, y).Some? ==>
      DecodePairs(hex + [x, y]) == Some(DecodePairs(hex).value + [DecodePair(x, y).value])
  {
    var e := hex + [x, y];
    assert e[..|e| - 2] == hex;
  }

  lemma DecodePairsAppend(hex: string, b: u8)
    requires |hex| % 2 == 0
    ensures |hex + EncodeByte(b)| % 2 == 0
    ensures DecodePairs(hex).Some? ==> DecodePairs(hex + EncodeByte(b)) == Some(DecodePairs(hex).value + [b])
  {
    var pair := EncodeByte(b);
    assert pair == [pair[0], pair[1]];
    DecodeEncodeByte(b);
    DecodePairsSnoc(hex, pair[0], pair[1]);
  }

  predicate PairsDecodeTo(hex: string, data: seq<u8>) {
    |hex| % 2 == 0 && DecodePairs(hex) == Some(data)
  }

  lemma {:induction false} DecodePairsEncode(data: seq<u8>)
    ensures PairsDecodeTo(Encode(data), data)
  {
    if |data| > 0 {
      var front := data[..|data| - 1];
      var b := data[|data| - 1];
      assert front + [b] == data;
      var head := Encode(front);
      assert Encode(data) == head + EncodeByte(b);
      DecodePairsEncode(front);
      assert DecodePairs(head) == Some(front);
      DecodePairsAppend(head, b);
    }
  }

  /** Decoding what was encoded gives the bytes back, as long as they fit the output buffer. */
  lemma DecodeEncode(data: seq<u8>, maxLen: nat)
    requires |data| <= maxLen
    ensures Decode(Encode(data), maxLen) == Some(data)
  {
    DecodePairsEncode(data);
  }

  lemma {:induction false} DecodePairsLength(hex: string)
    requires |hex| % 2 == 0
    ensures DecodePairs(hex).Some? ==> |DecodePairs(hex).value| == |hex| / 2
  {
    if |hex| > 0 {
      DecodePairsLength(hex[..|hex| - 2]);
    }
  }

  /** The `hex_encode` loop: two digits per byte, from the first byte to the last. */
  method HexEncode(data: seq<u8>) returns (out: string)
    ensures out == Encode(data)
  {
    out := [];
    var i := 0;
    while i < |data|
      invariant 0 <= i <= |data|
      invariant out == Encode(data[..i])
    {
      assert data[..i + 1][..i] == data[..i];
      out := out + [HexChar(data[i] / 16), HexChar(data[i] % 16)];
      i := i + 1;
    }
    assert data[..|data|] == data;
  }

  /** The `hex_decode` loop: length checks, then one pair per step; `n` is -1 on failure. */
  method HexDecode(hex: string, maxLen: nat) returns (n: int, out: seq<u8>)
    ensures Decode(hex, maxLen).None? ==> n == -1
    ensures Decode(hex, maxLen).Some? ==> n == |hex| / 2 && out == Decode(hex, maxLen).value
  {
    var len := |hex|;
    if len % 2 != 0 || len / 2 > maxLen {
      return -1, [];
    }
    out := [];
    var i := 0;
    while i < len / 2
      invariant 0 <= i <= len / 2
      invariant DecodePairs(hex[..2 * i]) == Some(out)
    {
      assert hex[..2 * (i + 1)][..2 * i] == hex[..2 * i];
      var pair := DecodePair(hex[2 * i], hex[2 * i + 1]);
      if pair.None? {
        PrefixFailurePropagates(hex, i + 1);
        return -1, out;
      }
      out := out + [pair.value];
      i := i + 1;
    }
    assert hex[..len] == hex;
    n := len / 2;
  }

  /** A bad pair makes every longer even prefix fail too. */
  lemma {:induction false} PrefixFailurePropagates(hex: string, k: nat)
    requires |hex| % 2 == 0 && 2 * k <= |hex|
    requires DecodePairs(hex[..2 * k]) == None
    ensures DecodePairs(hex) == None
    decreases |hex| - 2 * k
  {
    if 2 * k < |hex| {
      var longer := hex[..2 * (k + 1)];
      assert longer[..|longer| - 2] == hex[..2 * k];
      PrefixFailurePropagates(hex, k + 1);
    } else {
      assert hex[..2 * k] == hex;
    }
  }
}
