/** Lower-case Base16, as produced by the `hex` crate's `encode`: every byte
    becomes two digits from `0-9a-f`, high nibble first, bytes in order.
    `Decode` is the inverse used to state the round trip. */
module Hex {
  import opened Wrappers

  type byte = x: int | 0 <= x < 256

  predicate IsLowerHex(c: char) {
    '0' <= c <= '9' || 'a' <= c <= 'f'
  }

  /** The digit for a nibble. */
  function Digit(v: int): (c: char)
    requires 0 <= v < 16
    ensures IsLowerHex(c)
  {
    if v < 10 then ('0' as int + v) as char else ('a' as int + v - 10) as char
  }

  /** The nibble a digit stands for. */
  function DigitValue(c: char): (v: int)
    requires IsLowerHex(c)
    ensures 0 <= v < 16
    ensures Digit(v) == c
  {
    if c <= '9' then c as int - '0' as int else c as int - 'a' as int + 10
  }

  lemma DigitValueOfDigit(v: int)
    requires 0 <= v < 16
    ensures DigitValue(Digit(v)) == v
  {
  }

  function Encode(b: seq<byte>): (s: string)
    ensures |s| == 2 * |b|
    ensures forall j :: 0 <= j < |s| ==> IsLowerHex(s[j])
  {
    if |b| == 0 then [] else [Digit(b[0] / 16), Digit(b[0] % 16)] + Encode(b[1..])
  }

  /** Byte `i` is written at positions `2i` (high nibble) and `2i + 1` (low
      nibble). */
  lemma {:induction false} EncodeAt(b: seq<byte>, i: nat)
    requires i < |b|
    ensures Encode(b)[2 * i] == Digit(b[i] / 16)
    ensures Encode(b)[2 * i + 1] == Digit(b[i] % 16)
  {
    if i > 0 {
      EncodeAt(b[1..], i - 1);
      var rest := Encode(b[1..]);
      assert Encode(b) == [Digit(b[0] / 16), Digit(b[0] % 16)] + rest;
      assert 2 * i == 2 + 2 * (i - 1);
    }
  }

  /** Reads back a string of lower-case digit pairs; `None` for an odd length
      or a character outside `0-9a-f`. */
  function Decode(s: string): (r: Option<seq<byte>>)
    ensures r.Some? ==> 2 * |r.value| == |s|
  {
    if |s| == 0 then Some([])
    else if |s| == 1 || !IsLowerHex(s[0]) || !IsLowerHex(s[1]) then None
    else
      match Decode(s[2..])
      case None => None
      case Some(rest) => Some([(DigitValue(s[0]) * 16 + DigitValue(s[1])) as byte] + rest)
  }

  lemma {:induction false} EncodeAppend(a: seq<byte>, b: seq<byte>)
    ensures Encode(a + b) == Encode(a) + Encode(b)
  {
    if |a| == 0 {
      assert a + b == b;
    } else {
      assert (a + b)[1..] == a[1..] + b;
      EncodeAppend(a[1..], b);
    }
  }

  /** Decoding an encoding gives the bytes back. */
  lemma {:induction false} DecodeEncode(b: seq<byte>)
    ensures Decode(Encode(b)) == Some(b)
  {
    if |b| > 0 {
      var s := Encode(b);
      assert s[2..] == Encode(b[1..]);
      DecodeEncode(b[1..]);
      DigitValueOfDigit(b[0] / 16);
      DigitValueOfDigit(b[0] % 16);
      assert b == [b[0]] + b[1..];
    }
  }

  /** A string that decodes is exactly the encoding of what it decodes to. */
  lemma {:induction false} EncodeDecode(s: string)
    requires Decode(s).Some?
    ensures Encode(Decode(s).value) == s
  {
    if |s| > 0 {
      var hi := DigitValue(s[0]);
      var lo := DigitValue(s[1]);
      var x: byte := hi * 16 + lo;
      assert x / 16 == hi && x % 16 == lo;
      var rest := Decode(s[2..]).value;
      assert Decode(s).value == [x] + rest;
      EncodeDecode(s[2..]);
      assert ([x] + rest)[1..] == rest;
      assert Encode([x] + rest) == [s[0], s[1]] + s[2..];
      assert s == [s[0], s[1]] + s[2..];
    }
  }

  /** Distinct byte strings have distinct encodings. */
  lemma EncodeInjective(a: seq<byte>, b: seq<byte>)
    requires Encode(a) == Encode(b)
    ensures a == b
  {
    DecodeEncode(a);
    DecodeEncode(b);
  }
}
