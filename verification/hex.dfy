/**
 * Rendering of digest bytes as text: every byte becomes `String(format: "%02x", b)`,
 * two lower-case hexadecimal digits, and the pieces are joined in order.
 * `Decode` is the inverse rendering, used to state that nothing is lost.
 */
module Hex {
  import opened Bytes

  predicate IsLowerHexDigit(c: char) {
    '0' <= c <= '9' || 'a' <= c <= 'f'
  }

  predicate IsLowerHex(s: string) {
    forall i :: 0 <= i < |s| ==> IsLowerHexDigit(s[i])
  }

  /** The value of one lower-case hex digit. */
  function DigitValue(c: char): (n: int)
    requires IsLowerHexDigit(c)
    ensures 0 <= n < 16
  {
    if c <= '9' then c as int - '0' as int else c as int - 'a' as int + 10
  }

  /** The lower-case hex digit of a value below 16. */
  function DigitChar(n: int): (c: char)
    requires 0 <= n < 16
    ensures IsLowerHexDigit(c) && DigitValue(c) == n
  {
    if n < 10 then ('0' as int + n) as char else ('a' as int + n - 10) as char
  }

  lemma DigitCharOfValue(c: char)
    requires IsLowerHexDigit(c)
    ensures DigitChar(DigitValue(c)) == c
  {
  }

  /** `String(format: "%02x", b)`: two digits, high nibble first, zero-padded. */
  function ByteToHex(b: Byte): (s: string)
    ensures |s| == 2 && IsLowerHex(s)
    ensures 16 * DigitValue(s[0]) + DigitValue(s[1]) == b
  {
    [DigitChar(b / 16), DigitChar(b % 16)]
  }

  /** `compactMap { String(format: "%02x", $0) }.joined()` over a byte sequence. */
  function Encode(bs: seq<Byte>): (s: string)
    ensures |s| == 2 * |bs| && IsLowerHex(s)
  {
    if bs == [] then "" else ByteToHex(bs[0]) + Encode(bs[1..])
  }

  /** Reads back two lower-case hex digits per byte; `None` on odd length or any other character. */
  function Decode(s: string): (r: Option<seq<Byte>>)
    ensures r.Some? ==> 2 * |r.value| == |s|
  {
    if s == [] then Some([])
    else if |s| < 2 || !IsLowerHexDigit(s[0]) || !IsLowerHexDigit(s[1]) then None
    else
      match Decode(s[2..])
      case None => None
      case Some(rest) => Some([16 * DigitValue(s[0]) + DigitValue(s[1])] + rest)
  }

  /** Decoding the rendering gives back the bytes. */
  lemma {:induction false} DecodeEncode(bs: seq<Byte>)
    ensures Decode(Encode(bs)) == Some(bs)
  {
    if bs != [] {
      var s := Encode(bs);
      assert s == ByteToHex(bs[0]) + Encode(bs[1..]);
      assert s[..2] == ByteToHex(bs[0]) && s[2..] == Encode(bs[1..]);
      DecodeEncode(bs[1..]);
      assert [bs[0]] + bs[1..] == bs;
    }
  }

  /** A decodable string starts with two digits giving byte `b`, followed by a decodable rest. */
  lemma DecodeHead(s: string) returns (b: Byte, rest: seq<Byte>)
    requires s != [] && Decode(s).Some?
    ensures 2 <= |s| && Decode(s[2..]) == Some(rest)
    ensures Decode(s) == Some([b] + rest)
    ensures ByteToHex(b) == s[..2]
  {
    b := 16 * DigitValue(s[0]) + DigitValue(s[1]);
    rest := Decode(s[2..]).value;
    DigitCharOfValue(s[0]);
    DigitCharOfValue(s[1]);
    assert b / 16 == DigitValue(s[0]) && b % 16 == DigitValue(s[1]);
    assert s[..2] == [s[0], s[1]];
  }

  /** A byte whose rendering leads `s`, then bytes that render as the remainder, render as `s`. */
  lemma EncodeSplit(s: string, b: Byte, rest: seq<Byte>)
    requires 2 <= |s| && ByteToHex(b) == s[..2] && Encode(rest) == s[2..]
    ensures Encode([b] + rest) == s
  {
    assert ([b] + rest)[0] == b && ([b] + rest)[1..] == rest;
    assert s[..2] + s[2..] == s;
  }

  /** Whatever decodes is exactly the rendering of what it decodes to. */
  lemma {:induction false} EncodeDecode(s: string)
    requires Decode(s).Some?
    ensures Encode(Decode(s).value) == s
  {
    if s != [] {
      var b, rest := DecodeHead(s);
      EncodeDecode(s[2..]);
      EncodeSplit(s, b, rest);
    }
  }

  /** A string decodes exactly when it has even length and only lower-case hex digits. */
  lemma {:induction false} DecodeDefined(s: string)
    ensures Decode(s).Some? <==> (|s| % 2 == 0 && IsLowerHex(s))
  {
    if |s| >= 2 {
      DecodeDefined(s[2..]);
      if IsLowerHexDigit(s[0]) && IsLowerHexDigit(s[1]) {
        assert IsLowerHex(s) <==> IsLowerHex(s[2..]) by {
          if IsLowerHex(s[2..]) {
            forall i | 0 <= i < |s| ensures IsLowerHexDigit(s[i]) {
              if i >= 2 { assert s[i] == s[2..][i - 2]; }
            }
          }
        }
      }
    }
  }

  /** Decoding and rendering are inverse relations: `s` decodes to `bs` exactly when `bs` renders as `s`. */
  lemma DecodeIff(s: string, bs: seq<Byte>)
    ensures Decode(s) == Some(bs) <==> Encode(bs) == s
  {
    DecodeEncode(bs);
    if Decode(s) == Some(bs) {
      EncodeDecode(s);
    }
  }

  /** Two byte sequences with the same rendering are equal. */
  lemma EncodeInjective(a: seq<Byte>, b: seq<Byte>)
    requires Encode(a) == Encode(b)
    ensures a == b
  {
    DecodeEncode(a);
    DecodeEncode(b);
  }
}
