/**
 * UTF-8 as defined in section 3 of RFC 3629: what `Data(password.utf8)` hands to
 * the digest. A Dafny `char` is a Unicode scalar value, as the elements of Swift's
 * `String.unicodeScalars` are, so every string has exactly one encoding.
 */
module Utf8 {
  import opened Bytes

  /** Number of octets RFC 3629 uses for scalar value `n`. */
  function ScalarLength(n: int): nat {
    if n < 0x80 then 1 else if n < 0x800 then 2 else if n < 0x1_0000 then 3 else 4
  }

  predicate IsContinuation(b: Byte) {
    0x80 <= b < 0xC0
  }

  /** The octets after the lead octet of a `len`-octet sequence are all continuation octets. */
  predicate TrailersOk(bs: seq<Byte>, len: nat)
    requires len <= |bs| <= 4
  {
    (len < 2 || IsContinuation(bs[1])) && (len < 3 || IsContinuation(bs[2])) && (len < 4 || IsContinuation(bs[3]))
  }

  /** Sequence length announced by a lead octet, or 0 for an octet that cannot lead. */
  function LeadLength(b: Byte): nat {
    if b < 0x80 then 1
    else if b < 0xC2 then 0
    else if b < 0xE0 then 2
    else if b < 0xF0 then 3
    else if b < 0xF5 then 4
    else 0
  }

  /** The scalar value carried by a lead octet followed by continuation octets. */
  function ScalarOf(bs: seq<Byte>): int
    requires 1 <= |bs| <= 4
  {
    var b0: int, n := bs[0], |bs|;
    if n == 1 then b0
    else if n == 2 then (b0 - 0xC0) * 64 + Payload(bs[1])
    else if n == 3 then ((b0 - 0xE0) * 64 + Payload(bs[1])) * 64 + Payload(bs[2])
    else (((b0 - 0xF0) * 64 + Payload(bs[1])) * 64 + Payload(bs[2])) * 64 + Payload(bs[3])
  }

  /** The six value bits of a continuation octet. */
  function Payload(b: Byte): int {
    b as int - 0x80
  }

  /** The octets of one scalar value, most significant bits first. */
  function EncodeChar(c: char): (bs: seq<Byte>)
    ensures |bs| == ScalarLength(c as int) == LeadLength(bs[0])
    ensures TrailersOk(bs, |bs|)
    ensures ScalarOf(bs) == c as int
  {
    var n := c as int;
    if n < 0x80 then [n]
    else if n < 0x800 then [0xC0 + n / 64, 0x80 + n % 64]
    else if n < 0x1_0000 then [0xE0 + n / 64 / 64, 0x80 + n / 64 % 64, 0x80 + n % 64]
    else [0xF0 + n / 64 / 64 / 64, 0x80 + n / 64 / 64 % 64, 0x80 + n / 64 % 64, 0x80 + n % 64]
  }

  /** `password.utf8`: the encodings of the characters, in order. */
  function Encode(s: string): (bs: seq<Byte>)
    ensures |s| <= |bs| <= 4 * |s|
  {
    if s == [] then [] else EncodeChar(s[0]) + Encode(s[1..])
  }

  /**
   * Validating decoder: `None` on a bad lead octet, a truncated sequence, a missing
   * continuation octet, an overlong form, a surrogate or a value above U+10FFFF.
   */
  function Decode(bs: seq<Byte>): (r: Option<string>)
    ensures r.Some? ==> |r.value| <= |bs| <= 4 * |r.value|
  {
    if bs == [] then Some("")
    else
      var len := LeadLength(bs[0]);
      if len == 0 || |bs| < len || !TrailersOk(bs[..len], len) then None
      else
        var n := ScalarOf(bs[..len]);
        if ScalarLength(n) != len || 0xD800 <= n < 0xE000 || 0x11_0000 <= n then None
        else
          match Decode(bs[len..])
          case None => None
          case Some(rest) => Some([n as char] + rest)
  }

  /** Decoding an encoding gives back the string. */
  lemma {:induction false} DecodeEncode(s: string)
    ensures Decode(Encode(s)) == Some(s)
  {
    if s != [] {
      var head := EncodeChar(s[0]);
      var bs := Encode(s);
      assert bs[..|head|] == head && bs[|head|..] == Encode(s[1..]);
      DecodeEncode(s[1..]);
      assert [s[0]] + s[1..] == s;
    }
  }

  /** One well-formed sequence re-encodes to itself. */
  lemma EncodeCharOfScalar(bs: seq<Byte>)
    requires 1 <= |bs| <= 4 && LeadLength(bs[0]) == |bs|
    requires TrailersOk(bs, |bs|)
    requires ScalarLength(ScalarOf(bs)) == |bs|
    requires !(0xD800 <= ScalarOf(bs) < 0xE000) && ScalarOf(bs) < 0x11_0000
    ensures EncodeChar(ScalarOf(bs) as char) == bs
  {
    if |bs| == 2 {
      assert bs == [bs[0], bs[1]];
      EncodeTwo(bs[0], bs[1]);
    } else if |bs| == 3 {
      assert bs == [bs[0], bs[1], bs[2]];
      EncodeThree(bs[0], bs[1], bs[2]);
    } else if |bs| == 4 {
      assert bs == [bs[0], bs[1], bs[2], bs[3]];
      EncodeFour(bs[0], bs[1], bs[2], bs[3]);
    }
  }

  lemma EncodeTwo(b0: Byte, b1: Byte)
    requires LeadLength(b0) == 2 && IsContinuation(b1)
    ensures EncodeChar(ScalarOf([b0, b1]) as char) == [b0, b1]
  {
    var n := (b0 - 0xC0) * 64 + Payload(b1);
    assert ScalarOf([b0, b1]) == n;
    Split64(b0 - 0xC0, Payload(b1));
    assert 0x80 <= n < 0x800;
    var c := n as char;
    assert EncodeChar(c) == [0xC0 + n / 64, 0x80 + n % 64];
  }

  lemma EncodeThree(b0: Byte, b1: Byte, b2: Byte)
    requires LeadLength(b0) == 3 && IsContinuation(b1) && IsContinuation(b2)
    requires ScalarLength(ScalarOf([b0, b1, b2])) == 3
    requires !(0xD800 <= ScalarOf([b0, b1, b2]) < 0xE000)
    ensures EncodeChar(ScalarOf([b0, b1, b2]) as char) == [b0, b1, b2]
  {
    var hi := (b0 - 0xE0) * 64 + Payload(b1);
    var n := hi * 64 + Payload(b2);
    assert ScalarOf([b0, b1, b2]) == n;
    Split64(hi, Payload(b2));
    Split64(b0 - 0xE0, Payload(b1));
    assert n / 64 == hi && hi / 64 == b0 - 0xE0;
    var c := n as char;
    assert EncodeChar(c) == [0xE0 + n / 64 / 64, 0x80 + n / 64 % 64, 0x80 + n % 64];
  }

  lemma EncodeFour(b0: Byte, b1: Byte, b2: Byte, b3: Byte)
    requires LeadLength(b0) == 4 && IsContinuation(b1) && IsContinuation(b2) && IsContinuation(b3)
    requires ScalarLength(ScalarOf([b0, b1, b2, b3])) == 4 && ScalarOf([b0, b1, b2, b3]) < 0x11_0000
    ensures EncodeChar(ScalarOf([b0, b1, b2, b3]) as char) == [b0, b1, b2, b3]
  {
    var mid := (b0 - 0xF0) * 64 + Payload(b1);
    var hi := mid * 64 + Payload(b2);
    var n := hi * 64 + Payload(b3);
    assert ScalarOf([b0, b1, b2, b3]) == n;
    Split64(hi, Payload(b3));
    Split64(mid, Payload(b2));
    Split64(b0 - 0xF0, Payload(b1));
    assert n / 64 == hi && hi / 64 == mid && mid / 64 == b0 - 0xF0;
    var c := n as char;
    assert EncodeChar(c) == [0xF0 + n / 64 / 64 / 64, 0x80 + n / 64 / 64 % 64, 0x80 + n / 64 % 64, 0x80 + n % 64];
  }

  /** Division by 64 takes apart what multiplying by 64 and adding six bits put together. */
  lemma Split64(q: int, r: int)
    requires 0 <= q && 0 <= r < 64
    ensures (q * 64 + r) / 64 == q && (q * 64 + r) % 64 == r
  {
  }

  /** A decodable sequence starts with the encoding of its first character, `c`, followed by a decodable rest. */
  lemma DecodeHead(bs: seq<Byte>) returns (len: nat, c: char, rest: string)
    requires bs != [] && Decode(bs).Some?
    ensures 1 <= len <= |bs| && Decode(bs[len..]) == Some(rest)
    ensures Decode(bs) == Some([c] + rest)
    ensures EncodeChar(c) == bs[..len]
  {
    len := LeadLength(bs[0]);
    var head := bs[..len];
    EncodeCharOfScalar(head);
    c := ScalarOf(head) as char;
    rest := Decode(bs[len..]).value;
  }

  /** Encoding distributes over putting one character in front. */
  lemma EncodeCons(c: char, rest: string)
    ensures Encode([c] + rest) == EncodeChar(c) + Encode(rest)
  {
    assert ([c] + rest)[0] == c && ([c] + rest)[1..] == rest;
  }

  /** A character whose encoding leads `bs`, then a rest that encodes to the remainder, encode to `bs`. */
  lemma EncodeSplit(bs: seq<Byte>, len: nat, c: char, rest: string)
    requires len <= |bs| && EncodeChar(c) == bs[..len] && Encode(rest) == bs[len..]
    ensures Encode([c] + rest) == bs
  {
    EncodeCons(c, rest);
    assert bs[..len] + bs[len..] == bs;
  }

  /** Whatever decodes is exactly the encoding of what it decodes to. */
  lemma {:induction false} EncodeDecode(bs: seq<Byte>)
    requires Decode(bs).Some?
    ensures Encode(Decode(bs).value) == bs
  {
    if bs != [] {
      var len, c, rest := DecodeHead(bs);
      EncodeDecode(bs[len..]);
      EncodeSplit(bs, len, c, rest);
    }
  }

  /** Distinct strings never share an encoding. */
  lemma EncodeInjective(s: string, t: string)
    requires Encode(s) == Encode(t)
    ensures s == t
  {
    DecodeEncode(s);
    DecodeEncode(t);
  }
}
