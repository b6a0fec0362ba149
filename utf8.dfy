/** UTF-8, the encoding `str.encode()` applies by default: the password is hashed as
    the UTF-8 bytes of its text. */
module Utf8 {
  import opened Common

  /** The number of bytes of the sequence a lead byte starts, or 0 for a byte that
      cannot start one (a continuation byte or 0xF8..0xFF). */
  function LeadLength(b: byte): nat
  {
    if b < 0x80 then 1
    else if 0xC0 <= b < 0xE0 then 2
    else if 0xE0 <= b < 0xF0 then 3
    else if 0xF0 <= b < 0xF8 then 4
    else 0
  }

  predicate IsContinuation(b: byte)
  {
    0x80 <= b < 0xC0
  }

  /** The UTF-8 form of one character: 1 to 4 bytes, the lead byte telling how many. */
  function EncodeChar(c: char): (r: Bytes)
    ensures 1 <= |r| <= 4 && LeadLength(r[0]) == |r|
    ensures forall i :: 1 <= i < |r| ==> IsContinuation(r[i])
  {
    var n := c as int;
    var q1 := n / 0x40;
    var q2 := q1 / 0x40;
    var q3 := q2 / 0x40;
    if n < 0x80 then [n as byte]
    else if n < 0x800 then [(0xC0 + q1) as byte, (0x80 + n % 0x40) as byte]
    else if n < 0x1_0000 then
      [(0xE0 + q2) as byte, (0x80 + q1 % 0x40) as byte, (0x80 + n % 0x40) as byte]
    else
      [(0xF0 + q3) as byte, (0x80 + q2 % 0x40) as byte, (0x80 + q1 % 0x40) as byte,
       (0x80 + n % 0x40) as byte]
  }

  /** `str.encode()`: the characters' encodings one after the other. */
  function Encode(s: string): (r: Bytes)
    ensures |s| <= |r| <= 4 * |s|
  {
    if s == [] then [] else EncodeChar(s[0]) + Encode(s[1..])
  }

  /** The six payload bits of a continuation byte. */
  function Payload(b: byte): int
  {
    b as int - 0x80
  }

  /** The character one complete sequence stands for, or `None` when the sequence is not
      well-formed UTF-8 (a bad continuation byte, an overlong form, a surrogate, or a
      value beyond U+10FFFF). */
  function DecodeChar(b: Bytes): (r: Option<char>)
    requires 1 <= |b| <= 4 && LeadLength(b[0]) == |b|
  {
    var v :=
      if |b| == 1 then b[0] as int
      else if |b| == 2 then (b[0] as int - 0xC0) * 0x40 + Payload(b[1])
      else if |b| == 3 then ((b[0] as int - 0xE0) * 0x40 + Payload(b[1])) * 0x40 + Payload(b[2])
      else (((b[0] as int - 0xF0) * 0x40 + Payload(b[1])) * 0x40 + Payload(b[2])) * 0x40 + Payload(b[3]);
    var least := if |b| == 1 then 0 else if |b| == 2 then 0x80 else if |b| == 3 then 0x800 else 0x1_0000;
    if (forall i :: 1 <= i < |b| ==> IsContinuation(b[i])) && least <= v < 0x11_0000 && !(0xD800 <= v < 0xE000)
    then Some(v as char)
    else None
  }

  /** Strict UTF-8 decoding: `None` unless the bytes are a sequence of well-formed
      encodings. */
  function Decode(b: Bytes): (r: Option<string>)
    decreases |b|
  {
    if b == [] then Some([])
    else
      var n := LeadLength(b[0]);
      if n == 0 || |b| < n then None
      else
        match DecodeChar(b[..n])
        case None => None
        case Some(c) =>
          match Decode(b[n..])
          case None => None
          case Some(rest) => Some([c] + rest)
  }

  lemma DecodeEncodeChar(c: char)
    ensures DecodeChar(EncodeChar(c)) == Some(c)
  {
  }

  /** Decoding the bytes `str.encode()` produces gives back the text. */
  lemma {:induction false} DecodeEncode(s: string)
    ensures Decode(Encode(s)) == Some(s)
  {
    if s != [] {
      var head := EncodeChar(s[0]);
      var b := Encode(s);
      assert b == head + Encode(s[1..]);
      assert b[0] == head[0] && b[..|head|] == head && b[|head|..] == Encode(s[1..]);
      DecodeEncodeChar(s[0]);
      DecodeEncode(s[1..]);
      assert [s[0]] + s[1..] == s;
    }
  }

  /** Different passwords have different UTF-8 bytes. */
  lemma EncodeInjective(s: string, t: string)
    ensures Encode(s) == Encode(t) ==> s == t
  {
    if Encode(s) == Encode(t) {
      DecodeEncode(s);
      DecodeEncode(t);
    }
  }
}
