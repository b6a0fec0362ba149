/** Python's `bytes.hex()` and `bytes.fromhex()`, the text form in which the password
    digest and the salt are stored. */
module Hex {
  import opened Common

  /** The whitespace `bytes.fromhex()` skips between byte pairs: SPACE and TAB through CR. */
  predicate IsAsciiSpace(c: char)
  {
    c == ' ' || ('\t' <= c <= '\r')
  }

  /** A digit `bytes.fromhex()` accepts, in either case. */
  predicate IsHexDigit(c: char)
  {
    ('0' <= c <= '9') || ('a' <= c <= 'f') || ('A' <= c <= 'F')
  }

  function DigitValue(c: char): (v: nat)
    requires IsHexDigit(c)
    ensures v < 16
  {
    if '0' <= c <= '9' then (c - '0') as nat
    else if 'a' <= c <= 'f' then (c - 'a') as nat + 10
    else (c - 'A') as nat + 10
  }

  /** The digits `bytes.hex()` writes: 0-9 and a-f. */
  predicate IsLowerHexDigit(c: char)
  {
    ('0' <= c <= '9') || ('a' <= c <= 'f')
  }

  /** The lower-case digit for a value below 16. */
  function Digit(v: nat): (c: char)
    requires v < 16
    ensures IsLowerHexDigit(c) && DigitValue(c) == v
  {
    if v < 10 then ('0' as int + v) as char else ('a' as int + v - 10) as char
  }

  /** `bytes.hex()`: two lower-case digits per byte, high nibble first. */
  function Encode(b: Bytes): (s: string)
    ensures |s| == 2 * |b|
    ensures forall i :: 0 <= i < |s| ==> IsLowerHexDigit(s[i])
  {
    if b == [] then []
    else
      [Digit(b[0] as nat / 16), Digit(b[0] as nat % 16)] + Encode(b[1..])
  }

  /** `bytes.fromhex()`: ASCII whitespace may stand before any byte pair, never inside one;
      each pair is two hex digits of either case; anything else (an odd digit out, a
      non-hex character) raises, modelled as `None`. */
  function Decode(s: string): (r: Option<Bytes>)
    ensures |s| % 2 == 0 && (forall i :: 0 <= i < |s| ==> IsLowerHexDigit(s[i])) ==> r.Some?
    decreases |s|
  {
    if s == [] then Some([])
    else if IsAsciiSpace(s[0]) then Decode(s[1..])
    else if |s| < 2 || !IsHexDigit(s[0]) || !IsHexDigit(s[1]) then None
    else
      match Decode(s[2..])
      case None => None
      case Some(rest) => Some([PairValue(s[0], s[1])] + rest)
  }

  /** The byte two hex digits stand for, the first one the high nibble. */
  function PairValue(hi: char, lo: char): byte
    requires IsHexDigit(hi) && IsHexDigit(lo)
  {
    (DigitValue(hi) * 16 + DigitValue(lo)) as byte
  }

  /** Decoding the text `bytes.hex()` wrote gives back the original bytes: the stored
      salt text can always be turned back into the salt. */
  lemma {:induction false} DecodeEncode(b: Bytes)
    ensures Decode(Encode(b)) == Some(b)
  {
    if b != [] {
      var c0, c1 := Digit(b[0] as nat / 16), Digit(b[0] as nat % 16);
      var rest := Encode(b[1..]);
      assert Encode(b) == [c0, c1] + rest;
      DecodeEncode(b[1..]);
      assert Decode([c0, c1] + rest) == Some([PairValue(c0, c1)] + b[1..]) by {
        assert ([c0, c1] + rest)[2..] == rest;
      }
      assert [b[0]] + b[1..] == b;
    }
  }

  /** Two byte strings with the same hex text are equal. */
  lemma EncodeInjective(a: Bytes, b: Bytes)
    ensures Encode(a) == Encode(b) ==> a == b
  {
    if Encode(a) == Encode(b) {
      DecodeEncode(a);
      DecodeEncode(b);
    }
  }
}
