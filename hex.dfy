/** Lowercase hexadecimal text for byte strings, as `hex::encode` writes it. */
module Hex {
  import opened Wrappers

  /** The lowercase digit for a nibble. */
  function Digit(n: nat): (c: char)
    requires n < 16
    ensures '0' <= c <= '9' || 'a' <= c <= 'f'
  {
    if n < 10 then ('0' as int + n) as char else ('a' as int + n - 10) as char
  }

  /** The nibble a lowercase digit stands for; anything else is rejected. */
  function DigitValue(c: char): (r: Option<nat>)
    ensures r.Some? ==> r.value < 16 && Digit(r.value) == c
  {
    if '0' <= c <= '9' then Some(c as int - '0' as int)
    else if 'a' <= c <= 'f' then Some(c as int - 'a' as int + 10)
    else None
  }

  lemma DigitRoundTrip(n: nat)
    requires n < 16
    ensures DigitValue(Digit(n)) == Some(n)
  {
  }

  /** Two digits per byte, high nibble first. */
  function Encode(bytes: seq<bv8>): (s: string)
    ensures |s| == 2 * |bytes|
    ensures forall i :: 0 <= i < |bytes| ==>
      s[2 * i] == Digit(bytes[i] as int / 16) && s[2 * i + 1] == Digit(bytes[i] as int % 16)
  {
    if bytes == [] then ""
    else [Digit(bytes[0] as int / 16), Digit(bytes[0] as int % 16)] + Encode(bytes[1..])
  }

  /** Reads digit pairs back into bytes; odd length or a non-digit is an error. */
  function Decode(s: string): Option<seq<bv8>>
  {
    if |s| == 0 then Some([])
    else if |s| == 1 then None
    else
      match (DigitValue(s[0]), DigitValue(s[1]), Decode(s[2..]))
      case (Some(hi), Some(lo), Some(rest)) => Some([(hi * 16 + lo) as bv8] + rest)
      case _ => None
  }

  lemma NibblesRebuildByte(b: bv8)
    ensures ((b as int / 16) * 16 + b as int % 16) as bv8 == b
  {
  }

  /** Hex text decodes back to the bytes it was made from. */
  lemma {:induction false} DecodeEncode(bytes: seq<bv8>)
    ensures Decode(Encode(bytes)) == Some(bytes)
  {
    if bytes != [] {
      var b := bytes[0];
      var hi, lo := b as int / 16, b as int % 16;
      var tail := Encode(bytes[1..]);
      var s := [Digit(hi), Digit(lo)] + tail;
      assert Encode(bytes) == s;
      assert s[0] == Digit(hi) && s[1] == Digit(lo) && s[2..] == tail;
      DigitRoundTrip(hi);
      DigitRoundTrip(lo);
      DecodeEncode(bytes[1..]);
      NibblesRebuildByte(b);
      assert bytes == [b] + bytes[1..];
    }
  }
}
